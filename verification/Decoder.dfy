/** The strict bencode decoder of `crates/rt-bencode/src/decode.rs`. Ghost parameters stand for an
    arbitrary value whose encoding starts at the cursor. */
module BencodeDecoder {
  import opened Bytes
  import opened Collections
  import opened Bencode

  const MAX_INTEGER_TOKEN_BYTES: nat := 20
  const MAX_LENGTH_PREFIX_DIGITS: nat := 64

  datatype Limits = Limits(maxDepth: nat, maxString: nat, maxNodes: nat, strictKeys: bool) {
    predicate Valid() {
      maxString <= USIZE_MAX
    }
  }

  const DEFAULT_LIMITS := Limits(64, 16 * 1024 * 1024, 1_000_000, true)

  /** Order of byte slices. */
  predicate Less(a: seq<uint8>, b: seq<uint8>) {
    b != [] && (a == [] || a[0] < b[0] || (a[0] == b[0] && Less(a[1..], b[1..])))
  }

  /** Values within the limits when met at `depth`. */
  predicate Accepts(lim: Limits, v: BValue, depth: nat)
    decreases v, 1
  {
    && depth <= lim.maxDepth
    && match v
       case Int(_) => true
       case Bytes(b) => |b| <= lim.maxString
       case List(items) => AcceptsItems(lim, items, depth + 1)
       case Dict(pairs) => AcceptsPairs(lim, pairs, depth + 1) && (lim.strictKeys ==> Sorted(pairs))
  }

  predicate AcceptsItems(lim: Limits, items: seq<BValue>, depth: nat)
    decreases items, 0
  {
    items == [] || (Accepts(lim, items[0], depth) && AcceptsItems(lim, items[1..], depth))
  }

  predicate AcceptsPairs(lim: Limits, pairs: seq<Pair>, depth: nat)
    decreases pairs, 0
  {
    || pairs == []
    || (&& |pairs[0].key| <= lim.maxString && Accepts(lim, pairs[0].value, depth)
        && AcceptsPairs(lim, pairs[1..], depth))
  }

  /** Strictly increasing keys. */
  predicate Sorted(pairs: seq<Pair>) {
    |pairs| <= 1 || (Less(pairs[0].key, pairs[1].key) && Sorted(pairs[1..]))
  }

  function Nodes(v: BValue): nat
    decreases v, 1
  {
    match v
    case Int(_) => 1
    case Bytes(_) => 1
    case List(items) => 1 + NodesItems(items)
    case Dict(pairs) => 1 + NodesPairs(pairs)
  }

  function NodesItems(items: seq<BValue>): nat
    decreases items, 0
  {
    if items == [] then 0 else Nodes(items[0]) + NodesItems(items[1..])
  }

  function NodesPairs(pairs: seq<Pair>): nat
    decreases pairs, 0
  {
    if pairs == [] then 0 else Nodes(pairs[0].value) + NodesPairs(pairs[1..])
  }

  // ----- integer and length tokens -----

  /** `str::parse::<i64>`. */
  function ParseI64(s: seq<uint8>): Option<int64> {
    var signed := s != [] && (s[0] == MINUS || s[0] == 0x2B);
    var digits := if signed then s[1..] else s;
    if digits == [] || !AllDigits(digits) then None
    else
      var m: int := DecimalValue(digits);
      var n := if signed && s[0] == MINUS then -m else m;
      if I64_MIN <= n <= I64_MAX then Some(n) else None
  }

  function IntegerToken(s: seq<uint8>): Option<int64> {
    if s == [MINUS, ZERO] then None
    else if s != [] && s[0] == 0x2B then None
    else if |s| > 1 && s[0] == ZERO then None
    else if |s| > 2 && s[0] == MINUS && s[1] == ZERO then None
    else ParseI64(s)
  }

  /** Exactly the printed form of a 64-bit integer is accepted. */
  lemma IntegerTokenExact(s: seq<uint8>, n: int64)
    ensures IntegerToken(s) == Some(n) <==> s == DecimalInt(n)
  {
    PrintedAccepted(n);
    if IntegerToken(s) == Some(n) {
      AcceptedPrinted(s, n);
    }
  }

  lemma PrintedAccepted(n: int64)
    ensures IntegerToken(DecimalInt(n)) == Some(n)
  {
    var s, m := DecimalInt(n), Abs(n);
    DecimalRoundTrip(m);
    DigitsAvoid(m, MINUS);
    if n < 0 {
      assert s[0] == MINUS && s[1..] == Decimal(m);
    }
  }

  lemma AcceptedPrinted(s: seq<uint8>, n: int64)
    requires IntegerToken(s) == Some(n)
    ensures s == DecimalInt(n)
  {
    if s[0] == MINUS {
      var digits, m: int := s[1..], n;
      DecimalCanonical(digits);
      assert s == [MINUS] + digits;
      assert DecimalValue(digits) == -m && digits[0] != ZERO;
    } else {
      DecimalCanonical(s);
      assert DecimalValue(s) == n;
    }
  }

  function Abs(n: int): nat {
    if n < 0 then -n else n
  }

  function Pow10(k: nat): nat {
    if k == 0 then 1 else 10 * Pow10(k - 1)
  }

  lemma {:induction false} DecimalLength(n: nat, k: nat)
    requires k > 0 && n < Pow10(k)
    ensures |Decimal(n)| <= k
  {
    if n >= 10 {
      DecimalLength(n / 10, k - 1);
    }
  }

  lemma TokenLengths(n: int64, len: nat)
    requires len <= USIZE_MAX
    ensures |DecimalInt(n)| <= MAX_INTEGER_TOKEN_BYTES
    ensures |Decimal(len)| <= MAX_LENGTH_PREFIX_DIGITS
  {
    assert Pow10(2) == 100 && Pow10(4) == 100 * Pow10(2) && Pow10(6) == 100 * Pow10(4) && Pow10(8) == 100 * Pow10(6);
    assert Pow10(10) == 100 * Pow10(8) && Pow10(12) == 100 * Pow10(10) && Pow10(14) == 100 * Pow10(12);
    assert Pow10(16) == 100 * Pow10(14) && Pow10(18) == 100 * Pow10(16) && Pow10(20) == 100 * Pow10(18);
    assert Pow10(19) == 10 * Pow10(18);
    DecimalLength(Abs(n), 19);
    DecimalLength(len, 20);
  }

  // ----- the decoder -----

  /** The mutable part of the decoder: cursor and node count. */
  datatype Cursor = Cursor(pos: nat, nodes: nat)

  datatype Decoder = Decoder(input: seq<uint8>, lim: Limits) {

    ghost predicate Valid(pos: nat) {
      pos <= |input| <= USIZE_MAX && lim.Valid()
    }

    /** Reads up to the end tag; `w` is any short token that the tag closes. */
    method ScanInteger(start: nat, ghost w: Option<seq<uint8>>) returns (digits: Option<seq<uint8>>, pos: nat)
      requires Valid(start)
      requires w.Some? ==> Closed(input, start, w.value, TAG_END) && |w.value| <= MAX_INTEGER_TOKEN_BYTES
      ensures start <= pos <= |input|
      ensures digits.Some? ==> Read(input, start, pos, digits.value + [TAG_END])
      ensures w.Some? ==> digits == w
    {
      pos := start;
      if pos >= |input| {
        return None, pos;
      }
      while input[pos] != TAG_END
        invariant start <= pos < |input|
        invariant w.Some? ==> pos <= start + |w.value|
        decreases |input| - pos
      {
        if pos - start >= MAX_INTEGER_TOKEN_BYTES {
          return None, pos;
        }
        pos := pos + 1;
        if pos >= |input| {
          return None, pos;
        }
      }
      return Some(input[start..pos]), pos + 1;
    }

    method DecodeInt(start: nat, ghost w: Option<int64>) returns (r: Option<int64>, pos: nat)
      requires Valid(start) && start < |input| && input[start] == TAG_INT
      requires w.Some? ==> At(input, start + 1, DecimalInt(w.value) + [TAG_END])
      ensures start <= pos <= |input|
      ensures r.Some? ==> Read(input, start, pos, Encode(Int(r.value)))
      ensures w.Some? ==> r == w
    {
      if w.Some? {
        IntegerAt(input, start + 1, w.value);
        TokenLengths(w.value, 0);
        AtSplit(input, start + 1, DecimalInt(w.value), [TAG_END]);
      }
      var digits;
      digits, pos := ScanInteger(start + 1, if w.Some? then Some(DecimalInt(w.value)) else None);
      if digits.None? {
        return None, pos;
      }
      r := IntegerToken(digits.value);
      if w.Some? {
        IntegerTokenExact(digits.value, w.value);
      }
      if r.Some? {
        IntegerTokenExact(digits.value, r.value);
        IntRead(input, start, pos, r.value);
      }
    }

    method ScanLength(start: nat, ghost w: Option<seq<uint8>>) returns (digits: Option<seq<uint8>>, pos: nat)
      requires Valid(start)
      requires w.Some? ==> Closed(input, start, w.value, COLON) && AllDigits(w.value)
      requires w.Some? ==> |w.value| <= MAX_LENGTH_PREFIX_DIGITS
      ensures start <= pos <= |input|
      ensures digits.Some? ==> AllDigits(digits.value) && Read(input, start, pos, digits.value + [COLON])
      ensures w.Some? ==> digits == w
    {
      pos := start;
      if pos >= |input| {
        return None, pos;
      }
      while input[pos] != COLON
        invariant start <= pos < |input|
        invariant forall i :: start <= i < pos ==> IsDigit(input[i])
        invariant w.Some? ==> pos <= start + |w.value|
        decreases |input| - pos
      {
        assert w.Some? ==> input[pos] == w.value[pos - start];
        if pos - start >= MAX_LENGTH_PREFIX_DIGITS || !IsDigit(input[pos]) {
          return None, pos;
        }
        pos := pos + 1;
        if pos >= |input| {
          return None, pos;
        }
      }
      return Some(input[start..pos]), pos + 1;
    }

    method DecodeLength(start: nat, ghost w: Option<nat>) returns (r: Option<nat>, pos: nat)
      requires Valid(start)
      requires w.Some? ==> w.value <= USIZE_MAX && At(input, start, Decimal(w.value) + [COLON])
      ensures start <= pos <= |input|
      ensures r.Some? ==> Read(input, start, pos, Decimal(r.value) + [COLON])
      ensures w.Some? ==> r == w
    {
      if w.Some? {
        LengthAt(input, start, w.value);
        TokenLengths(0, w.value);
      }
      var digits;
      digits, pos := ScanLength(start, if w.Some? then Some(Decimal(w.value)) else None);
      if digits.None? {
        return None, pos;
      }
      var s := digits.value;
      if (|s| > 1 && s[0] == ZERO) || s == [] || DecimalValue(s) > USIZE_MAX {
        return None, pos;
      }
      DecimalCanonical(s);
      r := Some(DecimalValue(s));
    }

    method DecodeBytes(start: nat, ghost w: Option<seq<uint8>>) returns (r: Option<seq<uint8>>, pos: nat)
      requires Valid(start)
      requires w.Some? ==> At(input, start, EncodeString(w.value))
      ensures start <= pos <= |input|
      ensures r.Some? ==> Read(input, start, pos, EncodeString(r.value)) && |r.value| <= lim.maxString
      ensures w.Some? ==> r == if |w.value| <= lim.maxString then w else None
    {
      if w.Some? {
        AtSplit(input, start, Decimal(|w.value|) + [COLON], w.value);
      }
      var len;
      len, pos := DecodeLength(start, if w.Some? then Some(|w.value|) else None);
      if len.None? || len.value > lim.maxString || pos + len.value > |input| {
        return None, pos;
      }
      var b := input[pos..pos + len.value];
      AtJoin(input, start, Decimal(|b|) + [COLON], b);
      return Some(b), pos + len.value;
    }

    /** Sound: a success has read exactly the encoding of the returned value, which is within the
        limits. Complete: whenever the encoding of a value within the limits starts at the cursor
        and the node budget allows it, that value is returned. */
    method DecodeValue(c: Cursor, depth: nat, ghost w: Option<BValue>) returns (r: Option<BValue>, c': Cursor)
      requires Valid(c.pos)
      requires w.Some? ==> At(input, c.pos, Encode(w.value))
      ensures c.pos <= c'.pos <= |input|
      ensures r.Some? ==> Read(input, c.pos, c'.pos, Encode(r.value))
      ensures r.Some? ==> c'.nodes == c.nodes + Nodes(r.value) <= lim.maxNodes && Accepts(lim, r.value, depth)
      ensures w.Some? && Accepts(lim, w.value, depth) && c.nodes + Nodes(w.value) <= lim.maxNodes ==> r == w
      decreases |input| - c.pos, 1
    {
      if w.Some? {
        FirstByte(w.value);
        TagAt(input, c.pos, w.value);
      }
      if depth > lim.maxDepth {
        return None, c;
      }
      var pos, nodes := c.pos, c.nodes + 1;
      if nodes > lim.maxNodes || pos >= |input| {
        return None, Cursor(pos, nodes);
      }
      if input[pos] == TAG_INT {
        var n;
        n, pos := DecodeInt(pos, if w.Some? then Some(w.value.n) else None);
        r, c' := if n.Some? then Some(Int(n.value)) else None, Cursor(pos, nodes);
      } else if input[pos] == TAG_LIST {
        r, c' := DecodeList(Cursor(pos, nodes), depth, if w.Some? then Some(w.value.items) else None);
      } else if input[pos] == TAG_DICT {
        r, c' := DecodeDict(Cursor(pos, nodes), depth, if w.Some? then Some(w.value.pairs) else None);
      } else if IsDigit(input[pos]) {
        var b;
        b, pos := DecodeBytes(pos, if w.Some? then Some(w.value.b) else None);
        r, c' := if b.Some? then Some(Bytes(b.value)) else None, Cursor(pos, nodes);
      } else {
        r, c' := None, Cursor(pos, nodes);
      }
    }

    /** A list whose own node has been counted. */
    method DecodeList(c: Cursor, depth: nat, ghost w: Option<seq<BValue>>) returns (r: Option<BValue>, c': Cursor)
      requires Valid(c.pos) && depth <= lim.maxDepth && c.nodes <= lim.maxNodes
      requires c.pos < |input| && input[c.pos] == TAG_LIST
      requires w.Some? ==> At(input, c.pos + 1, EncodeItems(w.value) + [TAG_END])
      ensures c.pos <= c'.pos <= |input|
      ensures r.Some? ==>
                && r.value.List? && Read(input, c.pos, c'.pos, Encode(r.value))
                && c'.nodes == c.nodes + NodesItems(r.value.items) <= lim.maxNodes
                && AcceptsItems(lim, r.value.items, depth + 1)
      ensures w.Some? && ItemsFit(w.value, depth, c.nodes) ==> r == Some(List(w.value))
      decreases |input| - c.pos, 0
    {
      var items;
      items, c' := DecodeItems(c.(pos := c.pos + 1), depth, w);
      if items.None? {
        return None, c';
      }
      ListRead(input, c.pos, c'.pos, items.value);
      r := Some(List(items.value));
    }

    /** A dictionary whose own node has been counted. */
    method DecodeDict(c: Cursor, depth: nat, ghost w: Option<seq<Pair>>) returns (r: Option<BValue>, c': Cursor)
      requires Valid(c.pos) && depth <= lim.maxDepth && c.nodes <= lim.maxNodes
      requires c.pos < |input| && input[c.pos] == TAG_DICT
      requires w.Some? ==> At(input, c.pos + 1, EncodePairs(w.value) + [TAG_END])
      ensures c.pos <= c'.pos <= |input|
      ensures r.Some? ==>
                && r.value.Dict? && Read(input, c.pos, c'.pos, Encode(r.value))
                && c'.nodes == c.nodes + NodesPairs(r.value.pairs) <= lim.maxNodes
                && AcceptsPairs(lim, r.value.pairs, depth + 1) && (lim.strictKeys ==> Sorted(r.value.pairs))
      ensures w.Some? && PairsFit(w.value, depth, c.nodes) ==> r == Some(Dict(w.value))
      decreases |input| - c.pos, 0
    {
      var pairs;
      pairs, c' := DecodePairs(c.(pos := c.pos + 1), depth, w);
      if pairs.None? {
        return None, c';
      }
      DictRead(input, c.pos, c'.pos, pairs.value);
      r := Some(Dict(pairs.value));
    }

    /** Acceptable items of a container at `depth`, with `nodes` counted before them. */
    ghost predicate ItemsFit(items: seq<BValue>, depth: nat, nodes: nat) {
      AcceptsItems(lim, items, depth + 1) && nodes + NodesItems(items) <= lim.maxNodes
    }

    ghost predicate PairsFit(pairs: seq<Pair>, depth: nat, nodes: nat) {
      && AcceptsPairs(lim, pairs, depth + 1) && (lim.strictKeys ==> Sorted(pairs))
      && nodes + NodesPairs(pairs) <= lim.maxNodes
    }

    // lists

    /** Items read so far, with more input ahead. */
    ghost predicate ItemsRead(c0: Cursor, c: Cursor, depth: nat, items: seq<BValue>) {
      && Valid(c.pos) && c.pos < |input|
      && Read(input, c0.pos, c.pos, EncodeItems(items))
      && c.nodes == c0.nodes + NodesItems(items) <= lim.maxNodes
      && AcceptsItems(lim, items, depth + 1)
    }

    /** Items that are going to be read, all of them acceptable. */
    ghost predicate ItemsAhead(c: Cursor, depth: nat, rest: seq<BValue>) {
      && ItemsFollow(input, c.pos, rest)
      && AcceptsItems(lim, rest, depth + 1)
      && c.nodes + NodesItems(rest) <= lim.maxNodes
    }

    method DecodeItems(c0: Cursor, depth: nat, ghost w: Option<seq<BValue>>) returns (r: Option<seq<BValue>>, c: Cursor)
      requires Valid(c0.pos) && depth <= lim.maxDepth && c0.nodes <= lim.maxNodes
      requires w.Some? ==> At(input, c0.pos, EncodeItems(w.value) + [TAG_END])
      ensures c0.pos <= c.pos <= |input|
      ensures r.Some? ==> Read(input, c0.pos, c.pos, EncodeItems(r.value) + [TAG_END])
      ensures r.Some? ==> c.nodes == c0.nodes + NodesItems(r.value) <= lim.maxNodes
      ensures r.Some? ==> AcceptsItems(lim, r.value, depth + 1)
      ensures w.Some? && ItemsFit(w.value, depth, c0.nodes) ==> r == w
      decreases |input| - c0.pos, 3
    {
      c := c0;
      ghost var fits := w.Some? && ItemsFit(w.value, depth, c.nodes);
      ghost var rest := if fits then w.value else [];
      if fits {
        ItemsAt(input, c.pos, rest);
      }
      var items := [];
      if c.pos >= |input| {
        return None, c;
      }
      while input[c.pos] != TAG_END
        invariant c0.pos <= c.pos && ItemsRead(c0, c, depth, items)
        invariant fits ==> ItemsAhead(c, depth, rest)
        decreases |input| - c.pos
      {
        var item;
        item, c := DecodeItem(c0, c, depth, items, if fits then Some(rest) else None);
        if item.None? {
          return None, c;
        }
        items := items + [item.value];
        rest := if fits then rest[1..] else [];
      }
      ItemsEnd(input, c0.pos, c.pos, items, w);
      return Some(items), c.(pos := c.pos + 1);
    }

    method DecodeItem(ghost c0: Cursor, c: Cursor, depth: nat, ghost items: seq<BValue>,
                      ghost rest: Option<seq<BValue>>)
      returns (item: Option<BValue>, c': Cursor)
      requires ItemsRead(c0, c, depth, items) && input[c.pos] != TAG_END
      requires rest.Some? ==> ItemsAhead(c, depth, rest.value)
      ensures c.pos <= c'.pos <= |input|
      ensures item.Some? ==> c.pos < c'.pos && ItemsRead(c0, c', depth, items + [item.value])
      ensures rest.Some? ==> rest.value != [] && item == Some(rest.value[0]) && ItemsAhead(c', depth, rest.value[1..])
      decreases |input| - c.pos, 2
    {
      item, c' := DecodeValue(c, depth + 1, if rest.Some? then Some(rest.value[0]) else None);
      if rest.Some? {
        ItemsAt(input, c'.pos, rest.value[1..]);
      }
      if item.None? || c'.pos >= |input| {
        return None, c';
      }
      FirstByte(item.value);
      ItemsAppend(lim, depth + 1, items, item.value);
      AtJoin(input, c0.pos, EncodeItems(items), Encode(item.value));
    }

    // dictionaries

    ghost predicate PairsRead(c0: Cursor, c: Cursor, depth: nat, pairs: seq<Pair>) {
      && Valid(c.pos) && c.pos < |input|
      && Read(input, c0.pos, c.pos, EncodePairs(pairs))
      && c.nodes == c0.nodes + NodesPairs(pairs) <= lim.maxNodes
      && AcceptsPairs(lim, pairs, depth + 1) && (lim.strictKeys ==> Sorted(pairs))
    }

    ghost predicate PairsAhead(c: Cursor, depth: nat, pairs: seq<Pair>, rest: seq<Pair>) {
      && PairsFollow(input, c.pos, rest)
      && AcceptsPairs(lim, rest, depth + 1) && (lim.strictKeys ==> Sorted(rest))
      && (lim.strictKeys && pairs != [] && rest != [] ==> Less(pairs[|pairs| - 1].key, rest[0].key))
      && c.nodes + NodesPairs(rest) <= lim.maxNodes
    }

    method DecodePairs(c0: Cursor, depth: nat, ghost w: Option<seq<Pair>>) returns (r: Option<seq<Pair>>, c: Cursor)
      requires Valid(c0.pos) && depth <= lim.maxDepth && c0.nodes <= lim.maxNodes
      requires w.Some? ==> At(input, c0.pos, EncodePairs(w.value) + [TAG_END])
      ensures c0.pos <= c.pos <= |input|
      ensures r.Some? ==> Read(input, c0.pos, c.pos, EncodePairs(r.value) + [TAG_END])
      ensures r.Some? ==> c.nodes == c0.nodes + NodesPairs(r.value) <= lim.maxNodes
      ensures r.Some? ==> AcceptsPairs(lim, r.value, depth + 1) && (lim.strictKeys ==> Sorted(r.value))
      ensures w.Some? && PairsFit(w.value, depth, c0.nodes) ==> r == w
      decreases |input| - c0.pos, 3
    {
      c := c0;
      ghost var fits := w.Some? && PairsFit(w.value, depth, c.nodes);
      ghost var rest := if fits then w.value else [];
      if fits {
        PairsAt(input, c.pos, rest);
      }
      var pairs := [];
      if c.pos >= |input| {
        return None, c;
      }
      while input[c.pos] != TAG_END
        invariant c0.pos <= c.pos && PairsRead(c0, c, depth, pairs)
        invariant fits ==> PairsAhead(c, depth, pairs, rest)
        decreases |input| - c.pos
      {
        var pair;
        pair, c := DecodePair(c0, c, depth, pairs, if fits then Some(rest) else None);
        if pair.None? {
          return None, c;
        }
        pairs := pairs + [pair.value];
        rest := if fits then rest[1..] else [];
      }
      PairsEnd(input, c0.pos, c.pos, pairs, w);
      return Some(pairs), c.(pos := c.pos + 1);
    }

    /** One key and its value. `pairs` is read for its last key only. */
    method DecodePair(ghost c0: Cursor, c: Cursor, depth: nat, pairs: seq<Pair>, ghost rest: Option<seq<Pair>>)
      returns (pair: Option<Pair>, c': Cursor)
      requires PairsRead(c0, c, depth, pairs) && input[c.pos] != TAG_END
      requires rest.Some? ==> PairsAhead(c, depth, pairs, rest.value)
      ensures c.pos <= c'.pos <= |input|
      ensures pair.Some? ==> c.pos < c'.pos && PairsRead(c0, c', depth, pairs + [pair.value])
      ensures rest.Some? ==>
                && rest.value != [] && pair == Some(rest.value[0])
                && PairsAhead(c', depth, pairs + [rest.value[0]], rest.value[1..])
      decreases |input| - c.pos, 2
    {
      if rest.Some? {
        AtSplit(input, c.pos, EncodeString(rest.value[0].key), Encode(rest.value[0].value));
      }
      var key, pos := DecodeBytes(c.pos, if rest.Some? then Some(rest.value[0].key) else None);
      if key.None? || (lim.strictKeys && pairs != [] && !Less(pairs[|pairs| - 1].key, key.value)) {
        return None, c.(pos := pos);
      }
      var value;
      value, c' := DecodeMember(c, pos, depth, key.value, pairs, rest);
      if value.None? || c'.pos >= |input| {
        return None, c';
      }
      pair := Some(Pair(key.value, value.value));
      PairRead(c0, c, c', depth, pairs, pair.value);
    }

    /** The value of a pair whose key has been read from c. */
    method DecodeMember(c: Cursor, pos: nat, depth: nat, ghost key: seq<uint8>, ghost pairs: seq<Pair>,
                        ghost rest: Option<seq<Pair>>) returns (value: Option<BValue>, c': Cursor)
      requires Valid(pos) && c.pos < pos && Read(input, c.pos, pos, EncodeString(key))
      requires rest.Some? ==> PairsAhead(c, depth, pairs, rest.value) && rest.value != [] && key == rest.value[0].key
      ensures pos <= c'.pos <= |input|
      ensures value.Some? ==>
                && Read(input, c.pos, c'.pos, EncodeString(key) + Encode(value.value))
                && c'.nodes == c.nodes + Nodes(value.value) <= lim.maxNodes && Accepts(lim, value.value, depth + 1)
      ensures rest.Some? ==>
                && value == Some(rest.value[0].value) && c'.pos < |input|
                && PairsAhead(c', depth, pairs + [rest.value[0]], rest.value[1..])
      decreases |input| - pos, 2
    {
      if rest.Some? {
        AtSplit(input, c.pos, EncodeString(key), Encode(rest.value[0].value));
      }
      value, c' := DecodeValue(c.(pos := pos), depth + 1, if rest.Some? then Some(rest.value[0].value) else None);
      if value.Some? {
        AtJoin(input, c.pos, EncodeString(key), Encode(value.value));
      }
      if rest.Some? {
        PairsAheadStep(c, c', depth, pairs, rest.value);
      }
    }

    lemma PairsAheadStep(c: Cursor, c': Cursor, depth: nat, pairs: seq<Pair>, rest: seq<Pair>)
      requires PairsAhead(c, depth, pairs, rest) && rest != []
      requires Read(input, c.pos, c'.pos, EncodeString(rest[0].key) + Encode(rest[0].value))
      requires c'.nodes == c.nodes + Nodes(rest[0].value)
      ensures PairsAhead(c', depth, pairs + [rest[0]], rest[1..])
    {
      PairsAt(input, c'.pos, rest[1..]);
    }

    lemma PairRead(c0: Cursor, c: Cursor, c': Cursor, depth: nat, pairs: seq<Pair>, pair: Pair)
      requires PairsRead(c0, c, depth, pairs) && c'.pos < |input|
      requires Read(input, c.pos, c'.pos, EncodeString(pair.key) + Encode(pair.value))
      requires c'.nodes == c.nodes + Nodes(pair.value) <= lim.maxNodes
      requires |pair.key| <= lim.maxString && Accepts(lim, pair.value, depth + 1)
      requires lim.strictKeys && pairs != [] ==> Less(pairs[|pairs| - 1].key, pair.key)
      ensures PairsRead(c0, c', depth, pairs + [pair])
    {
      PairsAppend(lim, depth + 1, pairs, pair);
      if lim.strictKeys {
        SortedAppend(pairs, pair);
      }
      AtJoin(input, c0.pos, EncodePairs(pairs), EncodeString(pair.key) + Encode(pair.value));
    }
  }

  /** The cursor moved from `start` to `end` over exactly `s`. */
  ghost predicate Read(raw: seq<uint8>, start: nat, end: nat, s: seq<uint8>) {
    At(raw, start, s) && end == start + |s|
  }

  /** The end tag closes what was read, and any other reading of the same bytes is the same. */
  lemma ItemsEnd(raw: seq<uint8>, start: nat, end: nat, xs: seq<BValue>, w: Option<seq<BValue>>)
    requires Read(raw, start, end, EncodeItems(xs)) && end < |raw| && raw[end] == TAG_END
    requires w.Some? ==> At(raw, start, EncodeItems(w.value) + [TAG_END])
    ensures Read(raw, start, end + 1, EncodeItems(xs) + [TAG_END])
    ensures w.Some? ==> xs == w.value
  {
    AtJoin(raw, start, EncodeItems(xs), [TAG_END]);
    if w.Some? {
      var a, b := EncodeItems(xs) + [TAG_END], EncodeItems(w.value) + [TAG_END];
      assert raw[start..] == a + raw[start + |a|..] && raw[start..] == b + raw[start + |b|..];
      UniqueItems(xs, w.value, raw[start + |a|..], raw[start + |b|..]);
    }
  }

  /** The end tag closes what was read, and any other reading of the same bytes is the same. */
  lemma PairsEnd(raw: seq<uint8>, start: nat, end: nat, xs: seq<Pair>, w: Option<seq<Pair>>)
    requires Read(raw, start, end, EncodePairs(xs)) && end < |raw| && raw[end] == TAG_END
    requires w.Some? ==> At(raw, start, EncodePairs(w.value) + [TAG_END])
    ensures Read(raw, start, end + 1, EncodePairs(xs) + [TAG_END])
    ensures w.Some? ==> xs == w.value
  {
    AtJoin(raw, start, EncodePairs(xs), [TAG_END]);
    if w.Some? {
      var a, b := EncodePairs(xs) + [TAG_END], EncodePairs(w.value) + [TAG_END];
      assert raw[start..] == a + raw[start + |a|..] && raw[start..] == b + raw[start + |b|..];
      UniquePairs(xs, w.value, raw[start + |a|..], raw[start + |b|..]);
    }
  }

  lemma IntRead(raw: seq<uint8>, start: nat, end: nat, n: int64)
    requires start < |raw| && raw[start] == TAG_INT && Read(raw, start + 1, end, DecimalInt(n) + [TAG_END])
    ensures Read(raw, start, end, Encode(Int(n)))
  {
    TaggedRead(raw, start, TAG_INT, DecimalInt(n));
  }

  /** A tag in front of what was read. */
  lemma TaggedRead(raw: seq<uint8>, start: nat, tag: uint8, body: seq<uint8>)
    requires start < |raw| && raw[start] == tag && At(raw, start + 1, body + [TAG_END])
    ensures At(raw, start, [tag] + body + [TAG_END])
  {
    AtJoin(raw, start, [tag], body + [TAG_END]);
    Regroup([tag], body, [TAG_END]);
  }

  lemma ListRead(raw: seq<uint8>, start: nat, end: nat, items: seq<BValue>)
    requires start < |raw| && raw[start] == TAG_LIST
    requires Read(raw, start + 1, end, EncodeItems(items) + [TAG_END])
    ensures Read(raw, start, end, Encode(List(items)))
  {
    TaggedRead(raw, start, TAG_LIST, EncodeItems(items));
  }

  lemma DictRead(raw: seq<uint8>, start: nat, end: nat, pairs: seq<Pair>)
    requires start < |raw| && raw[start] == TAG_DICT
    requires Read(raw, start + 1, end, EncodePairs(pairs) + [TAG_END])
    ensures Read(raw, start, end, Encode(Dict(pairs)))
  {
    TaggedRead(raw, start, TAG_DICT, EncodePairs(pairs));
  }

  lemma {:induction false} ItemsAppend(lim: Limits, depth: nat, items: seq<BValue>, item: BValue)
    ensures EncodeItems(items + [item]) == EncodeItems(items) + Encode(item)
    ensures NodesItems(items + [item]) == NodesItems(items) + Nodes(item)
    ensures AcceptsItems(lim, items + [item], depth) <==> AcceptsItems(lim, items, depth) && Accepts(lim, item, depth)
  {
    if items == [] {
      assert [item][1..] == [];
    } else {
      assert (items + [item])[1..] == items[1..] + [item];
      ItemsAppend(lim, depth, items[1..], item);
    }
  }

  lemma {:induction false} PairsAppend(lim: Limits, depth: nat, pairs: seq<Pair>, pair: Pair)
    ensures EncodePairs(pairs + [pair]) == EncodePairs(pairs) + (EncodeString(pair.key) + Encode(pair.value))
    ensures NodesPairs(pairs + [pair]) == NodesPairs(pairs) + Nodes(pair.value)
    ensures AcceptsPairs(lim, pairs, depth) && |pair.key| <= lim.maxString && Accepts(lim, pair.value, depth)
            ==> AcceptsPairs(lim, pairs + [pair], depth)
  {
    if pairs == [] {
      assert [pair][1..] == [];
    } else {
      assert (pairs + [pair])[1..] == pairs[1..] + [pair];
      PairsAppend(lim, depth, pairs[1..], pair);
    }
  }

  lemma {:induction false} SortedAppend(pairs: seq<Pair>, pair: Pair)
    requires Sorted(pairs) && (pairs != [] ==> Less(pairs[|pairs| - 1].key, pair.key))
    ensures Sorted(pairs + [pair])
  {
    if pairs == [] {
    } else {
      assert (pairs + [pair])[1..] == pairs[1..] + [pair];
      SortedAppend(pairs[1..], pair);
    }
  }

  /** The token `s` at `pos` is closed by the first `sep`. */
  ghost predicate Closed(raw: seq<uint8>, pos: nat, s: seq<uint8>, sep: uint8) {
    var stop := pos + |s|;
    && stop < |raw| && raw[stop] == sep && raw[pos..stop] == s
    && forall i :: pos <= i < stop ==> raw[i] != sep
  }

  lemma LengthAt(raw: seq<uint8>, pos: nat, n: nat)
    requires At(raw, pos, Decimal(n) + [COLON])
    ensures Closed(raw, pos, Decimal(n), COLON)
    ensures Canonical(Decimal(n)) && DecimalValue(Decimal(n)) == n
  {
    DecimalRoundTrip(n);
    AtSplit(raw, pos, Decimal(n), [COLON]);
    var stop := pos + |Decimal(n)|;
    forall i | pos <= i < stop
      ensures raw[i] != COLON
    {
      assert raw[i] == raw[pos..stop][i - pos];
    }
    assert raw[stop] == raw[stop..stop + 1][0];
  }

  lemma AtJoin(raw: seq<uint8>, pos: nat, a: seq<uint8>, b: seq<uint8>)
    requires At(raw, pos, a) && At(raw, pos + |a|, b)
    ensures At(raw, pos, a + b)
  {
    assert raw[pos..pos + |a + b|] == raw[pos..pos + |a|] + raw[pos + |a|..pos + |a| + |b|];
  }

  /** Decoding succeeds on exactly the encodings of values within the limits, and inverts them. */
  method Decode(input: seq<uint8>, lim: Limits) returns (r: Option<BValue>)
    requires lim.Valid() && |input| <= USIZE_MAX
    ensures r.Some? ==> Decodes(lim, input, r.value)
    ensures r.None? ==> forall v :: !Decodes(lim, input, v)
  {
    assert input[0..|input|] == input;
    ghost var w := None;
    if v :| Decodes(lim, input, v) {
      w := Some(v);
    }
    var c;
    r, c := Decoder(input, lim).DecodeValue(Cursor(0, 0), 0, w);
    if r.Some? && c.pos != |input| {
      r := None;
    }
  }

  ghost predicate Decodes(lim: Limits, input: seq<uint8>, v: BValue) {
    input == Encode(v) && Accepts(lim, v, 0) && Nodes(v) <= lim.maxNodes
  }
}
