/** The bencode printer of `crates/rt-bencode/src/encode.rs`. */
module Bencode {
  import opened Bytes
  import opened Collections

  type int64 = n: int | I64_MIN <= n <= I64_MAX

  datatype BValue =
    | Bytes(b: seq<uint8>)
    | Int(n: int64)
    | List(items: seq<BValue>)
    | Dict(pairs: seq<Pair>)

  datatype Pair = Pair(key: seq<uint8>, value: BValue)

  const TAG_INT: uint8 := 0x69
  const TAG_LIST: uint8 := 0x6C
  const TAG_DICT: uint8 := 0x64
  const TAG_END: uint8 := 0x65
  const COLON: uint8 := 0x3A
  const MINUS: uint8 := 0x2D

  function DecimalInt(n: int): seq<uint8> {
    if n < 0 then [MINUS] + Decimal(-n) else Decimal(n)
  }

  function EncodeString(b: seq<uint8>): seq<uint8> {
    Decimal(|b|) + [COLON] + b
  }

  /** The bytes the printer appends for a value. */
  function Encode(v: BValue): seq<uint8>
    decreases v, 1
  {
    match v
    case Int(n) => [TAG_INT] + DecimalInt(n) + [TAG_END]
    case Bytes(b) => EncodeString(b)
    case List(items) => [TAG_LIST] + EncodeItems(items) + [TAG_END]
    case Dict(pairs) => [TAG_DICT] + EncodePairs(pairs) + [TAG_END]
  }

  function EncodeItems(items: seq<BValue>): seq<uint8>
    decreases items, 0
  {
    if items == [] then [] else Encode(items[0]) + EncodeItems(items[1..])
  }

  function EncodePairs(pairs: seq<Pair>): seq<uint8>
    decreases pairs, 0
  {
    if pairs == [] then []
    else EncodeString(pairs[0].key) + Encode(pairs[0].value) + EncodePairs(pairs[1..])
  }

  /** The growable output buffer (`&mut Vec<u8>`). */
  class Buffer {
    var bytes: seq<uint8>

    constructor ()
      ensures bytes == []
    {
      bytes := [];
    }

    method Extend(more: seq<uint8>)
      modifies this
      ensures bytes == old(bytes) + more
    {
      bytes := bytes + more;
    }
  }

  lemma ItemsStep(bytes: seq<uint8>, items: seq<BValue>, i: nat)
    requires i < |items|
    ensures bytes + EncodeItems(items[i..]) == bytes + Encode(items[i]) + EncodeItems(items[i + 1..])
  {
    assert items[i..][1..] == items[i + 1..];
    Regroup(bytes, Encode(items[i]), EncodeItems(items[i + 1..]));
  }

  lemma PairsStep(bytes: seq<uint8>, pairs: seq<Pair>, i: nat)
    requires i < |pairs|
    ensures bytes + EncodePairs(pairs[i..]) ==
            bytes + EncodeString(pairs[i].key) + Encode(pairs[i].value) + EncodePairs(pairs[i + 1..])
  {
    assert pairs[i..][1..] == pairs[i + 1..];
    var key, value := EncodeString(pairs[i].key), Encode(pairs[i].value);
    Regroup(bytes, key + value, EncodePairs(pairs[i + 1..]));
    Regroup(bytes, key, value);
  }

  method EncodeInto(v: BValue, buf: Buffer)
    modifies buf
    ensures buf.bytes == old(buf.bytes) + Encode(v)
    decreases v, 1
  {
    ghost var before := buf.bytes;
    match v
    case Int(n) =>
      buf.Extend([TAG_INT]);
      buf.Extend(DecimalInt(n));
      buf.Extend([TAG_END]);
      Framed(before, TAG_INT, DecimalInt(n));
    case Bytes(b) =>
      EncodeStringInto(b, buf);
    case List(items) =>
      buf.Extend([TAG_LIST]);
      EncodeItemsInto(items, buf);
      buf.Extend([TAG_END]);
      Framed(before, TAG_LIST, EncodeItems(items));
    case Dict(pairs) =>
      buf.Extend([TAG_DICT]);
      EncodePairsInto(pairs, buf);
      buf.Extend([TAG_END]);
      Framed(before, TAG_DICT, EncodePairs(pairs));
  }

  lemma Framed(before: seq<uint8>, tag: uint8, body: seq<uint8>)
    ensures before + [tag] + body + [TAG_END] == before + ([tag] + body + [TAG_END])
  {
  }

  method EncodeItemsInto(items: seq<BValue>, buf: Buffer)
    modifies buf
    ensures buf.bytes == old(buf.bytes) + EncodeItems(items)
    decreases items, 0
  {
    ghost var goal := buf.bytes + EncodeItems(items);
    assert items[0..] == items;
    for i := 0 to |items|
      invariant buf.bytes + EncodeItems(items[i..]) == goal
    {
      ItemsStep(buf.bytes, items, i);
      EncodeInto(items[i], buf);
    }
  }

  method EncodePairsInto(pairs: seq<Pair>, buf: Buffer)
    modifies buf
    ensures buf.bytes == old(buf.bytes) + EncodePairs(pairs)
    decreases pairs, 0
  {
    ghost var goal := buf.bytes + EncodePairs(pairs);
    assert pairs[0..] == pairs;
    for i := 0 to |pairs|
      invariant buf.bytes + EncodePairs(pairs[i..]) == goal
    {
      PairsStep(buf.bytes, pairs, i);
      EncodeStringInto(pairs[i].key, buf);
      EncodeInto(pairs[i].value, buf);
    }
  }

  method EncodeStringInto(b: seq<uint8>, buf: Buffer)
    modifies buf
    ensures buf.bytes == old(buf.bytes) + EncodeString(b)
  {
    buf.Extend(Decimal(|b|));
    buf.Extend([COLON]);
    buf.Extend(b);
  }

  // ----- unique decodability -----

  lemma DigitsAvoid(n: nat, b: uint8)
    requires !IsDigit(b)
    ensures b !in Decimal(n)
  {
    DecimalRoundTrip(n);
  }

  /** The first byte of an encoding tells the constructor and is never the end tag. */
  lemma FirstByte(v: BValue)
    ensures Encode(v) != [] && Encode(v)[0] != TAG_END
    ensures v.Int? <==> Encode(v)[0] == TAG_INT
    ensures v.List? <==> Encode(v)[0] == TAG_LIST
    ensures v.Dict? <==> Encode(v)[0] == TAG_DICT
    ensures v.Bytes? <==> IsDigit(Encode(v)[0])
  {
    if v.Bytes? {
      DecimalRoundTrip(|v.b|);
    }
  }

  lemma StringUnique(a: seq<uint8>, b: seq<uint8>, s: seq<uint8>, t: seq<uint8>)
    requires EncodeString(a) + s == EncodeString(b) + t
    ensures a == b && s == t
  {
    DigitsAvoid(|a|, COLON);
    DigitsAvoid(|b|, COLON);
    assert EncodeString(a) + s == Decimal(|a|) + [COLON] + (a + s);
    assert EncodeString(b) + t == Decimal(|b|) + [COLON] + (b + t);
    SplitAtSeparator(Decimal(|a|), Decimal(|b|), COLON, a + s, b + t);
    DecimalInjective(|a|, |b|);
    assert a == (a + s)[..|a|] && b == (b + t)[..|b|];
    assert s == (a + s)[|a|..] && t == (b + t)[|b|..];
  }

  lemma IntUnique(m: int, n: int, s: seq<uint8>, t: seq<uint8>)
    requires DecimalInt(m) + [TAG_END] + s == DecimalInt(n) + [TAG_END] + t
    ensures m == n && s == t
  {
    DigitsAvoid(if m < 0 then -m else m, TAG_END);
    DigitsAvoid(if n < 0 then -n else n, TAG_END);
    DigitsAvoid(if m < 0 then -m else m, MINUS);
    DigitsAvoid(if n < 0 then -n else n, MINUS);
    SplitAtSeparator(DecimalInt(m), DecimalInt(n), TAG_END, s, t);
    DecimalRoundTrip(if m < 0 then -m else m);
    DecimalRoundTrip(if n < 0 then -n else n);
    var x, y := DecimalInt(m), DecimalInt(n);
    assert m < 0 ==> x[0] == MINUS && x[1..] == Decimal(-m);
    assert n < 0 ==> y[0] == MINUS && y[1..] == Decimal(-n);
  }

  /** Equal encodings followed by anything decode to equal values: the code is prefix-free and injective. */
  lemma {:induction false} UniqueDecoding(v: BValue, w: BValue, s: seq<uint8>, t: seq<uint8>)
    requires Encode(v) + s == Encode(w) + t
    ensures v == w && s == t
    decreases v, 1
  {
    var l, r := Encode(v) + s, Encode(w) + t;
    FirstByte(v);
    FirstByte(w);
    assert l[0] == Encode(v)[0] && r[0] == Encode(w)[0];
    match v
    case Bytes(b) =>
      StringUnique(b, w.b, s, t);
    case Int(n) =>
      DropTag(TAG_INT, DecimalInt(n), DecimalInt(w.n), s, t);
      IntUnique(n, w.n, s, t);
    case List(items) =>
      DropTag(TAG_LIST, EncodeItems(items), EncodeItems(w.items), s, t);
      UniqueItems(items, w.items, s, t);
    case Dict(pairs) =>
      DropTag(TAG_DICT, EncodePairs(pairs), EncodePairs(w.pairs), s, t);
      UniquePairs(pairs, w.pairs, s, t);
  }

  lemma DropTag(tag: uint8, a: seq<uint8>, b: seq<uint8>, s: seq<uint8>, t: seq<uint8>)
    requires [tag] + a + [TAG_END] + s == [tag] + b + [TAG_END] + t
    ensures a + [TAG_END] + s == b + [TAG_END] + t
  {
    assert a + [TAG_END] + s == ([tag] + a + [TAG_END] + s)[1..];
    assert b + [TAG_END] + t == ([tag] + b + [TAG_END] + t)[1..];
  }

  /** The items of a list are told apart from the end tag that follows them. */
  lemma {:induction false} UniqueItems(xs: seq<BValue>, ys: seq<BValue>, s: seq<uint8>, t: seq<uint8>)
    requires EncodeItems(xs) + [TAG_END] + s == EncodeItems(ys) + [TAG_END] + t
    ensures xs == ys && s == t
    decreases xs, 0
  {
    ItemsFirst(xs, s);
    ItemsFirst(ys, t);
    if xs != [] {
      var s', t' := EncodeItems(xs[1..]) + [TAG_END] + s, EncodeItems(ys[1..]) + [TAG_END] + t;
      SplitFirst(Encode(xs[0]), EncodeItems(xs[1..]), s);
      SplitFirst(Encode(ys[0]), EncodeItems(ys[1..]), t);
      UniqueDecoding(xs[0], ys[0], s', t');
      UniqueItems(xs[1..], ys[1..], s, t);
      assert xs == [xs[0]] + xs[1..] && ys == [ys[0]] + ys[1..];
    }
  }

  /** The first element split off from a closed sequence of encodings. */
  lemma SplitFirst(first: seq<uint8>, rest: seq<uint8>, s: seq<uint8>)
    ensures first + rest + [TAG_END] + s == first + (rest + [TAG_END] + s)
  {
    Regroup(first, rest, [TAG_END]);
    Regroup(first, rest + [TAG_END], s);
  }

  lemma ItemsFirst(xs: seq<BValue>, s: seq<uint8>)
    ensures xs == [] <==> (EncodeItems(xs) + [TAG_END] + s)[0] == TAG_END
    ensures xs == [] ==> (EncodeItems(xs) + [TAG_END] + s)[1..] == s
  {
    if xs != [] {
      FirstByte(xs[0]);
      assert (EncodeItems(xs) + [TAG_END] + s)[0] == Encode(xs[0])[0];
    }
  }

  lemma {:induction false} UniquePair(x: Pair, y: Pair, s: seq<uint8>, t: seq<uint8>)
    requires EncodeString(x.key) + Encode(x.value) + s == EncodeString(y.key) + Encode(y.value) + t
    ensures x == y && s == t
    decreases x, 2
  {
    var s', t' := Encode(x.value) + s, Encode(y.value) + t;
    Regroup(EncodeString(x.key), Encode(x.value), s);
    Regroup(EncodeString(y.key), Encode(y.value), t);
    StringUnique(x.key, y.key, s', t');
    UniqueDecoding(x.value, y.value, s, t);
  }

  lemma {:induction false} UniquePairs(xs: seq<Pair>, ys: seq<Pair>, s: seq<uint8>, t: seq<uint8>)
    requires EncodePairs(xs) + [TAG_END] + s == EncodePairs(ys) + [TAG_END] + t
    ensures xs == ys && s == t
    decreases xs, 0
  {
    PairsFirst(xs, s);
    PairsFirst(ys, t);
    if xs != [] {
      var s', t' := EncodePairs(xs[1..]) + [TAG_END] + s, EncodePairs(ys[1..]) + [TAG_END] + t;
      SplitFirst(EncodeString(xs[0].key) + Encode(xs[0].value), EncodePairs(xs[1..]), s);
      SplitFirst(EncodeString(ys[0].key) + Encode(ys[0].value), EncodePairs(ys[1..]), t);
      UniquePair(xs[0], ys[0], s', t');
      UniquePairs(xs[1..], ys[1..], s, t);
      assert xs == [xs[0]] + xs[1..] && ys == [ys[0]] + ys[1..];
    }
  }

  lemma PairsFirst(xs: seq<Pair>, s: seq<uint8>)
    ensures xs == [] <==> (EncodePairs(xs) + [TAG_END] + s)[0] == TAG_END
    ensures xs == [] ==> (EncodePairs(xs) + [TAG_END] + s)[1..] == s
  {
    if xs != [] {
      FirstByte(Bytes(xs[0].key));
      assert (EncodePairs(xs) + [TAG_END] + s)[0] == EncodeString(xs[0].key)[0];
    }
  }

  // ----- encodings inside a byte slice -----

  /** The bytes at `pos` start with `s`. */
  ghost predicate At(raw: seq<uint8>, pos: nat, s: seq<uint8>) {
    pos + |s| <= |raw| && raw[pos..pos + |s|] == s
  }

  lemma AtSplit(raw: seq<uint8>, pos: nat, a: seq<uint8>, b: seq<uint8>)
    requires At(raw, pos, a + b)
    ensures At(raw, pos, a) && At(raw, pos + |a|, b)
    ensures a != [] ==> raw[pos] == a[0]
  {
    var s := raw[pos..pos + |a + b|];
    assert s[..|a|] == a && s[|a|..] == b;
    assert raw[pos..pos + |a|] == s[..|a|];
    assert raw[pos + |a|..pos + |a| + |b|] == s[|a|..];
    assert a != [] ==> s[0] == a[0];
  }

  lemma HeadAt(raw: seq<uint8>, pos: nat, e: seq<uint8>)
    requires At(raw, pos, e) && e != []
    ensures pos < |raw| && raw[pos] == e[0]
  {
    assert raw[pos..pos + |e|][0] == raw[pos];
  }

  // ----- nesting -----

  /** Containers around the deepest value. */
  function Nesting(v: BValue): nat
    decreases v, 1
  {
    match v
    case Bytes(_) => 0
    case Int(_) => 0
    case List(items) => NestingItems(items)
    case Dict(pairs) => NestingPairs(pairs)
  }

  function NestingItems(items: seq<BValue>): nat
    decreases items, 0
  {
    if items == [] then 0 else Max(1 + Nesting(items[0]), NestingItems(items[1..]))
  }

  function NestingPairs(pairs: seq<Pair>): nat
    decreases pairs, 0
  {
    if pairs == [] then 0 else Max(1 + Nesting(pairs[0].value), NestingPairs(pairs[1..]))
  }

  function Max(a: nat, b: nat): nat {
    if a < b then b else a
  }

  /** The first byte of the encoding, and the bytes behind it. */
  lemma TagAt(raw: seq<uint8>, pos: nat, v: BValue)
    requires At(raw, pos, Encode(v))
    ensures pos < |raw| && raw[pos] == Encode(v)[0]
    ensures v.Int? ==> At(raw, pos + 1, DecimalInt(v.n) + [TAG_END])
    ensures v.List? ==> At(raw, pos + 1, EncodeItems(v.items) + [TAG_END])
    ensures v.Dict? ==> At(raw, pos + 1, EncodePairs(v.pairs) + [TAG_END])
  {
    FirstByte(v);
    match v
    case Int(n) => BodyAt(raw, pos, TAG_INT, DecimalInt(n));
    case Bytes(_) =>
    case List(items) => BodyAt(raw, pos, TAG_LIST, EncodeItems(items));
    case Dict(pairs) => BodyAt(raw, pos, TAG_DICT, EncodePairs(pairs));
  }

  lemma BodyAt(raw: seq<uint8>, pos: nat, tag: uint8, body: seq<uint8>)
    requires At(raw, pos, [tag] + body + [TAG_END])
    ensures At(raw, pos + 1, body + [TAG_END])
  {
    assert [tag] + body + [TAG_END] == [tag] + (body + [TAG_END]);
    AtSplit(raw, pos, [tag], body + [TAG_END]);
  }

  /** The first end tag behind a printed integer is the one that closes it. */
  lemma IntegerAt(raw: seq<uint8>, pos: nat, n: int)
    requires At(raw, pos, DecimalInt(n) + [TAG_END])
    ensures var stop := pos + |DecimalInt(n)|;
            stop < |raw| && raw[stop] == TAG_END && forall i :: pos <= i < stop ==> raw[i] != TAG_END
  {
    var ds := DecimalInt(n);
    DigitsAvoid(if n < 0 then -n else n, TAG_END);
    AtSplit(raw, pos, ds, [TAG_END]);
    forall i | pos <= i < pos + |ds|
      ensures raw[i] != TAG_END
    {
      assert raw[i] == raw[pos..pos + |ds|][i - pos] == ds[i - pos];
      assert ds[i - pos] in ds;
    }
    assert raw[pos + |ds|] == raw[pos + |ds|..pos + |ds| + 1][0];
  }

  /** What is seen at the cursor while the items `xs` and the end tag are ahead of it. */
  ghost predicate ItemsFollow(raw: seq<uint8>, pos: nat, xs: seq<BValue>) {
    && pos < |raw|
    && (xs == [] <==> raw[pos] == TAG_END)
    && (xs != [] ==> At(raw, pos, Encode(xs[0])))
    && (xs != [] ==> At(raw, pos + |Encode(xs[0])|, EncodeItems(xs[1..]) + [TAG_END]))
  }

  lemma FrontAt(raw: seq<uint8>, pos: nat, e: seq<uint8>, more: seq<uint8>)
    requires At(raw, pos, e + more) && e != []
    ensures At(raw, pos, e) && At(raw, pos + |e|, more) && pos < |raw| && raw[pos] == e[0]
  {
    AtSplit(raw, pos, e, more);
  }

  lemma ItemsAt(raw: seq<uint8>, pos: nat, xs: seq<BValue>)
    requires At(raw, pos, EncodeItems(xs) + [TAG_END])
    ensures ItemsFollow(raw, pos, xs)
  {
    if xs == [] {
      assert EncodeItems(xs) + [TAG_END] == [TAG_END] + [];
      AtSplit(raw, pos, [TAG_END], []);
    } else {
      var e, more := Encode(xs[0]), EncodeItems(xs[1..]);
      FirstByte(xs[0]);
      Regroup(e, more, [TAG_END]);
      FrontAt(raw, pos, e, more + [TAG_END]);
    }
  }

  /** What is seen at the cursor while the pairs `xs` and the end tag are ahead of it. */
  ghost predicate PairsFollow(raw: seq<uint8>, pos: nat, xs: seq<Pair>) {
    && pos < |raw|
    && (xs == [] <==> raw[pos] == TAG_END)
    && (xs != [] ==>
          var e := EncodeString(xs[0].key) + Encode(xs[0].value);
          && At(raw, pos, e)
          && At(raw, pos + |e|, EncodePairs(xs[1..]) + [TAG_END]))
  }

  lemma PairsAt(raw: seq<uint8>, pos: nat, xs: seq<Pair>)
    requires At(raw, pos, EncodePairs(xs) + [TAG_END])
    ensures PairsFollow(raw, pos, xs)
  {
    if xs == [] {
      assert EncodePairs(xs) + [TAG_END] == [TAG_END] + [];
      AtSplit(raw, pos, [TAG_END], []);
    } else {
      var key, value, more := EncodeString(xs[0].key), Encode(xs[0].value), EncodePairs(xs[1..]);
      FirstByte(Bytes(xs[0].key));
      Regroup(key + value, more, [TAG_END]);
      FrontAt(raw, pos, key + value, more + [TAG_END]);
    }
  }
}
