/** The cursor scanner of `sidecar/src/torrent_meta.rs`.
    A `&mut usize` cursor is an in-parameter and an out-parameter. Where a method takes a ghost
    value, its contract holds for every choice of it: "whenever the bytes at the cursor start with
    the encoding of this value". */
module TorrentMeta {
  import opened Bytes
  import opened Bencode

  const MAX_BENCODE_DEPTH: nat := 64
  const MAX_TRACKER_URL_BYTES: nat := 8 * 1024
  const MAX_TRACKER_URLS: nat := 1024

  const ANNOUNCE: seq<uint8> := [0x61, 0x6E, 0x6E, 0x6F, 0x75, 0x6E, 0x63, 0x65]
  const ANNOUNCE_LIST: seq<uint8> := ANNOUNCE + [0x2D, 0x6C, 0x69, 0x73, 0x74]

  // ----- strings -----

  function DigitRun(raw: seq<uint8>, pos: nat): (end: nat)
    requires pos <= |raw|
    ensures pos <= end <= |raw|
    ensures AllDigits(raw[pos..end])
    ensures end < |raw| ==> !IsDigit(raw[end])
    decreases |raw| - pos
  {
    if pos < |raw| && IsDigit(raw[pos]) then
      var end := DigitRun(raw, pos + 1);
      assert raw[pos..end] == [raw[pos]] + raw[pos + 1..end];
      end
    else pos
  }

  /** The string read at a cursor and where the cursor is left, also when nothing can be read. */
  function StringAt(raw: seq<uint8>, pos: nat): (r: (Option<seq<uint8>>, nat))
    requires pos <= |raw|
    ensures pos <= r.1 <= |raw|
    ensures r.0.Some? ==> pos < r.1
  {
    var end := DigitRun(raw, pos);
    if end == pos || end == |raw| || raw[end] != COLON then (None, end)
    else
      var len := DecimalValue(raw[pos..end]);
      if len > USIZE_MAX then (None, end)
      else if end + 1 + len > |raw| then (None, end + 1)
      else (Some(raw[end + 1..end + 1 + len]), end + 1 + len)
  }

  method ParseBytes(raw: seq<uint8>, start: nat) returns (r: Option<seq<uint8>>, pos: nat)
    requires start <= |raw|
    ensures (r, pos) == StringAt(raw, start)
  {
    pos := start;
    while pos < |raw| && IsDigit(raw[pos])
      invariant start <= pos <= |raw|
      invariant DigitRun(raw, start) == DigitRun(raw, pos)
    {
      pos := pos + 1;
    }
    if pos == start || pos == |raw| || raw[pos] != COLON {
      return None, pos;
    }
    var len := DecimalValue(raw[start..pos]);
    if len > USIZE_MAX {
      return None, pos;
    }
    pos := pos + 1;
    var end := pos + len;
    if end > |raw| {
      return None, pos;
    }
    return Some(raw[pos..end]), end;
  }

  lemma {:induction false} DigitRunStops(raw: seq<uint8>, pos: nat, ds: seq<uint8>)
    requires At(raw, pos, ds) && AllDigits(ds)
    requires pos + |ds| < |raw| && !IsDigit(raw[pos + |ds|])
    ensures DigitRun(raw, pos) == pos + |ds|
    decreases |ds|
  {
    if ds == [] {
    } else {
      AtSplit(raw, pos, ds[..1], ds[1..]) by { assert ds == ds[..1] + ds[1..]; }
      DigitRunStops(raw, pos + 1, ds[1..]);
    }
  }

  /** A printed string is read back exactly, with the cursor just behind it. */
  lemma StringAtEncoded(raw: seq<uint8>, pos: nat, b: seq<uint8>)
    requires |raw| <= USIZE_MAX
    requires At(raw, pos, EncodeString(b))
    ensures StringAt(raw, pos) == (Some(b), pos + |EncodeString(b)|)
  {
    var ds := Decimal(|b|);
    DecimalRoundTrip(|b|);
    assert EncodeString(b) == ds + ([COLON] + b);
    AtSplit(raw, pos, ds, [COLON] + b);
    AtSplit(raw, pos + |ds|, [COLON], b);
    DigitRunStops(raw, pos, ds);
  }

  lemma StringAtOther(raw: seq<uint8>, pos: nat)
    requires pos < |raw| && !IsDigit(raw[pos])
    ensures StringAt(raw, pos) == (None, pos)
  {
  }

  // ----- skipping -----

  /** On any bytes a success moves the cursor forward, within bounds. On the encoding of a value
      skipping succeeds exactly if no part of it is deeper than the limit, and then stops at its end. */
  method SkipValue(raw: seq<uint8>, start: nat, depth: nat, ghost v: Option<BValue>)
    returns (ok: bool, pos: nat)
    requires start <= |raw| <= USIZE_MAX
    requires v.Some? ==> At(raw, start, Encode(v.value))
    ensures start <= pos <= |raw|
    ensures ok ==> start < pos
    ensures start < |raw| && raw[start] == TAG_END ==> !ok && pos == start
    ensures v.Some? ==> (ok <==> depth + Nesting(v.value) <= MAX_BENCODE_DEPTH)
    ensures v.Some? && ok ==> pos == start + |Encode(v.value)|
    decreases |raw| - start, 1
  {
    if v.Some? {
      FirstByte(v.value);
      TagAt(raw, start, v.value);
    }
    if depth > MAX_BENCODE_DEPTH || start >= |raw| {
      return false, start;
    }
    if IsDigit(raw[start]) {
      if v.Some? {
        StringAtEncoded(raw, start, v.value.b);
      }
      var key, end := ParseBytes(raw, start);
      return key.Some?, end;
    } else if raw[start] == TAG_INT {
      ok, pos := SkipInteger(raw, start, if v.Some? then Some(v.value.n) else None);
    } else if raw[start] == TAG_LIST {
      ok, pos := SkipItems(raw, start + 1, depth, if v.Some? then Some(v.value.items) else None);
    } else if raw[start] == TAG_DICT {
      ok, pos := SkipPairs(raw, start + 1, depth, if v.Some? then Some(v.value.pairs) else None);
    } else {
      return false, start;
    }
  }

  method SkipInteger(raw: seq<uint8>, start: nat, ghost n: Option<int>) returns (ok: bool, pos: nat)
    requires start < |raw|
    requires n.Some? ==> At(raw, start + 1, DecimalInt(n.value) + [TAG_END])
    ensures start < pos <= |raw|
    ensures n.Some? ==> ok && pos == start + 2 + |DecimalInt(n.value)|
  {
    ghost var stop := start + 1 + if n.Some? then |DecimalInt(n.value)| else 0;
    if n.Some? {
      IntegerAt(raw, start + 1, n.value);
    }
    pos := start + 1;
    while pos < |raw| && raw[pos] != TAG_END
      invariant start < pos <= |raw|
      invariant n.Some? ==> pos <= stop
    {
      pos := pos + 1;
    }
    if pos >= |raw| {
      return false, pos;
    }
    return true, pos + 1;
  }

  /** Skipping has come to `rest`, in front of an end tag at `end`; `fits` says whether all of it is shallow enough. */
  ghost predicate ItemsToSkip(raw: seq<uint8>, pos: nat, depth: nat, rest: seq<BValue>, end: nat, fits: bool) {
    && ItemsFollow(raw, pos, rest) && pos + |EncodeItems(rest)| == end
    && (fits <==> depth + NestingItems(rest) <= MAX_BENCODE_DEPTH)
  }

  method SkipItems(raw: seq<uint8>, start: nat, depth: nat, ghost items: Option<seq<BValue>>)
    returns (ok: bool, pos: nat)
    requires start <= |raw| <= USIZE_MAX && depth <= MAX_BENCODE_DEPTH
    requires items.Some? ==> At(raw, start, EncodeItems(items.value) + [TAG_END])
    ensures start <= pos <= |raw|
    ensures items.Some? ==> (ok <==> depth + NestingItems(items.value) <= MAX_BENCODE_DEPTH)
    ensures items.Some? && ok ==> pos == start + |EncodeItems(items.value)| + 1
    decreases |raw| - start, 3
  {
    pos := start;
    ghost var rest := items;
    ghost var end := if items.Some? then start + |EncodeItems(items.value)| else 0;
    ghost var fits := items.Some? && depth + NestingItems(items.value) <= MAX_BENCODE_DEPTH;
    if rest.Some? {
      ItemsAt(raw, pos, rest.value);
    }
    while pos < |raw| && raw[pos] != TAG_END
      invariant start <= pos <= |raw| && (rest.Some? <==> items.Some?)
      invariant rest.Some? ==> ItemsToSkip(raw, pos, depth, rest.value, end, fits)
      decreases |raw| - pos
    {
      ok, pos := SkipItem(raw, pos, depth, rest, end, fits);
      if !ok {
        return false, pos;
      }
      if rest.Some? {
        rest := Some(rest.value[1..]);
      }
    }
    if pos >= |raw| {
      return false, pos;
    }
    return true, pos + 1;
  }

  /** The loop body: one item, `rest` being the items still ahead. */
  method SkipItem(
    raw: seq<uint8>, start: nat, depth: nat, ghost rest: Option<seq<BValue>>, ghost end: nat, ghost fits: bool)
    returns (ok: bool, pos: nat)
    requires start < |raw| <= USIZE_MAX && depth <= MAX_BENCODE_DEPTH
    requires rest.Some? ==> rest.value != [] && ItemsToSkip(raw, start, depth, rest.value, end, fits)
    ensures start <= pos <= |raw| && (ok ==> start < pos)
    ensures rest.Some? && ok ==> ItemsToSkip(raw, pos, depth, rest.value[1..], end, fits)
    ensures rest.Some? && !ok ==> !fits
    decreases |raw| - start, 2
  {
    ok, pos := SkipValue(raw, start, depth + 1, if rest.Some? then Some(rest.value[0]) else None);
    if rest.Some? && ok {
      ItemsAt(raw, pos, rest.value[1..]);
    }
  }

  ghost predicate PairsToSkip(raw: seq<uint8>, pos: nat, depth: nat, rest: seq<Pair>, end: nat, fits: bool) {
    && PairsFollow(raw, pos, rest) && pos + |EncodePairs(rest)| == end
    && (fits <==> depth + NestingPairs(rest) <= MAX_BENCODE_DEPTH)
  }

  method SkipPairs(raw: seq<uint8>, start: nat, depth: nat, ghost pairs: Option<seq<Pair>>)
    returns (ok: bool, pos: nat)
    requires start <= |raw| <= USIZE_MAX && depth <= MAX_BENCODE_DEPTH
    requires pairs.Some? ==> At(raw, start, EncodePairs(pairs.value) + [TAG_END])
    ensures start <= pos <= |raw|
    ensures pairs.Some? ==> (ok <==> depth + NestingPairs(pairs.value) <= MAX_BENCODE_DEPTH)
    ensures pairs.Some? && ok ==> pos == start + |EncodePairs(pairs.value)| + 1
    decreases |raw| - start, 3
  {
    pos := start;
    ghost var rest := pairs;
    ghost var end := if pairs.Some? then start + |EncodePairs(pairs.value)| else 0;
    ghost var fits := pairs.Some? && depth + NestingPairs(pairs.value) <= MAX_BENCODE_DEPTH;
    if rest.Some? {
      PairsAt(raw, pos, rest.value);
    }
    while pos < |raw| && raw[pos] != TAG_END
      invariant start <= pos <= |raw| && (rest.Some? <==> pairs.Some?)
      invariant rest.Some? ==> PairsToSkip(raw, pos, depth, rest.value, end, fits)
      decreases |raw| - pos
    {
      ok, pos := SkipPair(raw, pos, depth, rest, end, fits);
      if !ok {
        return false, pos;
      }
      if rest.Some? {
        rest := Some(rest.value[1..]);
      }
    }
    if pos >= |raw| {
      return false, pos;
    }
    return true, pos + 1;
  }

  /** The loop body: one pair, `rest` being the pairs still ahead. */
  method SkipPair(
    raw: seq<uint8>, start: nat, depth: nat, ghost rest: Option<seq<Pair>>, ghost end: nat, ghost fits: bool)
    returns (ok: bool, pos: nat)
    requires start < |raw| <= USIZE_MAX && depth <= MAX_BENCODE_DEPTH
    requires rest.Some? ==> rest.value != [] && PairsToSkip(raw, start, depth, rest.value, end, fits)
    ensures start <= pos <= |raw| && (ok ==> start < pos)
    ensures rest.Some? && ok ==> PairsToSkip(raw, pos, depth, rest.value[1..], end, fits)
    ensures rest.Some? && !ok ==> !fits
    decreases |raw| - start, 2
  {
    if rest.Some? {
      KeyAt(raw, start, rest.value[0]);
    }
    var key;
    key, pos := ParseBytes(raw, start);
    if key.None? {
      return false, pos;
    }
    ok, pos := SkipValue(raw, pos, depth + 1, if rest.Some? then Some(rest.value[0].value) else None);
    if rest.Some? && ok {
      PairSkipped(raw, start, pos, depth, rest.value, end, fits);
    }
  }

  lemma KeyAt(raw: seq<uint8>, start: nat, pair: Pair)
    requires |raw| <= USIZE_MAX && At(raw, start, EncodeString(pair.key) + Encode(pair.value))
    ensures var pos := start + |EncodeString(pair.key)|;
            StringAt(raw, start) == (Some(pair.key), pos) && At(raw, pos, Encode(pair.value))
  {
    AtSplit(raw, start, EncodeString(pair.key), Encode(pair.value));
    StringAtEncoded(raw, start, pair.key);
  }

  lemma PairSkipped(raw: seq<uint8>, start: nat, pos: nat, depth: nat, rest: seq<Pair>, end: nat, fits: bool)
    requires rest != [] && PairsToSkip(raw, start, depth, rest, end, fits)
    requires pos == start + |EncodeString(rest[0].key)| + |Encode(rest[0].value)|
    requires depth + 1 + Nesting(rest[0].value) <= MAX_BENCODE_DEPTH
    ensures PairsToSkip(raw, pos, depth, rest[1..], end, fits)
  {
    PairsAt(raw, pos, rest[1..]);
  }
}
