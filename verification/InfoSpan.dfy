/** The byte span of the `info` dictionary, which the info hash is computed over
    (`crates/rt-bencode/src/decode.rs`). The walk checks no bounds and no limits of its own: it is
    only entered after a successful decode, so every method here takes the decoded value. */
module InfoSpan {
  import opened Bytes
  import opened Bencode
  import opened BencodeDecoder

  const INFO: seq<uint8> := [0x69, 0x6E, 0x66, 0x6F]

  datatype Span = Span(start: nat, end: nat)

  function InfoOf(pairs: seq<Pair>): Option<BValue> {
    if pairs == [] then None
    else if pairs[0].key == INFO then Some(pairs[0].value)
    else InfoOf(pairs[1..])
  }

  /** Index of the first occurrence of `needle` at or after `pos` (`memchr`). */
  method Find(needle: uint8, input: seq<uint8>, pos: nat) returns (r: Option<nat>)
    requires pos <= |input|
    ensures r.Some? ==> pos <= r.value < |input| && input[r.value] == needle
    ensures forall i :: pos <= i < (if r.Some? then r.value else |input|) ==> input[i] != needle
  {
    var i := pos;
    while i < |input|
      invariant pos <= i <= |input|
      invariant forall j :: pos <= j < i ==> input[j] != needle
    {
      if input[i] == needle {
        return Some(i);
      }
      i := i + 1;
    }
    return None;
  }

  /** Where the printed string at `pos` has its text: behind its own colon. */
  method StringHead(input: seq<uint8>, pos: nat, ghost b: seq<uint8>) returns (len: nat, text: nat)
    requires |input| <= USIZE_MAX && At(input, pos, EncodeString(b))
    ensures len == |b| && text == pos + |Decimal(|b|)| + 1 && text + len == pos + |EncodeString(b)|
    ensures At(input, text, b)
  {
    AtSplit(input, pos, Decimal(|b|) + [COLON], b);
    LengthAt(input, pos, |b|);
    var colon := Find(COLON, input, pos);
    assert colon == Some(pos + |Decimal(|b|)|);
    var digits := input[pos..colon.value];
    len, text := DecimalValue(digits), colon.value + 1;
  }

  method SkipValue(input: seq<uint8>, pos: nat, ghost v: BValue) returns (r: Option<nat>)
    requires |input| <= USIZE_MAX && At(input, pos, Encode(v))
    ensures r == Some(pos + |Encode(v)|)
    decreases |input| - pos, 1
  {
    FirstByte(v);
    TagAt(input, pos, v);
    if input[pos] == TAG_INT {
      IntegerAt(input, pos + 1, v.n);
      var i := pos + 1;
      while i < |input| && input[i] != TAG_END
        invariant pos < i <= pos + 1 + |DecimalInt(v.n)|
      {
        i := i + 1;
      }
      r := Some(i + 1);
    } else if input[pos] == TAG_LIST {
      r := SkipItems(input, pos + 1, v.items);
    } else if input[pos] == TAG_DICT {
      r := SkipPairs(input, pos + 1, v.pairs);
    } else {
      var len, text := StringHead(input, pos, v.b);
      r := Some(text + len);
    }
  }

  method SkipItems(input: seq<uint8>, start: nat, ghost items: seq<BValue>) returns (r: Option<nat>)
    requires |input| <= USIZE_MAX && At(input, start, EncodeItems(items) + [TAG_END])
    ensures r == Some(start + |EncodeItems(items)| + 1)
    decreases |input| - start, 2
  {
    var pos := start;
    ghost var rest := items;
    ItemsAt(input, pos, rest);
    while pos < |input| && input[pos] != TAG_END
      invariant start <= pos
      invariant ItemsFollow(input, pos, rest)
      invariant pos + |EncodeItems(rest)| == start + |EncodeItems(items)|
      decreases |rest|
    {
      var next := SkipValue(input, pos, rest[0]);
      pos := next.value;
      rest := rest[1..];
      ItemsAt(input, pos, rest);
    }
    return Some(pos + 1);
  }

  method SkipPairs(input: seq<uint8>, start: nat, ghost pairs: seq<Pair>) returns (r: Option<nat>)
    requires |input| <= USIZE_MAX && At(input, start, EncodePairs(pairs) + [TAG_END])
    ensures r == Some(start + |EncodePairs(pairs)| + 1)
    decreases |input| - start, 3
  {
    var pos := start;
    ghost var rest := pairs;
    PairsAt(input, pos, rest);
    while pos < |input| && input[pos] != TAG_END
      invariant start <= pos
      invariant PairsFollow(input, pos, rest)
      invariant pos + |EncodePairs(rest)| == start + |EncodePairs(pairs)|
      decreases |rest|
    {
      var next := SkipPair(input, pos, rest);
      pos := next.value;
      rest := rest[1..];
    }
    return Some(pos + 1);
  }

  /** The loop body: a key and its value, `rest` being the pairs still ahead. */
  method SkipPair(input: seq<uint8>, pos: nat, ghost rest: seq<Pair>) returns (r: Option<nat>)
    requires |input| <= USIZE_MAX && rest != [] && PairsFollow(input, pos, rest)
    ensures r.Some? && r.value + |EncodePairs(rest[1..])| == pos + |EncodePairs(rest)|
    ensures pos < r.value && PairsFollow(input, r.value, rest[1..])
    decreases |input| - pos, 2
  {
    AtSplit(input, pos, EncodeString(rest[0].key), Encode(rest[0].value));
    FirstByte(Bytes(rest[0].key));
    r := SkipValue(input, pos, Bytes(rest[0].key));
    r := SkipValue(input, r.value, rest[0].value);
    PairsAt(input, r.value, rest[1..]);
  }

  /** The key at `pos` and the span of its value. */
  method PairSpan(input: seq<uint8>, pos: nat, ghost pair: Pair) returns (key: seq<uint8>, span: Span)
    requires |input| <= USIZE_MAX && At(input, pos, EncodeString(pair.key) + Encode(pair.value))
    ensures key == pair.key && span.end == pos + |EncodeString(pair.key) + Encode(pair.value)|
    ensures span.start <= span.end <= |input| && input[span.start..span.end] == Encode(pair.value)
  {
    AtSplit(input, pos, EncodeString(pair.key), Encode(pair.value));
    var len, text := StringHead(input, pos, pair.key);
    key := input[text..text + len];
    var next := SkipValue(input, text + len, pair.value);
    span := Span(text + len, next.value);
  }

  /** Exactly the encoding of the `info` value, if there is one. */
  method FindInfoSpan(input: seq<uint8>, ghost pairs: seq<Pair>) returns (r: Option<Span>)
    requires |input| <= USIZE_MAX && At(input, 0, Encode(Dict(pairs)))
    ensures r.Some? <==> InfoOf(pairs).Some?
    ensures r.Some? ==> r.value.start <= r.value.end <= |input|
    ensures r.Some? ==> input[r.value.start..r.value.end] == Encode(InfoOf(pairs).value)
  {
    FirstByte(Dict(pairs));
    TagAt(input, 0, Dict(pairs));
    var pos: nat := 1;
    ghost var rest := pairs;
    PairsAt(input, pos, rest);
    while pos < |input| && input[pos] != TAG_END
      invariant PairsFollow(input, pos, rest)
      invariant InfoOf(rest) == InfoOf(pairs)
      decreases |rest|
    {
      var key, span := PairSpan(input, pos, rest[0]);
      if key == INFO {
        return Some(span);
      }
      pos := span.end;
      rest := rest[1..];
      PairsAt(input, pos, rest);
    }
    return None;
  }

  /** What the info hash is taken over: the span holds the encoding of the decoded `info` value. */
  method DecodeTorrentInfoSpan(input: seq<uint8>) returns (r: Option<(BValue, Option<Span>)>)
    requires |input| <= USIZE_MAX
    ensures r.Some? <==> exists v :: Decodes(DEFAULT_LIMITS, input, v)
    ensures r.Some? ==> Decodes(DEFAULT_LIMITS, input, r.value.0)
    ensures r.Some? && r.value.1.Some? ==>
              var v, span := r.value.0, r.value.1.value;
              && span.start <= span.end <= |input|
              && v.Dict? && InfoOf(v.pairs).Some? && input[span.start..span.end] == Encode(InfoOf(v.pairs).value)
    ensures r.Some? && r.value.1.None? ==> r.value.0.Dict? ==> InfoOf(r.value.0.pairs).None?
  {
    var v := Decode(input, DEFAULT_LIMITS);
    if v.None? {
      return None;
    }
    FirstByte(v.value);
    assert input[0..|input|] == input;
    if input[0] != TAG_DICT {
      return Some((v.value, None));
    }
    var span := FindInfoSpan(input, v.value.pairs);
    return Some((v.value, span));
  }
}
