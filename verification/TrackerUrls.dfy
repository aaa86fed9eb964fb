/** Tracker extraction from a `.torrent` file (`sidecar/src/torrent_meta.rs`).
    `trim` stands for lossy UTF-8 decoding followed by trimming. */
module TrackerUrls {
  import opened Bytes
  import opened Collections
  import opened Bencode
  import opened TorrentMeta

  type Url = seq<uint8>
  type Trim = seq<uint8> -> Url

  /** The `seen` set and the `out` vector that the scan fills. */
  datatype Found = Found(seen: set<Url>, out: seq<Url>) {
    ghost predicate Valid() {
      && seen == (set u | u in out)
      && |out| <= MAX_TRACKER_URLS
      && Distinct(out)
    }
  }

  ghost predicate Distinct<T>(s: seq<T>) {
    forall i, j :: 0 <= i < j < |s| ==> s[i] != s[j]
  }

  function CleanTrackerUrl(trim: Trim, raw: seq<uint8>): Option<Url> {
    if |raw| > MAX_TRACKER_URL_BYTES || trim(raw) == [] then None else Some(trim(raw))
  }

  // ----- what the file says -----

  function Cleaned(trim: Trim, raw: seq<uint8>): seq<Url> {
    match CleanTrackerUrl(trim, raw)
    case None => []
    case Some(url) => [url]
  }

  /** Clean URLs of all byte strings nested in a value, dictionary keys excluded, in document order. */
  function Nested(trim: Trim, v: BValue): seq<Url>
    decreases v, 1
  {
    match v
    case Int(_) => []
    case Bytes(b) => Cleaned(trim, b)
    case List(items) => NestedItems(trim, items)
    case Dict(pairs) => NestedPairs(trim, pairs)
  }

  function NestedItems(trim: Trim, items: seq<BValue>): seq<Url>
    decreases items, 0
  {
    if items == [] then [] else Nested(trim, items[0]) + NestedItems(trim, items[1..])
  }

  function NestedPairs(trim: Trim, pairs: seq<Pair>): seq<Url>
    decreases pairs, 0
  {
    if pairs == [] then [] else Nested(trim, pairs[0].value) + NestedPairs(trim, pairs[1..])
  }

  /** What collecting from a value pushes and, if the value is nested too deep, the values in front of the
      cursor where it stops: the one that is too deep and those behind it in the same container. */
  datatype Collected = Collected(urls: seq<Url>, stuck: Option<seq<BValue>>)

  function CollectedFrom(trim: Trim, v: BValue, depth: nat): Collected
    decreases v, 1
  {
    match v
    case Int(_) => Collected([], None)
    case Bytes(b) => Collected(Cleaned(trim, b), None)
    case List(items) => FromItems(trim, items, depth)
    case Dict(pairs) => FromPairs(trim, pairs, depth)
  }

  function FromItems(trim: Trim, items: seq<BValue>, depth: nat): Collected
    decreases items, 0
  {
    if items == [] then Collected([], None)
    else if depth >= MAX_BENCODE_DEPTH then Collected([], Some(items))
    else Then(CollectedFrom(trim, items[0], depth + 1), FromItems(trim, items[1..], depth))
  }

  function FromPairs(trim: Trim, pairs: seq<Pair>, depth: nat): Collected
    decreases pairs, 0
  {
    if pairs == [] then Collected([], None)
    else if depth >= MAX_BENCODE_DEPTH then Collected([], Some([pairs[0].value] + Flat(pairs[1..])))
    else Then(CollectedFrom(trim, pairs[0].value, depth + 1), FromPairs(trim, pairs[1..], depth))
  }

  /** One after the other, unless the first gets stuck. */
  function Then(first: Collected, second: Collected): Collected {
    if first.stuck.Some? then first else Collected(first.urls + second.urls, second.stuck)
  }

  /** The keys and values of a dictionary as they follow each other in the file. */
  function Flat(pairs: seq<Pair>): seq<BValue> {
    if pairs == [] then [] else [Bytes(pairs[0].key), pairs[0].value] + Flat(pairs[1..])
  }

  /** What one round of the main loop pushes, and the values in front of it in the next round, if there is one. */
  datatype Round = Round(urls: seq<Url>, next: Option<seq<BValue>>)

  /** One round with the values `xs` and an end tag in front: a string is a key, the value behind it is its. */
  function RoundOf(trim: Trim, xs: seq<BValue>): Round {
    if xs == [] || !xs[0].Bytes? then Round([], None) else RoundFor(trim, xs[0].b, xs[1..])
  }

  /** The round for a key that has been read, with the values `xs` and an end tag in front. */
  function RoundFor(trim: Trim, key: seq<uint8>, xs: seq<BValue>): Round {
    if xs == [] then Round([], None)
    else if key == ANNOUNCE then
      if xs[0].Bytes? then Round(Cleaned(trim, xs[0].b), Some(xs[1..])) else Round([], None)
    else if key == ANNOUNCE_LIST then
      var c := CollectedFrom(trim, xs[0], 0);
      Round(c.urls, if c.stuck.None? then Some(xs[1..]) else c.stuck)
    else Round([], if Nesting(xs[0]) <= MAX_BENCODE_DEPTH then Some(xs[1..]) else None)
  }

  /** Everything the main loop pushes. */
  function Extracted(trim: Trim, xs: seq<BValue>): seq<Url>
    decreases |EncodeItems(xs)|
  {
    var r := RoundOf(trim, xs);
    if r.next.None? then r.urls
    else
      RoundShrinks(trim, xs);
      r.urls + Extracted(trim, r.next.value)
  }

  lemma {:induction false} StuckShrinks(trim: Trim, v: BValue, depth: nat)
    ensures var c := CollectedFrom(trim, v, depth); c.stuck.Some? ==> |EncodeItems(c.stuck.value)| < |Encode(v)|
    decreases v, 1
  {
    match v
    case Int(_) =>
    case Bytes(_) =>
    case List(items) => StuckItemsShrink(trim, items, depth);
    case Dict(pairs) => StuckPairsShrink(trim, pairs, depth);
  }

  lemma {:induction false} StuckItemsShrink(trim: Trim, items: seq<BValue>, depth: nat)
    ensures var c := FromItems(trim, items, depth);
            c.stuck.Some? ==> |EncodeItems(c.stuck.value)| <= |EncodeItems(items)|
    decreases items, 0
  {
    if items == [] || depth >= MAX_BENCODE_DEPTH {
    } else {
      StuckShrinks(trim, items[0], depth + 1);
      StuckItemsShrink(trim, items[1..], depth);
    }
  }

  lemma {:induction false} StuckPairsShrink(trim: Trim, pairs: seq<Pair>, depth: nat)
    ensures var c := FromPairs(trim, pairs, depth);
            c.stuck.Some? ==> |EncodeItems(c.stuck.value)| <= |EncodePairs(pairs)|
    decreases pairs, 0
  {
    if pairs == [] {
    } else if depth >= MAX_BENCODE_DEPTH {
      FlatEncodes(pairs[1..]);
      ConsEncodes(pairs[0].value, Flat(pairs[1..]));
    } else {
      StuckShrinks(trim, pairs[0].value, depth + 1);
      StuckPairsShrink(trim, pairs[1..], depth);
    }
  }

  lemma ConsEncodes(x: BValue, xs: seq<BValue>)
    ensures EncodeItems([x] + xs) == Encode(x) + EncodeItems(xs)
  {
    assert ([x] + xs)[1..] == xs;
  }

  /** A dictionary is written like the list of its keys and values. */
  lemma {:induction false} FlatEncodes(pairs: seq<Pair>)
    ensures EncodeItems(Flat(pairs)) == EncodePairs(pairs)
  {
    if pairs == [] {
    } else {
      FlatEncodes(pairs[1..]);
      var key, value, rest := Bytes(pairs[0].key), pairs[0].value, Flat(pairs[1..]);
      assert Flat(pairs) == [key] + ([value] + rest);
      ConsEncodes(key, [value] + rest);
      ConsEncodes(value, rest);
      Regroup(Encode(key), Encode(value), EncodeItems(rest));
    }
  }

  lemma RoundShrinks(trim: Trim, xs: seq<BValue>)
    ensures var r := RoundOf(trim, xs); r.next.Some? ==> |EncodeItems(r.next.value)| < |EncodeItems(xs)|
  {
    if |xs| >= 2 {
      StuckShrinks(trim, xs[1], 0);
      ItemsLength(xs);
      ItemsLength(xs[1..]);
      FirstByte(xs[0]);
    }
  }

  lemma ItemsLength(xs: seq<BValue>)
    requires xs != []
    ensures |EncodeItems(xs)| == |Encode(xs[0])| + |EncodeItems(xs[1..])|
  {
  }

  // ----- shallow files -----

  /** A value within the depth limit is collected as a whole; a deeper one gets stuck. */
  lemma {:induction false} CollectedShallow(trim: Trim, v: BValue, depth: nat)
    requires depth <= MAX_BENCODE_DEPTH
    ensures var c := CollectedFrom(trim, v, depth);
            && (c.stuck.None? <==> depth + Nesting(v) <= MAX_BENCODE_DEPTH)
            && (c.stuck.None? ==> c.urls == Nested(trim, v))
    decreases v, 1
  {
    match v
    case Int(_) =>
    case Bytes(_) =>
    case List(items) => ItemsShallow(trim, items, depth);
    case Dict(pairs) => PairsShallow(trim, pairs, depth);
  }

  lemma {:induction false} ItemsShallow(trim: Trim, items: seq<BValue>, depth: nat)
    requires depth <= MAX_BENCODE_DEPTH
    ensures var c := FromItems(trim, items, depth);
            && (c.stuck.None? <==> depth + NestingItems(items) <= MAX_BENCODE_DEPTH)
            && (c.stuck.None? ==> c.urls == NestedItems(trim, items))
    decreases items, 0
  {
    if items == [] || depth == MAX_BENCODE_DEPTH {
    } else {
      CollectedShallow(trim, items[0], depth + 1);
      ItemsShallow(trim, items[1..], depth);
    }
  }

  lemma {:induction false} PairsShallow(trim: Trim, pairs: seq<Pair>, depth: nat)
    requires depth <= MAX_BENCODE_DEPTH
    ensures var c := FromPairs(trim, pairs, depth);
            && (c.stuck.None? <==> depth + NestingPairs(pairs) <= MAX_BENCODE_DEPTH)
            && (c.stuck.None? ==> c.urls == NestedPairs(trim, pairs))
    decreases pairs, 0
  {
    if pairs == [] || depth == MAX_BENCODE_DEPTH {
    } else {
      CollectedShallow(trim, pairs[0].value, depth + 1);
      PairsShallow(trim, pairs[1..], depth);
    }
  }

  /** URLs of `announce` and of everything nested in `announce-list`, in document order. */
  function Announced(trim: Trim, pairs: seq<Pair>): seq<Url> {
    if pairs == [] then [] else PairUrls(trim, pairs[0]) + Announced(trim, pairs[1..])
  }

  function PairUrls(trim: Trim, pair: Pair): seq<Url> {
    if pair.key == ANNOUNCE || pair.key == ANNOUNCE_LIST then Nested(trim, pair.value) else []
  }

  /** A pair the scan gets over: an `announce` that is a byte string, or any other value within the limit. */
  predicate Passes(pair: Pair) {
    if pair.key == ANNOUNCE then pair.value.Bytes? else Nesting(pair.value) <= MAX_BENCODE_DEPTH
  }

  /** As long as pairs pass, exactly what they announce is extracted, and the scan goes on behind them. */
  lemma {:induction false} PassingExtracted(trim: Trim, pairs: seq<Pair>, i: nat)
    requires i <= |pairs| && forall j :: 0 <= j < i ==> Passes(pairs[j])
    ensures Extracted(trim, Flat(pairs)) == Announced(trim, pairs[..i]) + Extracted(trim, Flat(pairs[i..]))
    decreases i
  {
    if i == 0 {
      assert pairs[0..] == pairs;
    } else {
      var rest := pairs[1..];
      PassingExtracted(trim, rest, i - 1);
      ShallowRound(trim, pairs);
      ExtractedStep(trim, Flat(pairs));
      assert rest[i - 1..] == pairs[i..] && pairs[..i][1..] == rest[..i - 1];
      Regroup(PairUrls(trim, pairs[0]), Announced(trim, rest[..i - 1]), Extracted(trim, Flat(pairs[i..])));
    }
  }

  lemma {:induction false} ExtractedStep(trim: Trim, xs: seq<BValue>)
    ensures var r := RoundOf(trim, xs);
            Extracted(trim, xs) == r.urls + if r.next.None? then [] else Extracted(trim, r.next.value)
  {
  }

  lemma {:induction false} ShallowRound(trim: Trim, pairs: seq<Pair>)
    requires pairs != [] && Passes(pairs[0])
    ensures RoundOf(trim, Flat(pairs)) == Round(PairUrls(trim, pairs[0]), Some(Flat(pairs[1..])))
  {
    FlatTail(pairs);
    PassingRound(trim, pairs[0], Flat(pairs[1..]));
  }

  lemma {:induction false} PassingRound(trim: Trim, pair: Pair, rest: seq<BValue>)
    requires Passes(pair)
    ensures RoundFor(trim, pair.key, [pair.value] + rest) == Round(PairUrls(trim, pair), Some(rest))
  {
    assert ([pair.value] + rest)[1..] == rest;
    CollectedShallow(trim, pair.value, 0);
  }

  /** Of a dictionary whose pairs all pass, exactly the announced URLs are extracted. */
  lemma ShallowExtracted(trim: Trim, pairs: seq<Pair>)
    requires forall i :: 0 <= i < |pairs| ==> Passes(pairs[i])
    ensures Extracted(trim, Flat(pairs)) == Announced(trim, pairs)
  {
    PassingExtracted(trim, pairs, |pairs|);
    assert pairs[..|pairs|] == pairs && pairs[|pairs|..] == [];
    assert Extracted(trim, Flat([])) == [];
  }

  // ----- where extraction ends -----

  /** The first pair that does not pass. */
  ghost predicate FirstBlocked(pairs: seq<Pair>, i: nat) {
    i < |pairs| && !Passes(pairs[i]) && forall j :: 0 <= j < i ==> Passes(pairs[j])
  }

  lemma {:induction false} AnnouncedSplit(trim: Trim, pairs: seq<Pair>, i: nat)
    requires i <= |pairs|
    ensures Announced(trim, pairs) == Announced(trim, pairs[..i]) + Announced(trim, pairs[i..])
    decreases i
  {
    if i == 0 {
      assert pairs[0..] == pairs;
    } else {
      var rest := pairs[1..];
      AnnouncedSplit(trim, rest, i - 1);
      assert rest[i - 1..] == pairs[i..] && pairs[..i][1..] == rest[..i - 1];
      Regroup(PairUrls(trim, pairs[0]), Announced(trim, rest[..i - 1]), Announced(trim, pairs[i..]));
    }
  }

  /** At an `announce` that is not a string, or a value nested too deep under an unrelated key, extraction
      ends. Nothing announced is lost exactly if nothing is announced from there on. */
  lemma BlockedExtracted(trim: Trim, pairs: seq<Pair>, i: nat)
    requires FirstBlocked(pairs, i) && pairs[i].key != ANNOUNCE_LIST
    ensures Extracted(trim, Flat(pairs)) == Announced(trim, pairs[..i])
    ensures Extracted(trim, Flat(pairs)) == Announced(trim, pairs) <==> Announced(trim, pairs[i..]) == []
  {
    var rest := pairs[i..];
    PassingExtracted(trim, pairs, i);
    AnnouncedSplit(trim, pairs, i);
    assert RoundOf(trim, Flat(rest)) == Round([], None);
    ExtractedStep(trim, Flat(rest));
    assert |Announced(trim, pairs)| == |Announced(trim, pairs[..i])| + |Announced(trim, rest)|;
  }

  /** An `announce-list` nested too deep is left where it gets too deep, and what follows there is read on. */
  lemma DeepListExtracted(trim: Trim, pairs: seq<Pair>, i: nat)
    requires FirstBlocked(pairs, i) && pairs[i].key == ANNOUNCE_LIST
    ensures var c := CollectedFrom(trim, pairs[i].value, 0);
            && c.stuck.Some?
            && Extracted(trim, Flat(pairs)) == Announced(trim, pairs[..i]) + (c.urls + Extracted(trim, c.stuck.value))
  {
    var c := CollectedFrom(trim, pairs[i].value, 0);
    PassingExtracted(trim, pairs, i);
    CollectedShallow(trim, pairs[i].value, 0);
    assert |ANNOUNCE| != |ANNOUNCE_LIST|;
    assert RoundOf(trim, Flat(pairs[i..])) == Round(c.urls, c.stuck);
    ExtractedStep(trim, Flat(pairs[i..]));
  }

  /** The result of a file that is read only up to URLs `a`, with `b` announced behind them, is that of the
      whole file exactly if the limit was reached or everything behind is a repetition. */
  lemma LossExactly(a: seq<Url>, b: seq<Url>, n: nat)
    ensures Take(Dedup(a), n) == Take(Dedup(a + b), n) <==> |Dedup(a)| >= n || forall u :: u in b ==> u in a
  {
    DedupGrows(a, b);
  }

  lemma {:induction false} DedupGrows(a: seq<Url>, b: seq<Url>)
    ensures Dedup(a) <= Dedup(a + b) && (|Dedup(a)| == |Dedup(a + b)| <==> forall u :: u in b ==> u in a)
    decreases |b|
  {
    if b == [] {
      assert a + b == a;
    } else {
      var front, last := b[..|b| - 1], b[|b| - 1];
      DedupGrows(a, front);
      assert a + b == a + front + [last] && b == front + [last];
      assert (a + b)[..|a + b| - 1] == a + front;
    }
  }

  /** A file whose `announce` is an empty list: the tracker of its `announce-list` is lost. */
  lemma ListAnnounce(trim: Trim, url: seq<uint8>)
    ensures var pairs := [Pair(ANNOUNCE, List([])), Pair(ANNOUNCE_LIST, BValue.Bytes(url))];
            Extracted(trim, Flat(pairs)) == [] && Announced(trim, pairs) == Cleaned(trim, url)
  {
    var pairs := [Pair(ANNOUNCE, List([])), Pair(ANNOUNCE_LIST, BValue.Bytes(url))];
    BlockedExtracted(trim, pairs, 0);
    assert Nested(trim, List([])) == [];
    assert pairs[1..][1..] == [] && pairs[1..][0] == pairs[1];
  }

  // ----- deep files -----

  /** Items inside n + 1 lists. */
  function Wrapped(n: nat, items: seq<BValue>): BValue {
    if n == 0 then List(items) else List([Wrapped(n - 1, items)])
  }

  lemma {:induction false} WrappedStuck(trim: Trim, items: seq<BValue>, depth: nat)
    requires items != [] && depth <= MAX_BENCODE_DEPTH
    ensures CollectedFrom(trim, Wrapped(MAX_BENCODE_DEPTH - depth, items), depth) == Collected([], Some(items))
    decreases MAX_BENCODE_DEPTH - depth
  {
    if depth == MAX_BENCODE_DEPTH {
    } else {
      WrappedStuck(trim, items, depth + 1);
    }
  }

  /** What lies 65 deep in an `announce-list` is read as if it were the keys and values of the file. */
  lemma DeepItemsAreKeys(trim: Trim, items: seq<BValue>)
    requires items != []
    ensures Extracted(trim, Flat([Pair(ANNOUNCE_LIST, Wrapped(MAX_BENCODE_DEPTH, items))])) == Extracted(trim, items)
  {
    var v := Wrapped(MAX_BENCODE_DEPTH, items);
    WrappedStuck(trim, items, 0);
    var pairs := [Pair(ANNOUNCE_LIST, v)];
    var xs := Flat(pairs);
    assert Flat(pairs[1..]) == [];
    assert xs == [BValue.Bytes(ANNOUNCE_LIST), v];
    assert |ANNOUNCE| != |ANNOUNCE_LIST|;
    assert RoundOf(trim, xs) == Round([], Some(items));
  }

  /** So of the two strings there the first is taken for a key, not for a URL. */
  lemma DeepAnnounce(trim: Trim, url: seq<uint8>)
    ensures var items := [BValue.Bytes(ANNOUNCE), BValue.Bytes(url)];
            var pairs := [Pair(ANNOUNCE_LIST, Wrapped(MAX_BENCODE_DEPTH, items))];
            Extracted(trim, Flat(pairs)) == Cleaned(trim, url)
  {
    var items := [BValue.Bytes(ANNOUNCE), BValue.Bytes(url)];
    DeepItemsAreKeys(trim, items);
    assert RoundOf(trim, items) == Round(Cleaned(trim, url), Some([]));
    assert Extracted(trim, []) == [];
  }

  /** First occurrences only. */
  function Dedup(urls: seq<Url>): seq<Url> {
    if urls == [] then []
    else
      var front, last := urls[..|urls| - 1], urls[|urls| - 1];
      if last in front then Dedup(front) else Dedup(front) + [last]
  }

  function Take(urls: seq<Url>, n: nat): seq<Url> {
    if |urls| <= n then urls else urls[..n]
  }

  // ----- pushing -----

  function Push(out: seq<Url>, url: Url): seq<Url> {
    if |out| >= MAX_TRACKER_URLS || url in out then out else out + [url]
  }

  function PushAll(out: seq<Url>, urls: seq<Url>): seq<Url>
    decreases |urls|
  {
    if urls == [] then out else PushAll(Push(out, urls[0]), urls[1..])
  }

  lemma {:induction false} PushAllConcat(out: seq<Url>, a: seq<Url>, b: seq<Url>)
    ensures PushAll(out, a + b) == PushAll(PushAll(out, a), b)
    decreases |a|
  {
    if a == [] {
      assert a + b == b;
    } else {
      assert (a + b)[1..] == a[1..] + b;
      PushAllConcat(Push(out, a[0]), a[1..], b);
    }
  }

  lemma {:induction false} DedupMembers(urls: seq<Url>)
    ensures forall u :: u in Dedup(urls) <==> u in urls
    ensures Distinct(Dedup(urls))
  {
    if urls == [] {
    } else {
      var front, last := urls[..|urls| - 1], urls[|urls| - 1];
      DedupMembers(front);
      assert urls == front + [last];
    }
  }

  /** Pushing one by one into an empty vector keeps the first 1024 distinct URLs. */
  lemma {:induction false} PushAllIsFirstDistinct(urls: seq<Url>)
    ensures PushAll([], urls) == Take(Dedup(urls), MAX_TRACKER_URLS)
    decreases |urls|
  {
    if urls == [] {
    } else {
      var front, last := urls[..|urls| - 1], urls[|urls| - 1];
      PushAllIsFirstDistinct(front);
      PushAllConcat([], front, [last]);
      assert urls == front + [last];
      var out := PushAll([], front);
      assert PushAll(out, [last]) == Push(out, last);
      DedupMembers(front);
    }
  }

  method PushTracker(url: Url, f: Found) returns (r: Found)
    requires f.Valid()
    ensures r.Valid() && r.out == Push(f.out, url)
  {
    if |f.out| >= MAX_TRACKER_URLS {
      return f;
    }
    if url in f.seen {
      return f;
    }
    r := Found(f.seen + {url}, f.out + [url]);
  }

  method PushCleaned(trim: Trim, raw: Option<seq<uint8>>, f: Found) returns (r: Found)
    requires f.Valid()
    ensures r.Valid() && f.out <= r.out
    ensures r.out == PushAll(f.out, if raw.Some? then Cleaned(trim, raw.value) else [])
  {
    r := f;
    if raw.Some? {
      var url := CleanTrackerUrl(trim, raw.value);
      if url.Some? {
        r := PushTracker(url.value, f);
        assert PushAll(f.out, [url.value]) == Push(f.out, url.value);
      }
    }
  }

  // ----- collecting -----

  /** The values `xs` and an end tag are in front of the cursor. */
  ghost predicate Ahead(raw: seq<uint8>, pos: nat, xs: seq<BValue>) {
    At(raw, pos, EncodeItems(xs) + [TAG_END])
  }

  /** Collecting `c`, from `start` to behind `length` bytes, ended as told. */
  ghost predicate Ends(
    raw: seq<uint8>, c: Collected, start: nat, length: nat, out: seq<Url>, ok: bool, pos: nat, f: Found)
  {
    && f.out == PushAll(out, c.urls) && (ok <==> c.stuck.None?)
    && if ok then pos == start + length else Ahead(raw, pos, c.stuck.value)
  }

  method CollectTrackers(trim: Trim, raw: seq<uint8>, start: nat, depth: nat, f0: Found, ghost v: Option<BValue>)
    returns (ok: bool, pos: nat, f: Found)
    requires start <= |raw| <= USIZE_MAX && f0.Valid()
    requires v.Some? ==> At(raw, start, Encode(v.value))
    ensures start <= pos <= |raw| && f.Valid() && f0.out <= f.out
    ensures ok ==> start < pos
    ensures depth > MAX_BENCODE_DEPTH || start == |raw| || raw[start] == TAG_END ==> !ok && pos == start && f == f0
    ensures v.Some? && depth <= MAX_BENCODE_DEPTH ==>
              Ends(raw, CollectedFrom(trim, v.value, depth), start, |Encode(v.value)|, f0.out, ok, pos, f)
    decreases |raw| - start, 1
  {
    if v.Some? {
      FirstByte(v.value);
      TagAt(raw, start, v.value);
    }
    if depth > MAX_BENCODE_DEPTH || start >= |raw| {
      return false, start, f0;
    }
    if IsDigit(raw[start]) {
      ok := true;
      pos, f := CollectString(trim, raw, start, f0, if v.Some? then Some(v.value.b) else None);
    } else if raw[start] == TAG_LIST {
      ok, pos, f := CollectItems(trim, raw, start + 1, depth, f0, if v.Some? then Some(v.value.items) else None);
    } else if raw[start] == TAG_DICT {
      ok, pos, f := CollectPairs(trim, raw, start + 1, depth, f0, if v.Some? then Some(v.value.pairs) else None);
    } else if raw[start] == TAG_INT {
      ok, pos := SkipValue(raw, start, depth, v);
      f := f0;
    } else {
      return false, start, f0;
    }
  }

  method CollectString(trim: Trim, raw: seq<uint8>, start: nat, f0: Found, ghost b: Option<seq<uint8>>)
    returns (pos: nat, f: Found)
    requires start < |raw| <= USIZE_MAX && IsDigit(raw[start]) && f0.Valid()
    requires b.Some? ==> At(raw, start, EncodeString(b.value))
    ensures start < pos <= |raw| && f.Valid() && f0.out <= f.out
    ensures b.Some? ==> pos == start + |EncodeString(b.value)| && f.out == PushAll(f0.out, Cleaned(trim, b.value))
  {
    if b.Some? {
      StringAtEncoded(raw, start, b.value);
    }
    assert DigitRun(raw, start) > start;
    var value;
    value, pos := ParseBytes(raw, start);
    f := PushCleaned(trim, value, f0);
  }

  /** Of all that is left to collect, `goal`, the first part is done: what is left then, or where it ends. */
  lemma FirstDone(
    first: Collected, second: Collected, goal: Collected, before: seq<Url>, after: seq<Url>, out: seq<Url>)
    requires Then(first, second).stuck == goal.stuck
    requires PushAll(before, Then(first, second).urls) == PushAll(out, goal.urls)
    requires after == PushAll(before, first.urls)
    ensures first.stuck.None? ==> second.stuck == goal.stuck && PushAll(after, second.urls) == PushAll(out, goal.urls)
    ensures first.stuck.Some? ==> first.stuck == goal.stuck && after == PushAll(out, goal.urls)
  {
    PushAllConcat(before, first.urls, second.urls);
  }

  /** The loop over the items has come to `rest`: what is left to collect there is what is left of all. */
  ghost predicate ItemsLeft(
    trim: Trim, raw: seq<uint8>, pos: nat, depth: nat, f: Found, rest: seq<BValue>, goal: Collected, out: seq<Url>,
    end: nat)
  {
    && Ahead(raw, pos, rest) && pos + |EncodeItems(rest)| == end
    && var c := FromItems(trim, rest, depth);
       c.stuck == goal.stuck && PushAll(f.out, c.urls) == PushAll(out, goal.urls)
  }

  /** The loop body: one item, `rest` being the items still ahead. */
  method CollectItem(
    trim: Trim, raw: seq<uint8>, start: nat, depth: nat, f0: Found, ghost rest: Option<seq<BValue>>,
    ghost goal: Collected, ghost out: seq<Url>, ghost end: nat)
    returns (ok: bool, pos: nat, f: Found)
    requires start < |raw| <= USIZE_MAX && depth <= MAX_BENCODE_DEPTH && f0.Valid()
    requires rest.Some? ==> rest.value != [] && ItemsLeft(trim, raw, start, depth, f0, rest.value, goal, out, end)
    ensures start <= pos <= |raw| && (ok ==> start < pos) && f.Valid() && f0.out <= f.out
    ensures rest.Some? && ok ==> ItemsLeft(trim, raw, pos, depth, f, rest.value[1..], goal, out, end)
    ensures rest.Some? && !ok ==> Ends(raw, goal, 0, 0, out, ok, pos, f)
    decreases |raw| - start, 2
  {
    if rest.Some? {
      AheadStep(raw, start, rest.value);
    }
    ok, pos, f := CollectTrackers(trim, raw, start, depth + 1, f0, if rest.Some? then Some(rest.value[0]) else None);
    if rest.Some? {
      ItemDone(trim, raw, start, depth, f0, rest.value, goal, out, end, ok, pos, f);
    }
  }

  /** What collecting one value of a container amounts to. */
  ghost predicate OneDone(
    trim: Trim, raw: seq<uint8>, v: BValue, start: nat, depth: nat, f0: Found, ok: bool, pos: nat, f: Found)
  {
    if depth >= MAX_BENCODE_DEPTH then !ok && pos == start && f == f0
    else Ends(raw, CollectedFrom(trim, v, depth + 1), start, |Encode(v)|, f0.out, ok, pos, f)
  }

  lemma {:induction false} ItemDone(
    trim: Trim, raw: seq<uint8>, start: nat, depth: nat, f0: Found, rest: seq<BValue>, goal: Collected, out: seq<Url>,
    end: nat, ok: bool, pos: nat, f: Found)
    requires rest != [] && ItemsLeft(trim, raw, start, depth, f0, rest, goal, out, end)
    requires OneDone(trim, raw, rest[0], start, depth, f0, ok, pos, f)
    ensures ok ==> ItemsLeft(trim, raw, pos, depth, f, rest[1..], goal, out, end)
    ensures !ok ==> Ends(raw, goal, 0, 0, out, ok, pos, f)
  {
    ItemsLength(rest);
    AheadStep(raw, start, rest);
    if depth < MAX_BENCODE_DEPTH {
      var first, second := CollectedFrom(trim, rest[0], depth + 1), FromItems(trim, rest[1..], depth);
      assert FromItems(trim, rest, depth) == Then(first, second);
      FirstDone(first, second, goal, f0.out, f.out, out);
    } else {
      assert FromItems(trim, rest, depth) == Collected([], Some(rest));
    }
  }

  method CollectItems(trim: Trim, raw: seq<uint8>, start: nat, depth: nat, f0: Found, ghost items: Option<seq<BValue>>)
    returns (ok: bool, pos: nat, f: Found)
    requires start <= |raw| <= USIZE_MAX && depth <= MAX_BENCODE_DEPTH && f0.Valid()
    requires items.Some? ==> Ahead(raw, start, items.value)
    ensures start <= pos <= |raw| && f.Valid() && f0.out <= f.out
    ensures items.Some? ==>
              Ends(raw, FromItems(trim, items.value, depth), start, |EncodeItems(items.value)| + 1, f0.out, ok, pos, f)
    decreases |raw| - start, 3
  {
    pos, f := start, f0;
    ghost var rest := items;
    ghost var goal := if items.Some? then FromItems(trim, items.value, depth) else Collected([], None);
    ghost var end := if items.Some? then start + |EncodeItems(items.value)| else 0;
    if rest.Some? {
      ItemsAt(raw, pos, rest.value);
    }
    while pos < |raw| && raw[pos] != TAG_END
      invariant start <= pos <= |raw| && f.Valid() && f0.out <= f.out
      invariant rest.Some? <==> items.Some?
      invariant rest.Some? ==> ItemsLeft(trim, raw, pos, depth, f, rest.value, goal, f0.out, end)
      invariant rest.Some? ==> pos < |raw| && (rest.value == [] <==> raw[pos] == TAG_END)
      decreases |raw| - pos
    {
      ok, pos, f := CollectItem(trim, raw, pos, depth, f, rest, goal, f0.out, end);
      if !ok {
        return false, pos, f;
      }
      if rest.Some? {
        rest := Some(rest.value[1..]);
        ItemsAt(raw, pos, rest.value);
      }
    }
    if pos >= |raw| {
      return false, pos, f;
    }
    return true, pos + 1, f;
  }

  ghost predicate PairsLeft(
    trim: Trim, raw: seq<uint8>, pos: nat, depth: nat, f: Found, rest: seq<Pair>, goal: Collected, out: seq<Url>,
    end: nat)
  {
    && Ahead(raw, pos, Flat(rest)) && pos + |EncodeItems(Flat(rest))| == end
    && var c := FromPairs(trim, rest, depth);
       c.stuck == goal.stuck && PushAll(f.out, c.urls) == PushAll(out, goal.urls)
  }

  /** The loop body: one pair, `rest` being the pairs still ahead. */
  method CollectPair(
    trim: Trim, raw: seq<uint8>, start: nat, depth: nat, f0: Found, ghost rest: Option<seq<Pair>>,
    ghost goal: Collected, ghost out: seq<Url>, ghost end: nat)
    returns (ok: bool, pos: nat, f: Found)
    requires start < |raw| <= USIZE_MAX && depth <= MAX_BENCODE_DEPTH && f0.Valid()
    requires rest.Some? ==> rest.value != [] && PairsLeft(trim, raw, start, depth, f0, rest.value, goal, out, end)
    ensures start <= pos <= |raw| && (ok ==> start < pos) && f.Valid() && f0.out <= f.out
    ensures rest.Some? && ok ==> PairsLeft(trim, raw, pos, depth, f, rest.value[1..], goal, out, end)
    ensures rest.Some? && !ok ==> Ends(raw, goal, 0, 0, out, ok, pos, f)
    decreases |raw| - start, 2
  {
    if rest.Some? {
      PairKeyAhead(raw, start, rest.value);
    }
    var key;
    key, pos := ParseBytes(raw, start);
    if key.None? {
      return false, pos, f0;
    }
    ok, pos, f := CollectMember(trim, raw, start, pos, depth, f0, rest, goal, out, end);
  }

  lemma {:induction false} PairKeyAhead(raw: seq<uint8>, start: nat, pairs: seq<Pair>)
    requires |raw| <= USIZE_MAX && pairs != [] && Ahead(raw, start, Flat(pairs))
    ensures var pos := start + |EncodeString(pairs[0].key)|;
            StringAt(raw, start) == (Some(pairs[0].key), pos) && Ahead(raw, pos, Flat(pairs)[1..])
  {
    KeyAhead(raw, start, Flat(pairs));
  }

  /** The value of a pair whose key has been read. */
  method CollectMember(
    trim: Trim, raw: seq<uint8>, ghost start: nat, middle: nat, depth: nat, f0: Found, ghost rest: Option<seq<Pair>>,
    ghost goal: Collected, ghost out: seq<Url>, ghost end: nat)
    returns (ok: bool, pos: nat, f: Found)
    requires start <= middle <= |raw| <= USIZE_MAX && depth <= MAX_BENCODE_DEPTH && f0.Valid()
    requires rest.Some? ==>
               && rest.value != [] && PairsLeft(trim, raw, start, depth, f0, rest.value, goal, out, end)
               && middle == start + |EncodeString(rest.value[0].key)| && Ahead(raw, middle, Flat(rest.value)[1..])
    ensures middle <= pos <= |raw| && (ok ==> middle < pos) && f.Valid() && f0.out <= f.out
    ensures rest.Some? && ok ==> PairsLeft(trim, raw, pos, depth, f, rest.value[1..], goal, out, end)
    ensures rest.Some? && !ok ==> Ends(raw, goal, 0, 0, out, ok, pos, f)
    decreases |raw| - middle, 2
  {
    ghost var v: Option<BValue> := None;
    if rest.Some? {
      v := Some(rest.value[0].value);
      MemberAt(raw, middle, rest.value);
    }
    ok, pos, f := CollectTrackers(trim, raw, middle, depth + 1, f0, v);
    if rest.Some? {
      PairDone(trim, raw, start, middle, depth, f0, rest.value, goal, out, end, ok, pos, f);
    }
  }

  lemma {:induction false} MemberAt(raw: seq<uint8>, middle: nat, pairs: seq<Pair>)
    requires pairs != [] && Ahead(raw, middle, Flat(pairs)[1..])
    ensures At(raw, middle, Encode(pairs[0].value))
  {
    MemberAhead(raw, middle, pairs);
  }

  lemma {:induction false} MemberAhead(raw: seq<uint8>, middle: nat, pairs: seq<Pair>)
    requires pairs != [] && Ahead(raw, middle, Flat(pairs)[1..])
    ensures At(raw, middle, Encode(pairs[0].value))
    ensures Ahead(raw, middle + |Encode(pairs[0].value)|, Flat(pairs[1..]))
  {
    FlatTail(pairs);
    AheadCons(raw, middle, pairs[0].value, Flat(pairs[1..]));
  }

  lemma {:induction false} FlatTail(pairs: seq<Pair>)
    requires pairs != []
    ensures Flat(pairs)[1..] == [pairs[0].value] + Flat(pairs[1..])
  {
  }

  lemma {:induction false} AheadCons(raw: seq<uint8>, pos: nat, x: BValue, rest: seq<BValue>)
    requires Ahead(raw, pos, [x] + rest)
    ensures At(raw, pos, Encode(x)) && Ahead(raw, pos + |Encode(x)|, rest)
  {
    assert ([x] + rest)[1..] == rest;
    AheadStep(raw, pos, [x] + rest);
  }

  lemma {:induction false} PairDone(
    trim: Trim, raw: seq<uint8>, start: nat, middle: nat, depth: nat, f0: Found, rest: seq<Pair>, goal: Collected,
    out: seq<Url>, end: nat, ok: bool, pos: nat, f: Found)
    requires rest != [] && PairsLeft(trim, raw, start, depth, f0, rest, goal, out, end)
    requires middle == start + |EncodeString(rest[0].key)| && Ahead(raw, middle, Flat(rest)[1..])
    requires OneDone(trim, raw, rest[0].value, middle, depth, f0, ok, pos, f)
    ensures ok ==> PairsLeft(trim, raw, pos, depth, f, rest[1..], goal, out, end)
    ensures !ok ==> Ends(raw, goal, 0, 0, out, ok, pos, f)
  {
    FlatStep(rest);
    MemberAhead(raw, middle, rest);
    if depth < MAX_BENCODE_DEPTH {
      var first, second := CollectedFrom(trim, rest[0].value, depth + 1), FromPairs(trim, rest[1..], depth);
      assert FromPairs(trim, rest, depth) == Then(first, second);
      FirstDone(first, second, goal, f0.out, f.out, out);
    } else {
      assert FromPairs(trim, rest, depth) == Collected([], Some(Flat(rest)[1..]));
    }
  }

  lemma {:induction false} FlatStep(pairs: seq<Pair>)
    requires pairs != []
    ensures Flat(pairs)[1..] == [pairs[0].value] + Flat(pairs[1..])
    ensures |EncodeItems(Flat(pairs))| ==
            |EncodeString(pairs[0].key)| + |Encode(pairs[0].value)| + |EncodeItems(Flat(pairs[1..]))|
  {
    FlatTail(pairs);
    ConsEncodes(pairs[0].value, Flat(pairs[1..]));
  }

  method CollectPairs(trim: Trim, raw: seq<uint8>, start: nat, depth: nat, f0: Found, ghost pairs: Option<seq<Pair>>)
    returns (ok: bool, pos: nat, f: Found)
    requires start <= |raw| <= USIZE_MAX && depth <= MAX_BENCODE_DEPTH && f0.Valid()
    requires pairs.Some? ==> At(raw, start, EncodePairs(pairs.value) + [TAG_END])
    ensures start <= pos <= |raw| && f.Valid() && f0.out <= f.out
    ensures pairs.Some? ==>
              Ends(raw, FromPairs(trim, pairs.value, depth), start, |EncodePairs(pairs.value)| + 1, f0.out, ok, pos, f)
    decreases |raw| - start, 3
  {
    pos, f := start, f0;
    ghost var rest := pairs;
    ghost var goal := if pairs.Some? then FromPairs(trim, pairs.value, depth) else Collected([], None);
    ghost var end := if pairs.Some? then start + |EncodePairs(pairs.value)| else 0;
    if rest.Some? {
      FlatEncodes(rest.value);
      ItemsAt(raw, pos, Flat(rest.value));
    }
    while pos < |raw| && raw[pos] != TAG_END
      invariant start <= pos <= |raw| && f.Valid() && f0.out <= f.out
      invariant rest.Some? <==> pairs.Some?
      invariant rest.Some? ==> PairsLeft(trim, raw, pos, depth, f, rest.value, goal, f0.out, end)
      invariant rest.Some? ==> pos < |raw| && (rest.value == [] <==> raw[pos] == TAG_END)
      decreases |raw| - pos
    {
      ok, pos, f := CollectPair(trim, raw, pos, depth, f, rest, goal, f0.out, end);
      if !ok {
        return false, pos, f;
      }
      if rest.Some? {
        rest := Some(rest.value[1..]);
        ItemsAt(raw, pos, Flat(rest.value));
      }
    }
    if pos >= |raw| {
      return false, pos, f;
    }
    return true, pos + 1, f;
  }

  // ----- the whole file -----

  /** On any bytes: at most 1024 distinct URLs. On the encoding of a dictionary: the first 1024 distinct
      URLs extracted from its keys and values. */
  method TrackerUrlsFromTorrent(trim: Trim, raw: seq<uint8>, ghost torrent: Option<seq<Pair>>) returns (out: seq<Url>)
    requires |raw| <= USIZE_MAX
    requires torrent.Some? ==> At(raw, 0, Encode(Dict(torrent.value)))
    ensures |out| <= MAX_TRACKER_URLS && Distinct(out)
    ensures torrent.Some? ==> out == Take(Dedup(Extracted(trim, Flat(torrent.value))), MAX_TRACKER_URLS)
  {
    ghost var rest: Option<seq<BValue>> := None;
    if torrent.Some? {
      FirstByte(Dict(torrent.value));
      TagAt(raw, 0, Dict(torrent.value));
      FlatEncodes(torrent.value);
      rest := Some(Flat(torrent.value));
      PushAllIsFirstDistinct(Extracted(trim, rest.value));
    }
    if raw == [] || raw[0] != TAG_DICT {
      return [];
    }
    var f := ScanFile(trim, raw, rest);
    out := f.out;
  }

  /** The main loop. */
  method ScanFile(trim: Trim, raw: seq<uint8>, ghost xs: Option<seq<BValue>>) returns (f: Found)
    requires 1 <= |raw| <= USIZE_MAX && (xs.Some? ==> Ahead(raw, 1, xs.value))
    ensures f.Valid() && (xs.Some? ==> f.out == PushAll([], Extracted(trim, xs.value)))
  {
    var pos := 1;
    f := Found({}, []);
    ghost var rest := xs;
    ghost var goal := if xs.Some? then PushAll([], Extracted(trim, xs.value)) else [];
    if xs.Some? {
      ItemsAt(raw, pos, rest.value);
    }
    while pos < |raw| && raw[pos] != TAG_END
      invariant pos <= |raw| && f.Valid() && (rest.Some? ==> xs.Some?)
      invariant xs.Some? && rest.Some? ==> Ahead(raw, pos, rest.value) && ItemsFollow(raw, pos, rest.value)
      invariant xs.Some? && rest.Some? ==> PushAll(f.out, Extracted(trim, rest.value)) == goal
      invariant xs.Some? && rest.None? ==> pos < |raw| && !IsDigit(raw[pos]) && f.out == goal
      decreases |raw| - pos
    {
      if rest.Some? {
        ExtractRound(trim, f.out, rest.value);
      }
      var more;
      more, pos, f := ScanPair(trim, raw, pos, f, rest);
      if !more {
        break;
      }
      if rest.Some? {
        rest := RoundOf(trim, rest.value).next;
        if rest.Some? {
          ItemsAt(raw, pos, rest.value);
        }
      }
    }
  }

  lemma ExtractRound(trim: Trim, out: seq<Url>, xs: seq<BValue>)
    ensures var r := RoundOf(trim, xs);
            PushAll(out, Extracted(trim, xs)) ==
            if r.next.None? then PushAll(out, r.urls) else PushAll(PushAll(out, r.urls), Extracted(trim, r.next.value))
  {
    var r := RoundOf(trim, xs);
    if r.next.Some? {
      PushAllConcat(out, r.urls, Extracted(trim, r.next.value));
    }
  }

  /** What one round of the main loop did. */
  ghost predicate RoundEnds(raw: seq<uint8>, r: Round, out: seq<Url>, more: bool, pos: nat, f: Found)
    requires pos <= |raw|
  {
    && f.out == PushAll(out, r.urls)
    && if r.next.Some? then more && Ahead(raw, pos, r.next.value)
       else more ==> pos < |raw| && !IsDigit(raw[pos])
  }

  /** One round of the scan: a key and what it stands for. */
  method ScanPair(trim: Trim, raw: seq<uint8>, start: nat, f0: Found, ghost xs: Option<seq<BValue>>)
    returns (more: bool, pos: nat, f: Found)
    requires start < |raw| <= USIZE_MAX && f0.Valid()
    requires xs.Some? ==> xs.value != [] && Ahead(raw, start, xs.value)
    ensures start <= pos <= |raw| && f.Valid()
    ensures more ==> start < pos
    ensures !IsDigit(raw[start]) ==> !more && f == f0
    ensures xs.Some? ==> RoundEnds(raw, RoundOf(trim, xs.value), f0.out, more, pos, f)
  {
    ghost var rest: Option<seq<BValue>> := None;
    if xs.Some? {
      KeyAhead(raw, start, xs.value);
      rest := Some(xs.value[1..]);
    }
    if !IsDigit(raw[start]) {
      StringAtOther(raw, start);
    }
    var key;
    key, pos := ParseBytes(raw, start);
    if key.None? {
      return false, pos, f0;
    }
    more, pos, f := ScanValue(trim, raw, pos, key.value, f0, rest);
  }

  /** A string in front of the cursor is read as a key; anything else is not. */
  lemma {:induction false} KeyAhead(raw: seq<uint8>, start: nat, xs: seq<BValue>)
    requires |raw| <= USIZE_MAX && xs != [] && Ahead(raw, start, xs)
    ensures start < |raw| && (IsDigit(raw[start]) <==> xs[0].Bytes?)
    ensures xs[0].Bytes? ==>
              var pos := start + |Encode(xs[0])|;
              StringAt(raw, start) == (Some(xs[0].b), pos) && Ahead(raw, pos, xs[1..])
  {
    AheadStep(raw, start, xs);
    StringOrNot(raw, start, xs[0]);
  }

  lemma {:induction false} AheadStep(raw: seq<uint8>, pos: nat, xs: seq<BValue>)
    requires xs != [] && Ahead(raw, pos, xs)
    ensures At(raw, pos, Encode(xs[0])) && Ahead(raw, pos + |Encode(xs[0])|, xs[1..])
  {
    ItemsAt(raw, pos, xs);
  }

  lemma {:induction false} StringOrNot(raw: seq<uint8>, start: nat, x: BValue)
    requires |raw| <= USIZE_MAX && At(raw, start, Encode(x))
    ensures start < |raw| && (IsDigit(raw[start]) <==> x.Bytes?)
    ensures x.Bytes? ==> StringAt(raw, start) == (Some(x.b), start + |Encode(x)|)
  {
    FirstByte(x);
    HeadAt(raw, start, Encode(x));
    if x.Bytes? {
      StringAtEncoded(raw, start, x.b);
    }
  }

  /** The value of a key, `rest` being the values still ahead. */
  method ScanValue(
    trim: Trim, raw: seq<uint8>, start: nat, key: seq<uint8>, f0: Found, ghost rest: Option<seq<BValue>>)
    returns (more: bool, pos: nat, f: Found)
    requires start <= |raw| <= USIZE_MAX && f0.Valid() && (rest.Some? ==> Ahead(raw, start, rest.value))
    ensures start <= pos <= |raw| && f.Valid()
    ensures rest.Some? ==> RoundEnds(raw, RoundFor(trim, key, rest.value), f0.out, more, pos, f)
  {
    if key == ANNOUNCE {
      more := true;
      pos, f := ScanFirst(trim, raw, start, f0, rest);
    } else if key == ANNOUNCE_LIST {
      more := true;
      pos, f := ScanList(trim, raw, start, f0, rest);
    } else {
      more, pos := ScanOther(trim, raw, start, key, f0, rest);
      f := f0;
    }
  }

  method ScanFirst(trim: Trim, raw: seq<uint8>, start: nat, f0: Found, ghost rest: Option<seq<BValue>>)
    returns (pos: nat, f: Found)
    requires start <= |raw| <= USIZE_MAX && f0.Valid() && (rest.Some? ==> Ahead(raw, start, rest.value))
    ensures start <= pos <= |raw| && f.Valid()
    ensures rest.Some? ==> RoundEnds(raw, RoundFor(trim, ANNOUNCE, rest.value), f0.out, true, pos, f)
  {
    if rest.Some? {
      ItemsAt(raw, start, rest.value);
    }
    pos, f := ScanAnnounce(trim, raw, start, f0, if rest.Some? && rest.value != [] then Some(rest.value[0]) else None);
  }

  method ScanList(trim: Trim, raw: seq<uint8>, start: nat, f0: Found, ghost rest: Option<seq<BValue>>)
    returns (pos: nat, f: Found)
    requires start <= |raw| <= USIZE_MAX && f0.Valid() && (rest.Some? ==> Ahead(raw, start, rest.value))
    ensures start <= pos <= |raw| && f.Valid()
    ensures rest.Some? ==> RoundEnds(raw, RoundFor(trim, ANNOUNCE_LIST, rest.value), f0.out, true, pos, f)
  {
    assert |ANNOUNCE| != |ANNOUNCE_LIST|;
    if rest.Some? {
      ItemsAt(raw, start, rest.value);
    }
    var ok;
    ok, pos, f := CollectTrackers(
      trim, raw, start, 0, f0, if rest.Some? && rest.value != [] then Some(rest.value[0]) else None);
  }

  method ScanOther(
    ghost trim: Trim, raw: seq<uint8>, start: nat, ghost key: seq<uint8>, ghost f0: Found,
    ghost rest: Option<seq<BValue>>)
    returns (more: bool, pos: nat)
    requires start <= |raw| <= USIZE_MAX && (rest.Some? ==> Ahead(raw, start, rest.value))
    requires key != ANNOUNCE && key != ANNOUNCE_LIST
    ensures start <= pos <= |raw|
    ensures rest.Some? ==> RoundEnds(raw, RoundFor(trim, key, rest.value), f0.out, more, pos, f0)
  {
    if rest.Some? {
      ItemsAt(raw, start, rest.value);
    }
    more, pos := SkipValue(raw, start, 0, if rest.Some? && rest.value != [] then Some(rest.value[0]) else None);
  }

  method ScanAnnounce(trim: Trim, raw: seq<uint8>, start: nat, f0: Found, ghost v: Option<BValue>)
    returns (pos: nat, f: Found)
    requires start <= |raw| <= USIZE_MAX && f0.Valid()
    requires v.Some? ==> At(raw, start, Encode(v.value))
    ensures start <= pos <= |raw| && f.Valid()
    ensures v.Some? && v.value.Bytes? ==>
              pos == start + |Encode(v.value)| && f.out == PushAll(f0.out, Nested(trim, v.value))
    ensures start < |raw| && !IsDigit(raw[start]) ==> f == f0 && pos == start
    ensures v.Some? && !v.value.Bytes? ==> start < |raw| && !IsDigit(raw[start])
  {
    if v.Some? {
      FirstByte(v.value);
      TagAt(raw, start, v.value);
      if v.value.Bytes? {
        StringAtEncoded(raw, start, v.value.b);
      }
    }
    if start < |raw| && !IsDigit(raw[start]) {
      StringAtOther(raw, start);
    }
    var value;
    value, pos := ParseBytes(raw, start);
    f := PushCleaned(trim, value, f0);
  }
}
