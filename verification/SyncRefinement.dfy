/** The paged sync agrees with the full-list sync (`sidecar/src/sync.rs`). */
module SyncRefinement {
  import opened Bytes
  import opened Collections
  import opened SyncFetch
  import opened Sync
  import opened SyncSafety

  // ----- the full-list tick -----

  ghost predicate RowsStored(rows: seq<RawTorrent>, ok: nat -> bool) {
    forall i :: 0 <= i < |rows| ==> ValidProjection(rows[i]) && ok(i)
  }

  /** Every row in the cache is one of the list's, filed under its own hash. */
  ghost predicate RowsFrom(cache: Cache, keys: set<Text>, list: seq<RawTorrent>) {
    forall h :: h in keys ==> h in cache && cache[h] in list && Key(cache[h]) == h
  }

  lemma {:induction false} StoreRowsErrors(a: Intake, rows: seq<RawTorrent>, ok: nat -> bool)
    ensures !StoreRows(a, rows, ok).errors <==> !a.errors && RowsStored(rows, ok)
    decreases |rows|
  {
    if rows == [] {
    } else {
      StoreRowsErrors(a, rows[..|rows| - 1], ok);
    }
  }

  lemma {:induction false} StoreRowsSets(a: Intake, rows: seq<RawTorrent>, ok: nat -> bool)
    ensures var b := StoreRows(a, rows, ok);
            && b.seen == a.seen + Keys(rows)
            && a.cache.Keys <= b.cache.Keys <= a.cache.Keys + Keys(rows)
    decreases |rows|
  {
    if rows == [] {
    } else {
      var n := |rows| - 1;
      StoreRowsSets(a, rows[..n], ok);
      KeysLast(rows, ok);
      StoreRowSets(a, StoreRows(a, rows[..n], ok), rows[n], ok(n), Keys(rows[..n]));
    }
  }

  lemma StoreRowSets(a: Intake, b: Intake, t: RawTorrent, ok: bool, keys: set<Text>)
    requires b.seen == a.seen + keys && a.cache.Keys <= b.cache.Keys <= a.cache.Keys + keys
    ensures var c, all := StoreRow(b, t, ok), keys + if ValidProjection(t) then {Key(t)} else {};
            c.seen == a.seen + all && a.cache.Keys <= c.cache.Keys <= a.cache.Keys + all
  {
  }

  lemma {:induction false} StoreRowsContents(a: Intake, rows: seq<RawTorrent>, ok: nat -> bool, list: seq<RawTorrent>)
    requires RowsStored(rows, ok) && forall t :: t in rows ==> t in list
    ensures RowsFrom(StoreRows(a, rows, ok).cache, Keys(rows), list)
    decreases |rows|
  {
    if rows == [] {
    } else {
      var n := |rows| - 1;
      StoreRowsContents(a, rows[..n], ok, list);
      KeysLast(rows, ok);
      StoreRowContents(StoreRows(a, rows[..n], ok), rows[n], Keys(rows[..n]), list);
    }
  }

  lemma StoreRowContents(b: Intake, t: RawTorrent, keys: set<Text>, list: seq<RawTorrent>)
    requires ValidProjection(t) && t in list && RowsFrom(b.cache, keys, list)
    ensures RowsFrom(StoreRow(b, t, true).cache, keys + {Key(t)}, list)
  {
  }

  /** A full pass deletes rows only if every torrent of its list was valid and stored, and then
      only known rows that the list does not have. Otherwise it deletes nothing. */
  lemma FullPassDeletes(cache: Cache, e: FullInput)
    ensures var r := TickFull(cache, e);
            && (r.deleted != {} ==> e.list.Some? && RowsStored(e.list.value, e.rowOk))
            && (e.list.Some? ==> r.deleted !! Keys(e.list.value))
            && r.deleted <= cache.Keys
            && (r.ok ==> e.list.Some? && RowsStored(e.list.value, e.rowOk))
  {
    if e.list.Some? {
      StoreRowsErrors(Intake({}, {}, false, cache), e.list.value, e.rowOk);
      StoreRowsSets(Intake({}, {}, false, cache), e.list.value, e.rowOk);
    }
  }

  // ----- a fault-free backend -----

  /** A tick's environment serves `list` under one token, without faults. The live summary may
      show any torrents of the list. */
  ghost predicate Serves(e: Input, list: seq<RawTorrent>, token: Option<nat>) {
    && e.foreign.None? && e.listingOk && e.countsOk && (forall h :: e.deleteOk(h))
    && e.summary.Some? && (forall t :: t in e.summary.value ==> t in list)
    && (forall i: nat :: e.summaryOk(i)) && (forall i: nat :: e.pageOk(i))
    && (forall o: nat, s :: ServesPage(e, list, token, o, s))
  }

  ghost predicate ServesPage(e: Input, list: seq<RawTorrent>, token: Option<nat>, o: nat, s: Option<nat>) {
    e.backend(o, PAGE_SIZE, s) == Page(Slice(list, o, PAGE_SIZE), token)
  }

  lemma KeysSubset(rows: seq<RawTorrent>, list: seq<RawTorrent>)
    requires forall t :: t in rows ==> t in list
    ensures Keys(rows) <= Keys(list)
  {
    forall h | h in Keys(rows)
      ensures h in Keys(list)
    {
      var i :| 0 <= i < |rows| && ValidProjection(rows[i]) && h == Key(rows[i]);
      assert rows[i] in list;
      var j :| 0 <= j < |list| && list[j] == rows[i];
    }
  }

  lemma {:induction false} TakeRowsContents(a: Intake, rows: seq<RawTorrent>, ok: nat -> bool, list: seq<RawTorrent>)
    requires RowsStored(rows, ok) && forall t :: t in rows ==> t in list
    requires RowsFrom(a.cache, a.touched, list)
    ensures var b := TakeRows(a, rows, ok);
            && RowsFrom(b.cache, b.touched, list)
            && (forall h :: h in a.cache && h !in b.touched ==> h in b.cache && b.cache[h] == a.cache[h])
    decreases |rows|
  {
    if rows == [] {
    } else {
      var n := |rows| - 1;
      TakeRowsContents(a, rows[..n], ok, list);
    }
  }

  lemma SliceRows(list: seq<RawTorrent>, o: nat, limit: nat)
    ensures var rows := Slice(list, o, limit);
            && (forall t :: t in rows ==> t in list)
            && (o <= |list| ==> list[..o] + rows == if o + limit <= |list| then list[..o + limit] else list)
            && |rows| == if o >= |list| then 0 else if o + limit >= |list| then |list| - o else limit
  {
  }

  lemma ServedFetch(s: State, e: Input, list: seq<RawTorrent>, token: Option<nat>)
    requires Serves(e, list, token) && s.offset >= 0 && (s.snapshot == None || s.snapshot == token)
    ensures var rows := Slice(list, s.offset, PAGE_SIZE);
            Fetched(s, e) == Fetch(rows, token, false, [Page(rows, token)])
  {
    assert ServesPage(e, list, token, s.offset, s.snapshot);
  }

  /** A served tick takes in the summary and its slice, and stores what it reports. */
  lemma ServedMiddle(s: State, e: Input, list: seq<RawTorrent>, token: Option<nat>)
    requires AllValid(list) && Serves(e, list, token)
    requires s.offset >= 0 && !s.hadErrors && (s.snapshot == None || s.snapshot == token)
    ensures var m := Middle(s, e);
            var news := Reported(s, e);
            var rows := Slice(list, s.offset, PAGE_SIZE);
            && Fetched(s, e).rows == rows && m.snapshot == token && !m.hadErrors
            && Keys(rows) <= news <= Keys(list)
            && m.seen == s.seen + news && m.cache.Keys == s.cache.Keys + news
            && RowsFrom(m.cache, news, list)
            && (forall h :: h in s.cache && h !in news ==> m.cache[h] == s.cache[h])
  {
    ServedFetch(s, e, list, token);
    var summary, rows := e.summary.value, Slice(list, s.offset, PAGE_SIZE);
    SliceRows(list, s.offset, PAGE_SIZE);
    RowsAreStored(summary, e.summaryOk, list);
    RowsAreStored(rows, e.pageOk, list);
    var a := Intake(s.seen, {}, false, s.cache);
    var b := TakeRows(a, summary, e.summaryOk);
    ServedRows(a, summary, e.summaryOk, list);
    ServedRows(b, rows, e.pageOk, list);
    var c := TakeRows(b, rows, e.pageOk);
    assert Gathered(s, e) == c;
    TwoReads(a, b, c, Keys(summary), Keys(rows), list);
  }

  /** Taking in two lots of keys, one after the other. */
  lemma TwoReads(a: Intake, b: Intake, c: Intake, first: set<Text>, second: set<Text>, list: seq<RawTorrent>)
    requires a.touched == {} && b.touched == first && c.touched == first + second
    requires b.seen == a.seen + first && c.seen == b.seen + second
    requires b.cache.Keys == a.cache.Keys + first && c.cache.Keys == b.cache.Keys + (second - first)
    requires RowsFrom(c.cache, c.touched, list)
    requires forall h :: h in a.cache && h !in b.touched ==> h in b.cache && b.cache[h] == a.cache[h]
    requires forall h :: h in b.cache && h !in c.touched ==> h in c.cache && c.cache[h] == b.cache[h]
    ensures var news := first + second;
            && c.seen == a.seen + news && c.cache.Keys == a.cache.Keys + news && RowsFrom(c.cache, news, list)
            && (forall h :: h in a.cache && h !in news ==> c.cache[h] == a.cache[h])
  {
  }

  lemma RowsAreStored(rows: seq<RawTorrent>, ok: nat -> bool, list: seq<RawTorrent>)
    requires AllValid(list) && (forall i: nat :: ok(i)) && forall t :: t in rows ==> t in list
    ensures RowsStored(rows, ok) && Keys(rows) <= Keys(list)
  {
    KeysSubset(rows, list);
    forall i | 0 <= i < |rows|
      ensures ValidProjection(rows[i])
    {
      assert rows[i] in list;
      var j :| 0 <= j < |list| && list[j] == rows[i];
    }
  }

  lemma ServedRows(a: Intake, rows: seq<RawTorrent>, ok: nat -> bool, list: seq<RawTorrent>)
    requires RowsStored(rows, ok) && (forall i: nat :: ok(i)) && forall t :: t in rows ==> t in list
    requires RowsFrom(a.cache, a.touched, list)
    ensures var b := TakeRows(a, rows, ok);
            && b.seen == a.seen + Keys(rows) && b.touched == a.touched + Keys(rows) && b.errors == a.errors
            && b.cache.Keys == a.cache.Keys + (Keys(rows) - a.touched)
            && RowsFrom(b.cache, b.touched, list)
            && (forall h :: h in a.cache && h !in b.touched ==> h in b.cache && b.cache[h] == a.cache[h])
  {
    TakeRowsContents(a, rows, ok, list);
    TakeRowsSets(a, rows, ok);
    TakeRowsErrors(a, rows, ok);
    TakeRowsCache(a, rows, ok);
    StoredAreReported(rows, ok);
    assert RowsClean(a.touched, rows, ok);
  }

  // ----- paging through the list -----

  /** Between two cycles; confirmations and cache may be anything. */
  predicate CycleReady(s: State) {
    s == State(0, None, {}, false, s.confirmations, s.cache)
  }

  /** The state after k served ticks of a cycle that began in s0. */
  ghost predicate Paging(s0: State, s: State, list: seq<RawTorrent>, token: Option<nat>, k: nat) {
    && s.offset == k * PAGE_SIZE <= |list|
    && s.snapshot == (if k == 0 then None else token) && !s.hadErrors && s.confirmations == s0.confirmations
    && Keys(list[..k * PAGE_SIZE]) <= s.seen <= Keys(list)
    && s.cache.Keys == s0.cache.Keys + s.seen
    && RowsFrom(s.cache, s.seen, list)
  }

  lemma KeysJoin(a: seq<RawTorrent>, b: seq<RawTorrent>)
    ensures Keys(a + b) == Keys(a) + Keys(b)
    decreases |b|
  {
    if b == [] {
      assert a + b == a;
    } else {
      var n := |b| - 1;
      KeysJoin(a, b[..n]);
      KeysAppend(b[..n], b[n], _ => true);
      KeysAppend(a + b[..n], b[n], _ => true);
      assert a + b == a + b[..n] + [b[n]] && b == b[..n] + [b[n]];
    }
  }

  /** What the reads of the next tick bring. */
  lemma PagingMiddle(s0: State, s: State, e: Input, list: seq<RawTorrent>, token: Option<nat>, k: nat)
    requires AllValid(list) && Serves(e, list, token) && Paging(s0, s, list, token, k)
    ensures var m := Middle(s, e);
            && (AtEnd(s, e) <==> k == |list| / PAGE_SIZE)
            && m.snapshot == token && !m.hadErrors && m.confirmations == s0.confirmations && m.offset == s.offset
            && Keys(if AtEnd(s, e) then list else list[..(k + 1) * PAGE_SIZE]) <= m.seen <= Keys(list)
            && m.cache.Keys == s0.cache.Keys + m.seen
            && RowsFrom(m.cache, m.seen, list)
  {
    ServedMiddle(s, e, list, token);
    NextPage(list, k);
  }

  lemma NextPage(list: seq<RawTorrent>, k: nat)
    requires k * PAGE_SIZE <= |list|
    ensures var rows := Slice(list, k * PAGE_SIZE, PAGE_SIZE);
            var atEnd := |rows| < PAGE_SIZE;
            && (atEnd <==> k == |list| / PAGE_SIZE)
            && (!atEnd ==> (k + 1) * PAGE_SIZE <= |list|)
            && Keys(list[..k * PAGE_SIZE]) + Keys(rows) == Keys(if atEnd then list else list[..(k + 1) * PAGE_SIZE])
  {
    SliceRows(list, k * PAGE_SIZE, PAGE_SIZE);
    KeysJoin(list[..k * PAGE_SIZE], Slice(list, k * PAGE_SIZE, PAGE_SIZE));
  }

  /** A tick before the end of the list goes on to the next page. */
  lemma PagingTick(s0: State, s: State, e: Input, list: seq<RawTorrent>, token: Option<nat>, k: nat)
    requires AllValid(list) && |list| + PAGE_SIZE <= I64_MAX
    requires Serves(e, list, token) && Paging(s0, s, list, token, k) && k < |list| / PAGE_SIZE
    ensures OutcomeOf(s, e).Continued? && Paging(s0, Tick(s, e), list, token, k + 1)
  {
    PagingMiddle(s0, s, e, list, token, k);
  }

  /** Rows of the cache that the backend does not have. */
  ghost function Stale(s: State, list: seq<RawTorrent>): set<Text> {
    s.cache.Keys - Keys(list)
  }

  /** The tick at the end of the list completes the cycle: with a token all stale rows go; without
      one those go that were waiting, and the others wait. */
  ghost predicate CycleDone(s0: State, s: State, list: seq<RawTorrent>, token: Option<nat>) {
    var left := if token.Some? then {} else Stale(s0, list) - s0.confirmations;
    && CycleReady(s) && s.confirmations == left
    && s.cache.Keys == Keys(list) + left
    && RowsFrom(s.cache, Keys(list), list)
  }

  /** What is deleted, what waits and what stays, as sets: `held` cached before the cycle, `live` on the list. */
  lemma StaleSets(held: set<Text>, live: set<Text>, stable: bool, confirmations: set<Text>)
    ensures var missing := held + live - live;
            var due := if stable then missing else missing * confirmations;
            var left := if stable then {} else held - live - confirmations;
            missing - due == left && held + live - due == live + left && due !! live
  {
  }

  lemma EndOfList(s0: State, m: State, e: Input, list: seq<RawTorrent>, token: Option<nat>)
    requires |m.cache| <= MAX_SYNC_CACHE_ENTRIES
    requires e.listingOk && e.countsOk && (forall h :: e.deleteOk(h))
    requires m.snapshot == token && !m.hadErrors && m.confirmations == s0.confirmations && m.seen == Keys(list)
    requires m.cache.Keys == s0.cache.Keys + Keys(list) && RowsFrom(m.cache, Keys(list), list)
    ensures EndOutcome(m, e).Completed? && CycleDone(s0, EndState(m, e), list, token)
  {
    QuietCleanup(m, e);
    StaleSets(s0.cache.Keys, Keys(list), token.Some?, s0.confirmations);
    assert (m.cache - CleanupAt(m, e).deleted).Keys == m.cache.Keys - CleanupAt(m, e).deleted;
  }

  lemma LastTick(s0: State, s: State, e: Input, list: seq<RawTorrent>, token: Option<nat>)
    requires AllValid(list) && |s0.cache.Keys + Keys(list)| <= MAX_SYNC_CACHE_ENTRIES
    requires Serves(e, list, token) && Paging(s0, s, list, token, |list| / PAGE_SIZE)
    ensures OutcomeOf(s, e).Completed? && CycleDone(s0, Tick(s, e), list, token)
  {
    PagingMiddle(s0, s, e, list, token, |list| / PAGE_SIZE);
    var m := Middle(s, e);
    assert m.seen == Keys(list) && |m.cache| == |m.cache.Keys|;
    EndOfList(s0, m, e, list, token);
  }

  // ----- whole cycles -----

  function Run(s: State, es: seq<Input>): State
    decreases |es|
  {
    if es == [] then s else Run(Tick(s, es[0]), es[1..])
  }

  ghost predicate AllServe(es: seq<Input>, list: seq<RawTorrent>, token: Option<nat>) {
    forall i :: 0 <= i < |es| ==> Serves(es[i], list, token)
  }

  /** The ticks of a cycle: all but the last go on, the last completes. */
  ghost predicate OneCycle(s: State, es: seq<Input>)
    decreases |es|
  {
    && es != []
    && if |es| == 1 then OutcomeOf(s, es[0]).Completed?
       else OutcomeOf(s, es[0]).Continued? && OneCycle(Tick(s, es[0]), es[1..])
  }

  lemma {:induction false} RestOfCycle(
    s0: State, s: State, es: seq<Input>, list: seq<RawTorrent>, token: Option<nat>, k: nat)
    requires AllValid(list) && |list| + PAGE_SIZE <= I64_MAX
    requires |s0.cache.Keys + Keys(list)| <= MAX_SYNC_CACHE_ENTRIES
    requires AllServe(es, list, token) && Paging(s0, s, list, token, k) && k + |es| == |list| / PAGE_SIZE + 1
    ensures OneCycle(s, es) && CycleDone(s0, Run(s, es), list, token)
    decreases |es|
  {
    ServeTail(es, list, token);
    if |es| == 1 {
      LastTick(s0, s, es[0], list, token);
    } else {
      PagingTick(s0, s, es[0], list, token, k);
      RestOfCycle(s0, Tick(s, es[0]), es[1..], list, token, k + 1);
    }
  }

  lemma ServeTail(es: seq<Input>, list: seq<RawTorrent>, token: Option<nat>)
    requires es != [] && AllServe(es, list, token)
    ensures Serves(es[0], list, token) && AllServe(es[1..], list, token)
  {
  }

  lemma PagingStart(s: State, list: seq<RawTorrent>, token: Option<nat>)
    requires CycleReady(s)
    ensures Paging(s, s, list, token, 0)
  {
    assert list[..0] == [];
  }

  /** Over a fixed, valid, fault-free list of n torrents a cycle takes exactly n / 100 + 1 ticks. */
  lemma CycleLength(s: State, es: seq<Input>, list: seq<RawTorrent>, token: Option<nat>)
    requires AllValid(list) && |list| + PAGE_SIZE <= I64_MAX
    requires CycleReady(s) && |s.cache.Keys + Keys(list)| <= MAX_SYNC_CACHE_ENTRIES
    requires AllServe(es, list, token) && |es| == |list| / PAGE_SIZE + 1
    ensures OneCycle(s, es) && CycleDone(s, Run(s, es), list, token)
  {
    PagingStart(s, list, token);
    RestOfCycle(s, s, es, list, token, 0);
  }

  /** The full pass over the same list. */
  ghost predicate FullServes(e: FullInput, list: seq<RawTorrent>) {
    e.list == Some(list) && e.listingOk && (forall i: nat :: e.rowOk(i)) && (forall h :: e.deleteOk(h))
  }

  lemma FullPassResult(cache: Cache, e: FullInput, list: seq<RawTorrent>)
    requires AllValid(list) && |list| <= MAX_LEGACY_FULL_SYNC_ENTRIES && FullServes(e, list)
    requires |cache.Keys + Keys(list)| <= MAX_SYNC_CACHE_ENTRIES
    ensures var r := TickFull(cache, e); r.ok && r.cache.Keys == Keys(list) && RowsFrom(r.cache, Keys(list), list)
  {
    var a := StoreRows(Intake({}, {}, false, cache), list, e.rowOk);
    StoredAll(cache, list, e.rowOk);
    CleanupAfterAll(cache, a, e, list);
  }

  /** A list taken in without fault. */
  ghost predicate AllStored(cache: Cache, a: Intake, list: seq<RawTorrent>) {
    && !a.errors && a.seen == Keys(list) && a.cache.Keys == cache.Keys + Keys(list)
    && RowsFrom(a.cache, Keys(list), list)
  }

  lemma StoredAll(cache: Cache, list: seq<RawTorrent>, ok: nat -> bool)
    requires AllValid(list) && forall i: nat :: ok(i)
    ensures AllStored(cache, StoreRows(Intake({}, {}, false, cache), list, ok), list)
  {
    var a := Intake({}, {}, false, cache);
    StoreRowsErrors(a, list, ok);
    StoreRowsSets(a, list, ok);
    StoreRowsContents(a, list, ok, list);
  }

  lemma CleanupAfterAll(cache: Cache, a: Intake, e: FullInput, list: seq<RawTorrent>)
    requires e.listingOk && (forall h :: e.deleteOk(h)) && AllStored(cache, a, list)
    requires |cache.Keys + Keys(list)| <= MAX_SYNC_CACHE_ENTRIES
    ensures var r := FullCleanup(a, e); r.ok && r.cache.Keys == Keys(list) && RowsFrom(r.cache, Keys(list), list)
  {
    assert |a.cache| == |a.cache.Keys|;
    assert Deletable(a.cache.Keys - a.seen, e.deleteOk) == a.cache.Keys - a.seen;
  }

  /** Every torrent of the list has its own hash. */
  ghost predicate UniqueKeys(list: seq<RawTorrent>) {
    forall i, j :: 0 <= i < j < |list| ==> Key(list[i]) != Key(list[j])
  }

  lemma SameRows(a: Cache, b: Cache, list: seq<RawTorrent>)
    requires a.Keys == Keys(list) && RowsFrom(a, Keys(list), list)
    requires b.Keys == Keys(list) && RowsFrom(b, Keys(list), list)
    requires UniqueKeys(list)
    ensures a == b
  {
    forall h | h in a
      ensures a[h] == b[h]
    {
      var i :| 0 <= i < |list| && list[i] == a[h];
      var j :| 0 <= j < |list| && list[j] == b[h];
    }
  }

  /** With snapshot tokens one paged cycle leaves exactly the torrents of the list cached, and the
      same cache as one full pass. */
  lemma PagedRefinesFull(s: State, es: seq<Input>, e: FullInput, list: seq<RawTorrent>, token: Option<nat>)
    requires AllValid(list) && |list| <= MAX_LEGACY_FULL_SYNC_ENTRIES && token.Some?
    requires CycleReady(s) && |s.cache.Keys + Keys(list)| <= MAX_SYNC_CACHE_ENTRIES
    requires AllServe(es, list, token) && |es| == |list| / PAGE_SIZE + 1 && FullServes(e, list)
    ensures Run(s, es).cache.Keys == TickFull(s.cache, e).cache.Keys == Keys(list)
    ensures UniqueKeys(list) ==> Run(s, es).cache == TickFull(s.cache, e).cache
  {
    CycleLength(s, es, list, token);
    AfterPinnedCycle(s, Run(s, es), list, token);
    FullPassResult(s.cache, e, list);
    if UniqueKeys(list) {
      SameRows(Run(s, es).cache, TickFull(s.cache, e).cache, list);
    }
  }

  /** Without tokens two paged cycles do. */
  lemma PagedRefinesFullWithoutTokens(s: State, es: seq<Input>, fs: seq<Input>, e: FullInput, list: seq<RawTorrent>)
    requires AllValid(list) && |list| <= MAX_LEGACY_FULL_SYNC_ENTRIES
    requires CycleReady(s) && |s.cache.Keys + Keys(list)| <= MAX_SYNC_CACHE_ENTRIES
    requires AllServe(es, list, None) && AllServe(fs, list, None) && FullServes(e, list)
    requires |es| == |fs| == |list| / PAGE_SIZE + 1
    ensures Run(Run(s, es), fs).cache.Keys == TickFull(s.cache, e).cache.Keys == Keys(list)
    ensures UniqueKeys(list) ==> Run(Run(s, es), fs).cache == TickFull(s.cache, e).cache
  {
    CycleLength(s, es, list, None);
    var s1 := Run(s, es);
    AfterFirstCycle(s, s1, list);
    CycleLength(s1, fs, list, None);
    AfterSecondCycle(s, s1, Run(s1, fs), list);
    FullPassResult(s.cache, e, list);
    if UniqueKeys(list) {
      SameRows(Run(s1, fs).cache, TickFull(s.cache, e).cache, list);
    }
  }

  lemma AfterPinnedCycle(s: State, s1: State, list: seq<RawTorrent>, token: Option<nat>)
    requires CycleDone(s, s1, list, token) && token.Some?
    ensures s1.cache.Keys == Keys(list) && RowsFrom(s1.cache, Keys(list), list)
  {
  }

  lemma AfterFirstCycle(s: State, s1: State, list: seq<RawTorrent>)
    requires CycleDone(s, s1, list, None)
    ensures |s1.cache.Keys + Keys(list)| <= |s.cache.Keys + Keys(list)|
  {
    SubsetSize(s1.cache.Keys + Keys(list), s.cache.Keys + Keys(list));
  }

  /** What the first cycle leaves waiting the second removes. */
  lemma AfterSecondCycle(s: State, s1: State, s2: State, list: seq<RawTorrent>)
    requires CycleDone(s, s1, list, None) && CycleDone(s1, s2, list, None)
    ensures s2.cache.Keys == Keys(list) && RowsFrom(s2.cache, Keys(list), list)
  {
    assert Stale(s1, list) <= s1.confirmations;
  }

  // ----- recovery -----

  /** The cycle that s is in began under another token. */
  predicate OtherSnapshot(s: State, token: Option<nat>) {
    s.snapshot.Some? && s.snapshot != token
  }

  /** How many served ticks end the cycle that s is in. */
  function TicksLeft(s: State, list: seq<RawTorrent>, token: Option<nat>): nat {
    if OtherSnapshot(s, token) || s.offset >= |list| then 1 else (|list| - s.offset) / PAGE_SIZE + 1
  }

  lemma ServedPage(s: State, e: Input, list: seq<RawTorrent>, token: Option<nat>)
    requires Serves(e, list, token) && s.offset >= 0
    ensures Fetched(s, e).rows == if OtherSnapshot(s, token) then [] else Slice(list, s.offset, PAGE_SIZE)
    ensures AtEnd(s, e) <==> TicksLeft(s, list, token) == 1
  {
    assert ServesPage(e, list, token, s.offset, s.snapshot);
    SliceRows(list, s.offset, PAGE_SIZE);
  }

  /** A served tick adds only torrents of the list to the cache, whatever state it begins in. */
  lemma ServedKeys(s: State, e: Input, list: seq<RawTorrent>, token: Option<nat>)
    requires Serves(e, list, token) && s.offset >= 0
    ensures Middle(s, e).cache.Keys <= s.cache.Keys + Keys(list)
  {
    GatheredFacts(s, e);
    ServedPage(s, e, list, token);
    SliceRows(list, s.offset, PAGE_SIZE);
    KeysSubset(e.summary.value, list);
    KeysSubset(Fetched(s, e).rows, list);
  }

  lemma ServedEnd(m: State, e: Input)
    requires e.listingOk && e.countsOk
    ensures EndOutcome(m, e).Completed? && CycleReady(EndState(m, e)) && EndState(m, e).cache.Keys <= m.cache.Keys
  {
  }

  /** One served tick from any state: on to the next page, or the end of the cycle. */
  lemma RecoveryTick(s: State, e: Input, list: seq<RawTorrent>, token: Option<nat>)
    requires |list| + PAGE_SIZE <= I64_MAX && Serves(e, list, token) && s.offset >= 0
    ensures var t, left := Tick(s, e), TicksLeft(s, list, token);
            && t.offset >= 0 && t.cache.Keys <= s.cache.Keys + Keys(list)
            && if left == 1 then OutcomeOf(s, e).Completed? && CycleReady(t)
               else OutcomeOf(s, e).Continued? && TicksLeft(t, list, token) == left - 1
  {
    ServedKeys(s, e, list, token);
    ServedPage(s, e, list, token);
    if AtEnd(s, e) {
      ServedEnd(Middle(s, e), e);
    } else {
      ServedFetch(s, e, list, token);
    }
  }

  /** From any state the current cycle ends once the list is served, within as many ticks as a cycle has. */
  lemma {:induction false} CycleEnds(s: State, es: seq<Input>, list: seq<RawTorrent>, token: Option<nat>)
    requires |list| + PAGE_SIZE <= I64_MAX && s.offset >= 0
    requires AllServe(es, list, token) && |es| == TicksLeft(s, list, token)
    ensures |es| <= |list| / PAGE_SIZE + 1
    ensures OneCycle(s, es) && CycleReady(Run(s, es)) && Run(s, es).cache.Keys <= s.cache.Keys + Keys(list)
    decreases |es|
  {
    ServeTail(es, list, token);
    RecoveryTick(s, es[0], list, token);
    if |es| == 1 {
    } else {
      CycleEnds(Tick(s, es[0]), es[1..], list, token);
    }
  }

  lemma RecoveredBound(s: State, s1: State, list: seq<RawTorrent>)
    requires s1.cache.Keys <= s.cache.Keys + Keys(list)
    ensures |s1.cache.Keys + Keys(list)| <= |s.cache.Keys + Keys(list)|
  {
    SubsetSize(s1.cache.Keys + Keys(list), s.cache.Keys + Keys(list));
  }

  /** The full sync takes the list, and its torrents have a hash of their own each. */
  ghost predicate FullPassOf(e: FullInput, list: seq<RawTorrent>) {
    FullServes(e, list) && |list| <= MAX_LEGACY_FULL_SYNC_ENTRIES && UniqueKeys(list)
  }

  lemma AsFullPass(before: Cache, after: Cache, e: FullInput, list: seq<RawTorrent>)
    requires AllValid(list) && |before.Keys + Keys(list)| <= MAX_SYNC_CACHE_ENTRIES
    requires after.Keys == Keys(list) && RowsFrom(after, Keys(list), list)
    ensures FullPassOf(e, list) ==> after == TickFull(before, e).cache
  {
    if FullPassOf(e, list) {
      FullPassResult(before, e, list);
      SameRows(after, TickFull(before, e).cache, list);
    }
  }

  /** Whatever came before, once the list is served under a token the current cycle ends and the next one
      leaves the torrents of the list cached. */
  lemma Recovery(
    s: State, es: seq<Input>, fs: seq<Input>, list: seq<RawTorrent>, token: Option<nat>, e: FullInput)
    requires AllValid(list) && |list| + PAGE_SIZE <= I64_MAX && token.Some?
    requires s.offset >= 0 && |s.cache.Keys + Keys(list)| <= MAX_SYNC_CACHE_ENTRIES
    requires AllServe(es, list, token) && |es| == TicksLeft(s, list, token)
    requires AllServe(fs, list, token) && |fs| == |list| / PAGE_SIZE + 1
    ensures Run(Run(s, es), fs).cache.Keys == Keys(list)
    ensures FullPassOf(e, list) ==> Run(Run(s, es), fs).cache == TickFull(s.cache, e).cache
  {
    CycleEnds(s, es, list, token);
    var s1 := Run(s, es);
    RecoveredBound(s, s1, list);
    CycleLength(s1, fs, list, token);
    AfterPinnedCycle(s1, Run(s1, fs), list, token);
    AsFullPass(s.cache, Run(s1, fs).cache, e, list);
  }

  /** Without tokens the next two do. */
  lemma RecoveryWithoutTokens(
    s: State, es: seq<Input>, fs: seq<Input>, gs: seq<Input>, list: seq<RawTorrent>, e: FullInput)
    requires AllValid(list) && |list| + PAGE_SIZE <= I64_MAX
    requires s.offset >= 0 && |s.cache.Keys + Keys(list)| <= MAX_SYNC_CACHE_ENTRIES
    requires AllServe(es, list, None) && |es| == TicksLeft(s, list, None)
    requires AllServe(fs, list, None) && AllServe(gs, list, None) && |fs| == |gs| == |list| / PAGE_SIZE + 1
    ensures Run(Run(Run(s, es), fs), gs).cache.Keys == Keys(list)
    ensures FullPassOf(e, list) ==> Run(Run(Run(s, es), fs), gs).cache == TickFull(s.cache, e).cache
  {
    CycleEnds(s, es, list, None);
    var s1 := Run(s, es);
    RecoveredBound(s, s1, list);
    CycleLength(s1, fs, list, None);
    var s2 := Run(s1, fs);
    AfterFirstCycle(s1, s2, list);
    CycleLength(s2, gs, list, None);
    AfterSecondCycle(s1, s2, Run(s2, gs), list);
    AsFullPass(s.cache, Run(s2, gs).cache, e, list);
  }

  /** The offset of a state that the sync reaches is never negative. */
  lemma {:induction false} OffsetsReached(s: State, es: seq<Input>)
    requires s.offset >= 0
    ensures Run(s, es).offset >= 0
    decreases |es|
  {
    if es == [] {
    } else {
      OffsetsReached(Tick(s, es[0]), es[1..]);
    }
  }
}
