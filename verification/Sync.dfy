/** Torrent synchronisation into the compatibility cache (`sidecar/src/sync.rs`).
    The cache is a map keyed by logical hash: the cache resolves every spelling of a hash to the one
    row it keeps for it (`sidecar/src/cache/db.rs`). What a tick meets from outside (backend answers,
    persistence failures, rows written by others) is its `Input`. */
module Sync {
  import opened Bytes
  import opened Collections
  import opened SyncFetch

  type Text = seq<uint8>

  const PAGE_SIZE: nat := 100
  const MAX_SYNC_CACHE_ENTRIES: nat := 100_000
  const MAX_LEGACY_FULL_SYNC_ENTRIES: nat := 10_000

  // ----- torrents -----

  datatype RawTorrent = RawTorrent(
    hash: Text, name: Text, category: Text, basePath: Text, directory: Text,
    trackerUrl: Text, message: Text, tags: Text,
    sizeBytes: int, bytesDone: int, downRate: int, upRate: int, upTotal: int, downTotal: int,
    ratio: int, priority: int, peersConnected: int, peersComplete: int)

  predicate IsValidInfoHash(hash: Text) {
    (|hash| == 40 || |hash| == 64) && forall i :: 0 <= i < |hash| ==> IsHex(hash[i])
  }

  /** `validate_torrent_projection`. */
  predicate ValidProjection(t: RawTorrent) {
    && IsValidInfoHash(t.hash)
    && |t.name| <= 8 * 1024 && |t.category| <= 256 && |t.basePath| <= 4 * 1024 && |t.directory| <= 4 * 1024
    && |t.trackerUrl| <= 8 * 1024 && |t.message| <= 8 * 1024 && |t.tags| <= 512 * 1024
    && t.sizeBytes >= 0 && t.downRate >= 0 && t.upRate >= 0 && t.upTotal >= 0 && t.downTotal >= 0
    && t.ratio >= 0 && t.priority >= 0 && t.peersConnected >= 0 && t.peersComplete >= 0
    && 0 <= t.bytesDone <= t.sizeBytes
  }

  /** The logical hash: every spelling of an info hash in lower case. */
  function Key(t: RawTorrent): Text {
    Lower(t.hash)
  }

  type Cache = map<Text, RawTorrent>

  /** Logical hashes of the valid rows. */
  function Keys(rows: seq<RawTorrent>): set<Text> {
    set i | 0 <= i < |rows| && ValidProjection(rows[i]) :: Key(rows[i])
  }

  predicate AllValid(rows: seq<RawTorrent>) {
    forall i :: 0 <= i < |rows| ==> ValidProjection(rows[i])
  }

  // ----- taking in rows -----

  /** What a tick accumulates: hashes reported in this cycle, hashes stored in this tick, the
      cycle's error flag, the cache. */
  datatype Intake = Intake(seen: set<Text>, touched: set<Text>, errors: bool, cache: Cache)

  /** One row; `ok` tells whether the cache accepts it if it is offered. */
  function TakeRow(a: Intake, t: RawTorrent, ok: bool): Intake {
    if !ValidProjection(t) then a.(errors := true)
    else
      var h := Key(t);
      var b := a.(seen := a.seen + {h});
      if h in a.touched then b
      else if ok then b.(touched := a.touched + {h}, cache := a.cache[h := t])
      else b.(errors := true)
  }

  function TakeRows(a: Intake, rows: seq<RawTorrent>, ok: nat -> bool): Intake {
    if rows == [] then a
    else TakeRow(TakeRows(a, rows[..|rows| - 1], ok), rows[|rows| - 1], ok(|rows| - 1))
  }

  // ----- the state of the paged sync -----

  datatype State = State(
    offset: int, snapshot: Option<nat>, seen: set<Text>, hadErrors: bool, confirmations: set<Text>, cache: Cache)

  /** Hashes as the bounded listing returns them: its query is limited (`sidecar/src/cache/db.rs`). */
  type Listing = s: set<Text> | |s| <= MAX_SYNC_CACHE_ENTRIES

  /** Everything a tick meets from outside.
      foreign: the cache as other writers left it, if they changed it since the last tick;
      summary: the live summary, or nothing if it failed;
      summaryOk, pageOk: whether the cache accepts the i-th row when it is offered;
      listed: which hashes the bounded listing returns once the cache exceeds the bound. */
  datatype Input = Input(
    foreign: Option<Cache>, summary: Option<seq<RawTorrent>>, summaryOk: nat -> bool,
    backend: Backend<RawTorrent>, pageOk: nat -> bool,
    listingOk: bool, listed: Listing, deleteOk: Text -> bool, countsOk: bool)

  /** How a tick ended. ListingFailed, CountsFailed: at the end of the list, but left before the cycle
      is reset because that read failed. Exhausted: the next offset does not fit an i64. */
  datatype Outcome = Continued | Completed | ListingFailed | CountsFailed | Exhausted

  function Fetched(s: State, e: Input): Fetch<RawTorrent> {
    FetchRange(e.backend, s.offset, PAGE_SIZE, s.snapshot)
  }

  function CacheBefore(s: State, e: Input): Cache {
    if e.foreign.Some? then e.foreign.value else s.cache
  }

  /** The live summary taken in. */
  function AfterSummary(s: State, e: Input): Intake {
    var a := Intake(s.seen, {}, s.hadErrors || e.summary.None?, CacheBefore(s, e));
    if e.summary.Some? then TakeRows(a, e.summary.value, e.summaryOk) else a
  }

  /** The page taken in, on top of b. */
  function AfterPage(s: State, e: Input, b: Intake): Intake {
    var f := Fetched(s, e);
    var wrongSnapshot := s.snapshot.Some? && f.token != s.snapshot;
    TakeRows(b.(errors := b.errors || f.hadErrors || wrongSnapshot), f.rows, e.pageOk)
  }

  /** Both reads of a tick taken in. */
  function Gathered(s: State, e: Input): Intake {
    AfterPage(s, e, AfterSummary(s, e))
  }

  function PinnedSnapshot(s: State, e: Input): Option<nat> {
    if s.snapshot.None? then Fetched(s, e).token else s.snapshot
  }

  /** The bounded hash listing: everything up to the bound, and some of it beyond. */
  function Known(cache: Cache, listed: Listing): set<Text> {
    if |cache| <= MAX_SYNC_CACHE_ENTRIES then cache.Keys else cache.Keys * listed
  }

  /** The listing never exceeds its bound, so the check for that behind it cannot fail. */
  lemma ListingBounded(cache: Cache, listed: Listing)
    ensures |Known(cache, listed)| <= MAX_SYNC_CACHE_ENTRIES
  {
    if |cache| <= MAX_SYNC_CACHE_ENTRIES {
      assert |cache.Keys| == |cache|;
    } else {
      SubsetSize(cache.Keys * listed, listed);
    }
  }

  /** The hashes whose deletion succeeds. */
  function Deletable(due: set<Text>, deleteOk: Text -> bool): set<Text> {
    set h | h in due && deleteOk(h)
  }

  /** Removal of hashes the cycle did not report: what is due, what is deleted, what waits. */
  datatype Cleanup = Cleanup(due: set<Text>, deleted: set<Text>, waiting: set<Text>)

  function CleanupOf(
    known: set<Text>, seen: set<Text>, stable: bool, confirmations: set<Text>, deleteOk: Text -> bool): Cleanup
  {
    var missing := known - seen;
    var due := if stable then missing else missing * confirmations;
    Cleanup(due, Deletable(due, deleteOk), missing - due)
  }

  /** The state once both reads are taken in. */
  function Middle(s: State, e: Input): State {
    var a := Gathered(s, e);
    State(s.offset, PinnedSnapshot(s, e), a.seen, a.errors, s.confirmations, a.cache)
  }

  /** A short page ends the list. */
  predicate AtEnd(s: State, e: Input) {
    |Fetched(s, e).rows| < PAGE_SIZE
  }

  // At the end of the list, `m` being the state after both reads:

  function CleanupAt(m: State, e: Input): Cleanup {
    if !m.hadErrors && e.listingOk
    then CleanupOf(Known(m.cache, e.listed), m.seen, m.snapshot.Some?, m.confirmations, e.deleteOk)
    else Cleanup({}, {}, {})
  }

  function EndOutcome(m: State, e: Input): Outcome {
    if m.hadErrors then Completed
    else if !e.listingOk then ListingFailed
    else if CleanupAt(m, e).due == CleanupAt(m, e).deleted && !e.countsOk then CountsFailed
    else Completed
  }

  function EndState(m: State, e: Input): State {
    var c := CleanupAt(m, e);
    match EndOutcome(m, e)
    case ListingFailed => m
    case CountsFailed => m.(confirmations := c.waiting, cache := m.cache - c.deleted)
    case _ => State(0, None, {}, false, c.waiting, m.cache - c.deleted)
  }

  // One tick:

  function OutcomeOf(s: State, e: Input): Outcome {
    if AtEnd(s, e) then EndOutcome(Middle(s, e), e)
    else if CheckedAdd(s.offset, PAGE_SIZE).None? then Exhausted
    else Continued
  }

  function Deleted(s: State, e: Input): set<Text> {
    if AtEnd(s, e) then CleanupAt(Middle(s, e), e).deleted else {}
  }

  function Tick(s: State, e: Input): State {
    var m := Middle(s, e);
    if AtEnd(s, e) then EndState(m, e)
    else if CheckedAdd(s.offset, PAGE_SIZE).None? then State(0, None, {}, false, m.confirmations, m.cache)
    else m.(offset := m.offset + PAGE_SIZE)
  }

  /** `tick_full`: one unbounded list per tick. Returns the cache and whether the tick succeeded. */
  datatype FullInput = FullInput(
    list: Option<seq<RawTorrent>>, rowOk: nat -> bool, listingOk: bool, listed: Listing, deleteOk: Text -> bool)

  datatype FullResult = FullResult(cache: Cache, deleted: set<Text>, ok: bool)

  function StoreRow(a: Intake, t: RawTorrent, ok: bool): Intake {
    if !ValidProjection(t) then a.(errors := true)
    else if ok then a.(seen := a.seen + {Key(t)}, cache := a.cache[Key(t) := t])
    else a.(seen := a.seen + {Key(t)}, errors := true)
  }

  /** Every valid row is stored, in order. */
  function StoreRows(a: Intake, rows: seq<RawTorrent>, ok: nat -> bool): Intake {
    if rows == [] then a
    else StoreRow(StoreRows(a, rows[..|rows| - 1], ok), rows[|rows| - 1], ok(|rows| - 1))
  }

  /** Once the list is stored: stale rows go if nothing went wrong. */
  function FullCleanup(a: Intake, e: FullInput): FullResult {
    if a.errors || !e.listingOk then FullResult(a.cache, {}, false)
    else
      var due := Known(a.cache, e.listed) - a.seen;
      var deleted := Deletable(due, e.deleteOk);
      FullResult(a.cache - deleted, deleted, due == deleted)
  }

  function TickFull(cache: Cache, e: FullInput): FullResult {
    if e.list.None? || |e.list.value| > MAX_LEGACY_FULL_SYNC_ENTRIES then FullResult(cache, {}, false)
    else FullCleanup(StoreRows(Intake({}, {}, false, cache), e.list.value, e.rowOk), e)
  }

  lemma MinusTwice(cache: Cache, a: set<Text>, h: Text)
    ensures cache - a - {h} == cache - (a + {h})
  {
  }

  // ----- the sync object -----

  class BoundedSync {
    var pageOffset: int
    var snapshot: Option<nat>
    var fullCycleSeen: set<Text>
    var fullCycleHadErrors: bool
    var missingConfirmations: set<Text>
    var cache: Cache

    constructor (cache: Cache)
      ensures Value() == State(0, None, {}, false, {}, cache)
    {
      pageOffset, snapshot, fullCycleSeen, fullCycleHadErrors, missingConfirmations := 0, None, {}, false, {};
      this.cache := cache;
    }

    function Value(): State
      reads this
    {
      State(pageOffset, snapshot, fullCycleSeen, fullCycleHadErrors, missingConfirmations, cache)
    }

    ghost function Taken(touched: set<Text>): Intake
      reads this
    {
      Intake(fullCycleSeen, touched, fullCycleHadErrors, cache)
    }

    /** The row loop shared by the summary and the page. */
    method TakeIn(rows: seq<RawTorrent>, ok: nat -> bool, touched0: set<Text>) returns (touched: set<Text>)
      modifies this`fullCycleSeen, this`fullCycleHadErrors, this`cache
      ensures Taken(touched) == TakeRows(old(Taken(touched0)), rows, ok)
    {
      touched := touched0;
      for i := 0 to |rows|
        invariant Taken(touched) == TakeRows(old(Taken(touched0)), rows[..i], ok)
      {
        assert rows[..i + 1][..i] == rows[..i];
        var t := rows[i];
        if !ValidProjection(t) {
          fullCycleHadErrors := true;
        } else {
          var logical := Key(t);
          fullCycleSeen := fullCycleSeen + {logical};
          if logical !in touched {
            if ok(i) {
              cache := cache[logical := t];
              touched := touched + {logical};
            } else {
              fullCycleHadErrors := true;
            }
          }
        }
      }
      assert rows[..|rows|] == rows;
    }

    /** The first half of a tick: live summary and one page. */
    method Gather(e: Input) returns (pageLen: nat)
      modifies this`fullCycleSeen, this`fullCycleHadErrors, this`cache, this`snapshot
      ensures pageLen == |Fetched(old(Value()), e).rows|
      ensures Value() == Middle(old(Value()), e)
    {
      if e.foreign.Some? {
        cache := e.foreign.value;
      }
      var touched := {};
      if e.summary.Some? {
        touched := TakeIn(e.summary.value, e.summaryOk, touched);
      } else {
        fullCycleHadErrors := true;
      }
      pageLen := TakePage(e, touched);
    }

    /** The page: its token is pinned or compared, its rows are taken in. */
    method TakePage(e: Input, touched0: set<Text>) returns (pageLen: nat)
      modifies this`fullCycleSeen, this`fullCycleHadErrors, this`cache, this`snapshot
      ensures var f := Fetched(old(Value()), e);
              && pageLen == |f.rows| && snapshot == PinnedSnapshot(old(Value()), e)
              && Taken(AfterPage(old(Value()), e, old(Taken(touched0))).touched)
                 == AfterPage(old(Value()), e, old(Taken(touched0)))
    {
      var fetched := FetchRange(e.backend, pageOffset, PAGE_SIZE, snapshot);
      pageLen := |fetched.rows|;
      fullCycleHadErrors := fullCycleHadErrors || fetched.hadErrors;
      if snapshot.None? {
        snapshot := fetched.token;
      } else if fetched.token != snapshot {
        fullCycleHadErrors := true;
      }
      var touched := TakeIn(fetched.rows, e.pageOk, touched0);
    }

    /** Stale-row removal at the end of a clean cycle. */
    method RemoveMissing(known: set<Text>, deleteOk: Text -> bool) returns (due: set<Text>, deleted: set<Text>)
      modifies this`missingConfirmations, this`fullCycleHadErrors, this`cache
      ensures var c := CleanupOf(known, fullCycleSeen, snapshot.Some?, old(missingConfirmations), deleteOk);
              due == c.due && deleted == c.deleted && missingConfirmations == c.waiting
      ensures cache == old(cache) - deleted
      ensures fullCycleHadErrors == (old(fullCycleHadErrors) || due != deleted)
    {
      var missing := known - fullCycleSeen;
      ghost var confirmed0 := missingConfirmations;
      missingConfirmations := set h | h in missingConfirmations && h !in fullCycleSeen && h in known;
      var stable := snapshot.Some?;
      due, deleted := {}, {};
      var todo := missing;
      while todo != {}
        invariant todo <= missing
        invariant forall h :: h in due <==> h in missing && h !in todo && (stable || h in confirmed0)
        invariant forall h :: h in deleted <==> h in due && deleteOk(h)
        invariant forall h :: h in missingConfirmations <==>
                    (h in todo && h in confirmed0) || (h in missing && h !in todo && h !in due)
        invariant cache == old(cache) - deleted
        invariant fullCycleHadErrors <==> old(fullCycleHadErrors) || exists h :: h in due && h !in deleted
        decreases |todo|
      {
        var h :| h in todo;
        todo := todo - {h};
        var confirmed := RemoveOne(h, stable, deleteOk(h));
        if confirmed {
          due := due + {h};
          if deleteOk(h) {
            MinusTwice(old(cache), deleted, h);
            deleted := deleted + {h};
          }
        }
      }
    }

    /** A hash the cycle did not report: deleted if confirmed missing, else noted for the next cycle. */
    method RemoveOne(h: Text, stable: bool, deleteOk: bool) returns (confirmed: bool)
      modifies this`missingConfirmations, this`fullCycleHadErrors, this`cache
      ensures confirmed == (stable || h in old(missingConfirmations))
      ensures missingConfirmations ==
              if confirmed then old(missingConfirmations) - {h} else old(missingConfirmations) + {h}
      ensures cache == if confirmed && deleteOk then old(cache) - {h} else old(cache)
      ensures fullCycleHadErrors == (old(fullCycleHadErrors) || (confirmed && !deleteOk))
    {
      confirmed := stable || h in missingConfirmations;
      if confirmed {
        missingConfirmations := missingConfirmations - {h};
        if deleteOk {
          cache := cache - {h};
        } else {
          fullCycleHadErrors := true;
        }
      } else {
        missingConfirmations := missingConfirmations + {h};
      }
    }

    method ResetCycle()
      modifies this`pageOffset, this`snapshot, this`fullCycleSeen, this`fullCycleHadErrors
      ensures Value() == old(Value()).(offset := 0, snapshot := None, seen := {}, hadErrors := false)
    {
      fullCycleSeen := {};
      fullCycleHadErrors := false;
      pageOffset := 0;
      snapshot := None;
    }

    /** The end of the list: cleanup, counters, reset. */
    method EndCycle(e: Input) returns (outcome: Outcome, deleted: set<Text>)
      modifies this
      ensures Value() == EndState(old(Value()), e)
      ensures outcome == EndOutcome(old(Value()), e)
      ensures deleted == CleanupAt(old(Value()), e).deleted
    {
      deleted := {};
      if !fullCycleHadErrors {
        if !e.listingOk {
          return ListingFailed, {};
        }
        var due;
        due, deleted := RemoveMissing(Known(cache, e.listed), e.deleteOk);
      } else {
        missingConfirmations := {};
      }
      if !fullCycleHadErrors && !e.countsOk {
        return CountsFailed, deleted;
      }
      assert missingConfirmations !! fullCycleSeen;
      missingConfirmations := missingConfirmations - fullCycleSeen;
      ResetCycle();
      return Completed, deleted;
    }

    /** One tick of the paged sync. */
    method TickBounded(e: Input) returns (outcome: Outcome, deleted: set<Text>)
      modifies this
      ensures Value() == Tick(old(Value()), e)
      ensures outcome == OutcomeOf(old(Value()), e)
      ensures deleted == Deleted(old(Value()), e)
    {
      var pageLen := Gather(e);
      if pageLen < PAGE_SIZE {
        outcome, deleted := EndCycle(e);
        return;
      }
      var next := CheckedAdd(pageOffset, PAGE_SIZE);
      if next.None? {
        ResetCycle();
        return Exhausted, {};
      }
      pageOffset := next.value;
      return Continued, {};
    }
  }

  /** One tick of the full-list sync, on the cache it is given. */
  method TickFullPass(cache: Cache, e: FullInput) returns (r: FullResult)
    ensures r == TickFull(cache, e)
  {
    if e.list.None? || |e.list.value| > MAX_LEGACY_FULL_SYNC_ENTRIES {
      return FullResult(cache, {}, false);
    }
    var a := StoreAll(cache, e.list.value, e.rowOk);
    if a.errors || !e.listingOk {
      return FullResult(a.cache, {}, false);
    }
    var due := Known(a.cache, e.listed) - a.seen;
    var left, deleted := DeleteAll(a.cache, due, e.deleteOk);
    return FullResult(left, deleted, due == deleted);
  }

  method DeleteAll(cache: Cache, due: set<Text>, deleteOk: Text -> bool) returns (left: Cache, deleted: set<Text>)
    ensures deleted == Deletable(due, deleteOk)
    ensures left == cache - deleted
  {
    var todo := due;
    left, deleted := cache, {};
    while todo != {}
      invariant todo <= due
      invariant forall h :: h in deleted <==> h in due && h !in todo && deleteOk(h)
      invariant left == cache - deleted
      decreases |todo|
    {
      var h :| h in todo;
      todo := todo - {h};
      if deleteOk(h) {
        left := left - {h};
        deleted := deleted + {h};
      }
    }
  }

  method StoreAll(cache: Cache, rows: seq<RawTorrent>, ok: nat -> bool) returns (a: Intake)
    ensures a == StoreRows(Intake({}, {}, false, cache), rows, ok)
  {
    a := Intake({}, {}, false, cache);
    for i := 0 to |rows|
      invariant a == StoreRows(Intake({}, {}, false, cache), rows[..i], ok)
    {
      assert rows[..i + 1][..i] == rows[..i];
      var t := rows[i];
      if !ValidProjection(t) {
        a := a.(errors := true);
      } else if ok(i) {
        a := a.(seen := a.seen + {Key(t)}, cache := a.cache[Key(t) := t]);
      } else {
        a := a.(seen := a.seen + {Key(t)}, errors := true);
      }
    }
    assert rows[..|rows|] == rows;
  }
}
