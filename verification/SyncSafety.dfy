/** Deletion safety of the paged sync over whole runs (`sidecar/src/sync.rs`). */
module SyncSafety {
  import opened Bytes
  import opened SyncFetch
  import opened Sync

  // ----- what a tick was told, read off its inputs -----

  /** Hashes of the rows the cache accepted. */
  ghost function StoredKeys(rows: seq<RawTorrent>, ok: nat -> bool): set<Text> {
    set i | 0 <= i < |rows| && ValidProjection(rows[i]) && ok(i) :: Key(rows[i])
  }

  /** The cache refused row i, and no earlier row of the tick had stored its torrent. */
  ghost predicate Refused(stored: set<Text>, rows: seq<RawTorrent>, ok: nat -> bool, i: nat)
    requires i < |rows|
  {
    ValidProjection(rows[i]) && !ok(i) && Key(rows[i]) !in stored + StoredKeys(rows[..i], ok)
  }

  ghost predicate RowsClean(stored: set<Text>, rows: seq<RawTorrent>, ok: nat -> bool) {
    forall i :: 0 <= i < |rows| ==> ValidProjection(rows[i]) && !Refused(stored, rows, ok, i)
  }

  ghost function SummaryRows(e: Input): seq<RawTorrent> {
    if e.summary.Some? then e.summary.value else []
  }

  /** No summary, fetch, validation or upsert error. */
  ghost predicate CleanTick(s: State, e: Input) {
    && e.summary.Some? && RowsClean({}, SummaryRows(e), e.summaryOk)
    && !Fetched(s, e).hadErrors
    && RowsClean(StoredKeys(SummaryRows(e), e.summaryOk), Fetched(s, e).rows, e.pageOk)
  }

  /** Hashes that a tick reported, by either read. */
  ghost function Reported(s: State, e: Input): set<Text> {
    Keys(SummaryRows(e)) + Keys(Fetched(s, e).rows)
  }

  lemma {:induction false} TakeRowsSets(a: Intake, rows: seq<RawTorrent>, ok: nat -> bool)
    ensures var b := TakeRows(a, rows, ok);
            b.seen == a.seen + Keys(rows) && b.touched == a.touched + StoredKeys(rows, ok)
    decreases |rows|
  {
    if rows == [] {
    } else {
      var n := |rows| - 1;
      TakeRowsSets(a, rows[..n], ok);
      KeysLast(rows, ok);
      TakeRowSets(a, TakeRows(a, rows[..n], ok), rows[n], ok(n), Keys(rows[..n]), StoredKeys(rows[..n], ok));
    }
  }

  lemma TakeRowSets(a: Intake, b: Intake, t: RawTorrent, ok: bool, keys: set<Text>, stored: set<Text>)
    requires b.seen == a.seen + keys && b.touched == a.touched + stored
    ensures var c := TakeRow(b, t, ok);
            && c.seen == a.seen + (keys + if ValidProjection(t) then {Key(t)} else {})
            && c.touched == a.touched + (stored + if ValidProjection(t) && ok then {Key(t)} else {})
  {
  }

  lemma KeysLast(rows: seq<RawTorrent>, ok: nat -> bool)
    requires rows != []
    ensures var n := |rows| - 1;
            && Keys(rows) == Keys(rows[..n]) + (if ValidProjection(rows[n]) then {Key(rows[n])} else {})
            && StoredKeys(rows, ok) ==
               StoredKeys(rows[..n], ok) + (if ValidProjection(rows[n]) && ok(n) then {Key(rows[n])} else {})
  {
    var n := |rows| - 1;
    KeysAppend(rows[..n], rows[n], ok);
    assert rows == rows[..n] + [rows[n]];
  }

  /** The cache gains exactly the rows stored now. */
  lemma {:induction false} TakeRowsCache(a: Intake, rows: seq<RawTorrent>, ok: nat -> bool)
    ensures var b := TakeRows(a, rows, ok);
            b.cache.Keys == a.cache.Keys + (b.touched - a.touched) && a.touched <= b.touched
    decreases |rows|
  {
    if rows == [] {
    } else {
      TakeRowsCache(a, rows[..|rows| - 1], ok);
    }
  }

  lemma {:induction false} TakeRowsErrors(a: Intake, rows: seq<RawTorrent>, ok: nat -> bool)
    ensures !TakeRows(a, rows, ok).errors <==> !a.errors && RowsClean(a.touched, rows, ok)
    decreases |rows|
  {
    if rows == [] {
    } else {
      var n := |rows| - 1;
      TakeRowsErrors(a, rows[..n], ok);
      TakeRowsSets(a, rows[..n], ok);
      RowsCleanAppend(a.touched, rows, ok);
    }
  }

  lemma StoredAreReported(rows: seq<RawTorrent>, ok: nat -> bool)
    ensures StoredKeys(rows, ok) <= Keys(rows)
    ensures (forall i: nat :: ok(i)) ==> StoredKeys(rows, ok) == Keys(rows)
  {
  }

  lemma KeysAppend(front: seq<RawTorrent>, t: RawTorrent, ok: nat -> bool)
    ensures Keys(front + [t]) == Keys(front) + if ValidProjection(t) then {Key(t)} else {}
    ensures StoredKeys(front + [t], ok) ==
            StoredKeys(front, ok) + if ValidProjection(t) && ok(|front|) then {Key(t)} else {}
  {
    var rows := front + [t];
    assert rows[|front|] == t;
    forall h | h in Keys(front)
      ensures h in Keys(rows)
    {
      var i :| 0 <= i < |front| && ValidProjection(front[i]) && h == Key(front[i]);
      assert rows[i] == front[i];
    }
    forall h | h in StoredKeys(front, ok)
      ensures h in StoredKeys(rows, ok)
    {
      var i :| 0 <= i < |front| && ValidProjection(front[i]) && ok(i) && h == Key(front[i]);
      assert rows[i] == front[i];
    }
  }

  lemma RowsCleanAppend(stored: set<Text>, rows: seq<RawTorrent>, ok: nat -> bool)
    requires rows != []
    ensures var n := |rows| - 1;
            RowsClean(stored, rows, ok)
            <==> RowsClean(stored, rows[..n], ok) && ValidProjection(rows[n]) && !Refused(stored, rows, ok, n)
  {
    var n := |rows| - 1;
    forall i | 0 <= i < n
      ensures Refused(stored, rows, ok, i) <==> Refused(stored, rows[..n], ok, i)
    {
      assert rows[..n][..i] == rows[..i];
    }
  }

  /** What the accumulated flags mean. */
  lemma GatheredFacts(s: State, e: Input)
    ensures var m := Middle(s, e);
            && m.seen == s.seen + Reported(s, e)
            && (!m.hadErrors <==> !s.hadErrors && CleanTick(s, e))
            && CacheBefore(s, e).Keys <= m.cache.Keys <= CacheBefore(s, e).Keys + Reported(s, e)
  {
    SummaryFacts(s, e);
    PageFacts(s, e, AfterSummary(s, e));
  }

  lemma SummaryFacts(s: State, e: Input)
    ensures var b, rows := AfterSummary(s, e), SummaryRows(e);
            && b.seen == s.seen + Keys(rows) && b.touched == StoredKeys(rows, e.summaryOk)
            && (!b.errors <==> !s.hadErrors && e.summary.Some? && RowsClean({}, rows, e.summaryOk))
            && CacheBefore(s, e).Keys <= b.cache.Keys <= CacheBefore(s, e).Keys + Keys(rows)
  {
    var a := Intake(s.seen, {}, s.hadErrors || e.summary.None?, CacheBefore(s, e));
    TakeRowsSets(a, SummaryRows(e), e.summaryOk);
    TakeRowsErrors(a, SummaryRows(e), e.summaryOk);
    TakeRowsCache(a, SummaryRows(e), e.summaryOk);
    StoredAreReported(SummaryRows(e), e.summaryOk);
  }

  /** A page that carries another token than the pinned one has errors of its own, so comparing it adds none. */
  lemma PageFacts(s: State, e: Input, b: Intake)
    ensures var c, f := AfterPage(s, e, b), Fetched(s, e);
            && c.seen == b.seen + Keys(f.rows)
            && (!c.errors <==> !b.errors && !f.hadErrors && RowsClean(b.touched, f.rows, e.pageOk))
            && b.cache.Keys <= c.cache.Keys <= b.cache.Keys + Keys(f.rows)
  {
    var f := Fetched(s, e);
    var wrongSnapshot := s.snapshot.Some? && f.token != s.snapshot;
    var d := b.(errors := b.errors || f.hadErrors || wrongSnapshot);
    TakeRowsSets(d, f.rows, e.pageOk);
    TakeRowsErrors(d, f.rows, e.pageOk);
    TakeRowsCache(d, f.rows, e.pageOk);
    StoredAreReported(f.rows, e.pageOk);
    if !f.hadErrors && s.snapshot.Some? {
      PinnedFetch(e.backend, s.offset, PAGE_SIZE, s.snapshot.value);
    }
  }

  // ----- steps -----

  /** One tick as an observer sees it. */
  datatype Step = Step(
    before: State, after: State, outcome: Outcome,
    clean: bool, reported: set<Text>, pin: Option<nat>, deleted: set<Text>, tokens: seq<Option<nat>>)

  ghost function StepOf(s: State, e: Input): Step {
    Step(s, Tick(s, e), OutcomeOf(s, e), CleanTick(s, e), Reported(s, e), PinnedSnapshot(s, e),
         Deleted(s, e), Tokens(Fetched(s, e).log))
  }

  /** Clean so far, this tick included, and h not reported. */
  ghost predicate CleanWithout(st: Step, h: Text) {
    !st.before.hadErrors && st.clean && h !in st.before.seen && h !in st.reported
  }

  /** What every tick guarantees, all that the run lemmas use. */
  ghost predicate Guarantees(st: Step) {
    && (st.outcome.Continued? || st.outcome.ListingFailed? || st.outcome.CountsFailed? ==>
          && st.after.seen == st.before.seen + st.reported
          && (!st.after.hadErrors <==> !st.before.hadErrors && st.clean)
          && st.after.snapshot == st.pin)
    && (st.outcome.Completed? || st.outcome.Exhausted? ==>
          st.after.seen == {} && !st.after.hadErrors && st.after.snapshot == None)
    && (!st.outcome.Completed? && !st.outcome.CountsFailed? ==>
          st.after.confirmations == st.before.confirmations && st.deleted == {})
    && (st.outcome.Completed? ==> forall h :: h in st.after.confirmations ==> CleanWithout(st, h))
    && (forall h :: h in st.deleted ==> CleanWithout(st, h) && (st.pin.None? ==> h in st.before.confirmations))
    && (!st.before.hadErrors && st.clean ==> Settles(st.before.snapshot, st.tokens, st.pin))
    && (st.clean ==> st.tokens != [])
  }

  lemma StepGuarantees(s: State, e: Input)
    ensures Guarantees(StepOf(s, e))
  {
    GatheredFacts(s, e);
    TickSettles(s, e);
    var m, tokens := Middle(s, e), Tokens(Fetched(s, e).log);
    if AtEnd(s, e) {
      EndGuarantees(s, m, e, CleanTick(s, e), Reported(s, e), tokens);
    } else {
      MidGuarantees(s, m, Tick(s, e), OutcomeOf(s, e), CleanTick(s, e), Reported(s, e), tokens);
    }
  }

  /** `m` is what the state `s` becomes by reads that report `reported`. */
  ghost predicate ReadsInto(s: State, m: State, clean: bool, reported: set<Text>, tokens: seq<Option<nat>>) {
    && m.seen == s.seen + reported && (!m.hadErrors <==> !s.hadErrors && clean)
    && m.confirmations == s.confirmations
    && (clean ==> tokens != [] && Settles(s.snapshot, tokens, m.snapshot))
  }

  lemma EndGuarantees(s: State, m: State, e: Input, clean: bool, reported: set<Text>, tokens: seq<Option<nat>>)
    requires ReadsInto(s, m, clean, reported, tokens)
    ensures Guarantees(
              Step(s, EndState(m, e), EndOutcome(m, e), clean, reported, m.snapshot, CleanupAt(m, e).deleted, tokens))
  {
    EndFacts(m, e);
  }

  /** Before the end of the list: the next page, or a fresh start if the offset cannot grow. */
  lemma MidGuarantees(
    s: State, m: State, u: State, outcome: Outcome, clean: bool, reported: set<Text>, tokens: seq<Option<nat>>)
    requires ReadsInto(s, m, clean, reported, tokens)
    requires || (outcome.Continued? && u == m.(offset := u.offset))
             || (outcome.Exhausted? && u == State(0, None, {}, false, m.confirmations, m.cache))
    ensures Guarantees(Step(s, u, outcome, clean, reported, m.snapshot, {}, tokens))
  {
  }

  lemma TickSettles(s: State, e: Input)
    ensures CleanTick(s, e) ==>
              Tokens(Fetched(s, e).log) != [] && Settles(s.snapshot, Tokens(Fetched(s, e).log), PinnedSnapshot(s, e))
  {
    var f := Fetched(s, e);
    if !f.hadErrors {
      CleanFetchSettles(e.backend, s.offset, PAGE_SIZE, s.snapshot);
      SettledRun(s.snapshot, Tokens(f.log), f.token);
    }
  }

  /** The end of the list, `m` being the state after both reads. */
  lemma EndFacts(m: State, e: Input)
    ensures var u, outcome, c := EndState(m, e), EndOutcome(m, e), CleanupAt(m, e);
            && (outcome.ListingFailed? || outcome.CountsFailed? ==>
                  u.seen == m.seen && u.hadErrors == m.hadErrors && u.snapshot == m.snapshot)
            && (outcome.Completed? ==> u.seen == {} && !u.hadErrors && u.snapshot == None)
            && (outcome.ListingFailed? ==> u.confirmations == m.confirmations && c.deleted == {})
            && (outcome.Completed? ==> forall h :: h in u.confirmations ==> h !in m.seen && !m.hadErrors)
            && (forall h :: h in c.deleted ==>
                  h !in m.seen && !m.hadErrors && (m.snapshot.None? ==> h in m.confirmations))
  {
  }

  // ----- runs -----

  /** A state as the sync starts with it; the cache may hold anything. */
  predicate Fresh(s: State) {
    s == State(0, None, {}, false, {}, s.cache)
  }

  /** The ticks that the inputs `es` cause, one after the other. */
  ghost function Trace(s0: State, es: seq<Input>): (run: seq<Step>)
    ensures |run| == |es|
    decreases |es|
  {
    if es == [] then []
    else [StepOf(s0, es[0])] + Trace(Tick(s0, es[0]), es[1..])
  }

  ghost predicate IsRun(run: seq<Step>) {
    && (forall i :: 0 <= i < |run| ==> Guarantees(run[i]))
    && (forall i :: 0 < i < |run| ==> run[i - 1].after == run[i].before)
  }

  lemma {:induction false} TraceIsRun(s0: State, es: seq<Input>)
    ensures IsRun(Trace(s0, es)) && (es != [] ==> Trace(s0, es)[0].before == s0)
    decreases |es|
  {
    if es == [] {
    } else {
      StepGuarantees(s0, es[0]);
      TraceIsRun(Tick(s0, es[0]), es[1..]);
      RunCons(StepOf(s0, es[0]), Trace(Tick(s0, es[0]), es[1..]));
    }
  }

  lemma RunCons(st: Step, run: seq<Step>)
    requires Guarantees(st) && IsRun(run) && (run != [] ==> st.after == run[0].before)
    ensures IsRun([st] + run)
  {
    var all := [st] + run;
    assert forall i :: 0 < i < |all| ==> all[i] == run[i - 1];
  }

  /** First tick of the cycle that tick i belongs to. */
  function CycleStart(run: seq<Step>, i: nat): (b: nat)
    requires i <= |run|
    ensures b <= i
  {
    if i == 0 then 0
    else if run[i - 1].outcome.Completed? || run[i - 1].outcome.Exhausted? then i
    else CycleStart(run, i - 1)
  }

  /** Last tick before i that completed a cycle. */
  function LastCompleted(run: seq<Step>, i: nat): (p: Option<nat>)
    requires i <= |run|
    ensures p.Some? ==> p.value < i
  {
    if i == 0 then None
    else if run[i - 1].outcome.Completed? then Some(i - 1)
    else LastCompleted(run, i - 1)
  }

  /** Some count read failed since the last completed cycle before tick i. */
  predicate CountsPending(run: seq<Step>, i: nat)
    requires i <= |run|
  {
    i > 0 && !run[i - 1].outcome.Completed?
    && (run[i - 1].outcome.CountsFailed? || CountsPending(run, i - 1))
  }

  /** Ticks lo..hi-1 were all clean and none reported h. */
  ghost predicate Absent(run: seq<Step>, lo: nat, hi: nat, h: Text)
    requires hi <= |run|
  {
    forall j :: lo <= j < hi ==> run[j].clean && h !in run[j].reported
  }

  /** The previous completed cycle was clean and did not report h. */
  ghost predicate AbsentBefore(run: seq<Step>, i: nat, h: Text)
    requires i <= |run|
  {
    var p := LastCompleted(run, i);
    p.Some? && Absent(run, CycleStart(run, p.value), p.value + 1, h)
  }

  /** The state in front of tick i says of the cycle so far what the ticks did. */
  lemma {:induction false} AbsentSoFar(run: seq<Step>, i: nat, h: Text)
    requires IsRun(run) && i < |run| && Fresh(run[0].before)
    ensures !run[i].before.hadErrors && h !in run[i].before.seen <==> Absent(run, CycleStart(run, i), i, h)
  {
    if i == 0 {
    } else {
      AbsentSoFar(run, i - 1, h);
      assert Guarantees(run[i - 1]) && run[i - 1].after == run[i].before;
    }
  }

  /** A hash waits for its second confirmation only if the last completed cycle was clean and
      without it, unless a count read failed since. */
  lemma {:induction false} WaitingIsAbsent(run: seq<Step>, i: nat, h: Text)
    requires IsRun(run) && i < |run| && Fresh(run[0].before)
    requires h in run[i].before.confirmations && !CountsPending(run, i)
    ensures AbsentBefore(run, i, h)
  {
    if i == 0 {
    } else {
      assert Guarantees(run[i - 1]) && run[i - 1].after == run[i].before;
      if run[i - 1].outcome.Completed? {
        AbsentSoFar(run, i - 1, h);
      } else {
        WaitingIsAbsent(run, i - 1, h);
      }
    }
  }

  /** Deletion safety. A row is deleted only at the end of a cycle whose every tick was clean and
      did not report it. Without a snapshot token, unless a count read failed since the last
      completed cycle, that cycle too was clean and did not report it. */
  lemma DeletionSafety(s0: State, es: seq<Input>, t: nat, h: Text)
    requires Fresh(s0) && t < |es|
    requires h in Trace(s0, es)[t].deleted
    ensures var run := Trace(s0, es);
            && Absent(run, CycleStart(run, t), t + 1, h)
            && (run[t].pin.None? && !CountsPending(run, t) ==> AbsentBefore(run, t, h))
  {
    var run := Trace(s0, es);
    TraceIsRun(s0, es);
    assert Guarantees(run[t]);
    AbsentSoFar(run, t, h);
    if run[t].pin.None? && !CountsPending(run, t) {
      WaitingIsAbsent(run, t, h);
    }
  }

  // ----- snapshot tokens over a cycle -----

  /** Tokens of all pages read by ticks lo..hi-1. */
  function TokensOf(run: seq<Step>, lo: nat, hi: nat): seq<Option<nat>>
    requires hi <= |run|
  {
    if lo >= hi then [] else TokensOf(run, lo, hi - 1) + run[hi - 1].tokens
  }

  lemma {:induction false} CycleSettles(run: seq<Step>, i: nat)
    requires IsRun(run) && i < |run| && Fresh(run[0].before)
    requires !run[i].before.hadErrors
    ensures Settles(None, TokensOf(run, CycleStart(run, i), i), run[i].before.snapshot)
  {
    if i == 0 {
    } else {
      var last := run[i - 1];
      assert Guarantees(last) && last.after == run[i].before;
      if !last.outcome.Completed? && !last.outcome.Exhausted? {
        CycleSettles(run, i - 1);
        SettlesConcat(None, TokensOf(run, CycleStart(run, i), i - 1), last.before.snapshot, last.tokens, last.pin);
      }
    }
  }

  /** The error flag in front of tick i says whether the cycle was clean so far. */
  lemma {:induction false} CleanSoFar(run: seq<Step>, i: nat)
    requires IsRun(run) && i < |run| && Fresh(run[0].before)
    ensures !run[i].before.hadErrors <==> CleanTicks(run, CycleStart(run, i), i)
  {
    if i == 0 {
    } else {
      CleanSoFar(run, i - 1);
      assert Guarantees(run[i - 1]) && run[i - 1].after == run[i].before;
    }
  }

  /** Ticks lo..hi-1 were all clean. */
  ghost predicate CleanTicks(run: seq<Step>, lo: nat, hi: nat)
    requires hi <= |run|
  {
    forall j :: lo <= j < hi ==> run[j].clean
  }

  /** Snapshot consistency. Over a cycle that is clean up to and including tick t, every page carries no
      token or the pinned one, and if the first page carries a token all of them carry that one. */
  lemma CleanCycleTokens(s0: State, es: seq<Input>, t: nat)
    requires Fresh(s0) && t < |es|
    requires var run := Trace(s0, es); CleanTicks(run, CycleStart(run, t), t + 1)
    ensures var run := Trace(s0, es);
            var tokens := TokensOf(run, CycleStart(run, t), t + 1);
            && tokens != [] && Settles(None, tokens, run[t].pin)
            && (forall i :: 0 <= i < |tokens| ==> tokens[i] == None || tokens[i] == run[t].pin)
            && (tokens[0].Some? <==> run[t].pin.Some? && forall i :: 0 <= i < |tokens| ==> tokens[i] == run[t].pin)
  {
    var run := Trace(s0, es);
    TraceIsRun(s0, es);
    assert Guarantees(run[t]) && run[t].clean;
    CleanSoFar(run, t);
    CycleSettles(run, t);
    SettlesConcat(None, TokensOf(run, CycleStart(run, t), t), run[t].before.snapshot, run[t].tokens, run[t].pin);
    SettledRun(None, TokensOf(run, CycleStart(run, t), t + 1), run[t].pin);
  }

  /** So a cycle that deletes rows is built from at most one snapshot, and from it alone if it began with it. */
  lemma DeletingCycleTokens(s0: State, es: seq<Input>, t: nat, h: Text)
    requires Fresh(s0) && t < |es| && h in Trace(s0, es)[t].deleted
    ensures var run := Trace(s0, es);
            var tokens := TokensOf(run, CycleStart(run, t), t + 1);
            && tokens != []
            && (forall i :: 0 <= i < |tokens| ==> tokens[i] == None || tokens[i] == run[t].pin)
            && (tokens[0].Some? ==> forall i :: 0 <= i < |tokens| ==> tokens[i] == tokens[0])
  {
    DeletionSafety(s0, es, t, h);
    CleanCycleTokens(s0, es, t);
  }

  // ----- the count read: where two clean cycles are not guaranteed -----

  /** A tick in a quiet environment: nobody else writes the cache, it stays within the listing
      bound, deletions succeed, and offsets fit. */
  ghost predicate QuietTick(s: State, e: Input) {
    && e.foreign.None?
    && |Middle(s, e).cache| <= MAX_SYNC_CACHE_ENTRIES
    && (forall h :: e.deleteOk(h))
    && !OutcomeOf(s, e).Exhausted?
  }

  ghost predicate QuietInputs(s0: State, es: seq<Input>)
    decreases |es|
  {
    es == [] || (QuietTick(s0, es[0]) && QuietInputs(Tick(s0, es[0]), es[1..]))
  }

  /** What a quiet tick guarantees about the cache. */
  ghost predicate QuietGuarantees(st: Step) {
    && !st.outcome.Exhausted?
    && st.after.cache.Keys <= st.before.cache.Keys + st.reported
    && st.deleted <= st.before.cache.Keys + st.reported
    && (st.outcome.Completed? || st.outcome.CountsFailed? ==>
          forall h :: CleanWithout(st, h) && h in st.after.cache ==>
            h in st.after.confirmations && h !in st.before.confirmations)
  }

  lemma QuietStep(s: State, e: Input)
    requires QuietTick(s, e)
    ensures QuietGuarantees(StepOf(s, e))
  {
    GatheredFacts(s, e);
    if AtEnd(s, e) {
      QuietEnd(Middle(s, e), e);
    }
  }

  lemma QuietEnd(m: State, e: Input)
    requires |m.cache| <= MAX_SYNC_CACHE_ENTRIES && (forall h :: e.deleteOk(h))
    ensures var u, outcome := EndState(m, e), EndOutcome(m, e);
            && u.cache.Keys <= m.cache.Keys && CleanupAt(m, e).deleted <= m.cache.Keys
            && (!outcome.ListingFailed? && !m.hadErrors ==>
                  forall h :: h in u.cache && h !in m.seen ==> h in u.confirmations && h !in m.confirmations)
  {
    if !m.hadErrors && e.listingOk {
      QuietCleanup(m, e);
    }
  }

  lemma QuietCleanup(m: State, e: Input)
    requires |m.cache| <= MAX_SYNC_CACHE_ENTRIES && (forall h :: e.deleteOk(h))
    requires !m.hadErrors && e.listingOk
    ensures var c := CleanupAt(m, e);
            && c.due == c.deleted && c.deleted <= m.cache.Keys
            && forall h :: h in m.cache.Keys - c.deleted && h !in m.seen ==> h in c.waiting && h !in m.confirmations
  {
  }

  ghost predicate IsQuiet(run: seq<Step>) {
    forall i :: 0 <= i < |run| ==> QuietGuarantees(run[i])
  }

  lemma {:induction false} TraceIsQuiet(s0: State, es: seq<Input>)
    requires QuietInputs(s0, es)
    ensures IsQuiet(Trace(s0, es))
    decreases |es|
  {
    if es == [] {
    } else {
      QuietStep(s0, es[0]);
      TraceIsQuiet(Tick(s0, es[0]), es[1..]);
      QuietCons(StepOf(s0, es[0]), Trace(Tick(s0, es[0]), es[1..]));
    }
  }

  lemma QuietCons(st: Step, run: seq<Step>)
    requires QuietGuarantees(st) && IsQuiet(run)
    ensures IsQuiet([st] + run)
  {
  }

  /** In the middle of a cycle that has been clean without h, so was the tick before, and its start. */
  lemma AbsentBack(run: seq<Step>, i: nat, h: Text)
    requires 0 < i <= |run| && Absent(run, CycleStart(run, i), i, h)
    requires !run[i - 1].outcome.Completed? && !run[i - 1].outcome.Exhausted?
    ensures Absent(run, CycleStart(run, i - 1), i - 1, h) && run[i - 1].clean && h !in run[i - 1].reported
  {
    assert Absent(run, CycleStart(run, i - 1), i, h);
  }

  /** In a quiet run a row that the last completed cycle missed is waiting. */
  lemma {:induction false} MissedIsWaiting(run: seq<Step>, i: nat, h: Text)
    requires IsRun(run) && IsQuiet(run) && i < |run| && Fresh(run[0].before)
    requires !CountsPending(run, i) && AbsentBefore(run, i, h) && Absent(run, CycleStart(run, i), i, h)
    requires h in run[i].before.cache
    ensures h in run[i].before.confirmations
  {
    if i == 0 {
    } else {
      var last := run[i - 1];
      assert Guarantees(last) && QuietGuarantees(last) && last.after == run[i].before;
      if last.outcome.Completed? {
        AbsentSoFar(run, i - 1, h);
        assert CleanWithout(last, h);
      } else {
        AbsentBack(run, i, h);
        MissedIsWaiting(run, i - 1, h);
      }
    }
  }

  /** ... and a failed count read has deleted it. */
  lemma {:induction false} GoneAfterFailedCount(run: seq<Step>, i: nat, h: Text)
    requires IsRun(run) && IsQuiet(run) && i < |run| && Fresh(run[0].before)
    requires CountsPending(run, i) && AbsentBefore(run, i, h) && Absent(run, CycleStart(run, i), i, h)
    ensures h !in run[i].before.cache
  {
    var last := run[i - 1];
    assert Guarantees(last) && QuietGuarantees(last) && last.after == run[i].before;
    AbsentBack(run, i, h);
    if CountsPending(run, i - 1) {
      GoneAfterFailedCount(run, i - 1, h);
    } else if h in last.before.cache {
      MissedIsWaiting(run, i - 1, h);
      AbsentSoFar(run, i - 1, h);
      assert CleanWithout(last, h);
    }
  }

  /** Exactly when two clean cycles stand behind a deletion without a token: when no count read
      failed since the last completed cycle. */
  lemma TwoCleanCyclesExactly(s0: State, es: seq<Input>, t: nat, h: Text)
    requires Fresh(s0) && QuietInputs(s0, es) && t < |es|
    requires h in Trace(s0, es)[t].deleted && Trace(s0, es)[t].pin.None?
    ensures AbsentBefore(Trace(s0, es), t, h) <==> !CountsPending(Trace(s0, es), t)
  {
    var run := Trace(s0, es);
    DeletionSafety(s0, es, t, h);
    if CountsPending(run, t) && AbsentBefore(run, t, h) {
      TraceIsRun(s0, es);
      TraceIsQuiet(s0, es);
      assert QuietGuarantees(run[t]) && Guarantees(run[t]);
      GoneAfterFailedCount(run, t, h);
    }
  }

  /** A quiet tick against an empty backend without tokens. */
  ghost function EmptyTick(countsOk: bool): Input {
    Input(None, Some([]), _ => true, (o, l, s) => Page([], None), _ => true, true, {}, _ => true, countsOk)
  }

  /** Two ticks, the first with a failing count read: the row is gone and no cycle was completed before. */
  lemma FailedCountDeletesAfterOneCycle(h: Text, row: RawTorrent)
    ensures var s0 := State(0, None, {}, false, {}, map[h := row]);
            var run := Trace(s0, [EmptyTick(false), EmptyTick(true)]);
            Fresh(s0) && h in run[1].deleted && run[1].pin.None? && LastCompleted(run, 1).None?
  {
    var s0 := State(0, None, {}, false, {}, map[h := row]);
    var es := [EmptyTick(false), EmptyTick(true)];
    EmptyTickEffect(s0, false);
    var s1 := Tick(s0, es[0]);
    EmptyTickEffect(s1, true);
    assert es[1..] == [es[1]];
  }

  lemma EmptyTickEffect(s: State, countsOk: bool)
    requires s.offset == 0 && s.snapshot.None? && s.seen == {} && !s.hadErrors && |s.cache| <= MAX_SYNC_CACHE_ENTRIES
    ensures var e := EmptyTick(countsOk);
            && PinnedSnapshot(s, e).None?
            && Deleted(s, e) == s.cache.Keys * s.confirmations
            && (s.cache.Keys * s.confirmations == {} && !countsOk ==>
                  OutcomeOf(s, e).CountsFailed? && Tick(s, e) == s.(confirmations := s.cache.Keys))
  {
    var e := EmptyTick(countsOk);
    assert Fetched(s, e).rows == [];
    var c := CleanupAt(Middle(s, e), e);
    assert c.due == s.cache.Keys * s.confirmations;
    assert s.cache - {} == s.cache;
  }

  // ----- a row that stays unreadable -----

  /** The offset of the page with row b. */
  function PageOf(b: nat): nat {
    b / PAGE_SIZE * PAGE_SIZE
  }

  /** The offset is one of a page up to that of row b. */
  predicate UpTo(offset: int, b: nat) {
    0 <= offset <= PageOf(b) && offset % PAGE_SIZE == 0
  }

  /** A tick does not pass such a row: it deletes nothing, and at the row's page its cycle is complete. */
  predicate HeldUp(offset: int, next: int, outcome: Outcome, deleted: set<Text>, b: nat) {
    UpTo(offset, b) ==>
      && UpTo(next, b) && deleted == {}
      && (offset == PageOf(b) ==> outcome.Completed? && next == 0)
  }

  ghost predicate StepHeldUp(st: Step, b: nat) {
    HeldUp(st.before.offset, st.after.offset, st.outcome, st.deleted, b)
  }

  lemma ErrorsAtEnd(s: State, e: Input)
    requires AtEnd(s, e) && Fetched(s, e).hadErrors
    ensures OutcomeOf(s, e).Completed? && Deleted(s, e) == {} && Tick(s, e).offset == 0
  {
    GatheredFacts(s, e);
  }

  lemma NextOffset(offset: nat, b: nat)
    requires offset <= PageOf(b) && offset % PAGE_SIZE == 0
    ensures offset < PageOf(b) ==> offset + PAGE_SIZE <= PageOf(b)
    ensures PageOf(b) <= b < PageOf(b) + PAGE_SIZE && (offset + PAGE_SIZE) % PAGE_SIZE == 0
  {
  }

  lemma FullPage(s: State, e: Input)
    requires !AtEnd(s, e) && CheckedAdd(s.offset, PAGE_SIZE).Some?
    ensures Deleted(s, e) == {} && Tick(s, e).offset == s.offset + PAGE_SIZE
  {
  }

  /** Such a row ends the list where it is, with errors; in front of it the list ends only with errors. */
  lemma UnreadablePage(s: State, e: Input, b: nat)
    requires UpTo(s.offset, b) && b <= I64_MAX && Unreadable(e.backend, b)
    ensures AtEnd(s, e) ==> Fetched(s, e).hadErrors
    ensures s.offset == PageOf(b) ==> AtEnd(s, e)
    ensures !AtEnd(s, e) ==> CheckedAdd(s.offset, PAGE_SIZE).Some?
  {
    UnreadableFetch(e.backend, b, s.offset, PAGE_SIZE, s.snapshot);
    NextOffset(s.offset, b);
  }

  lemma HeldUpCases(offset: int, next: int, outcome: Outcome, deleted: set<Text>, b: nat, atEnd: bool)
    requires UpTo(offset, b) ==>
               && deleted == {} && (offset == PageOf(b) ==> atEnd)
               && if atEnd then outcome.Completed? && next == 0 else next == offset + PAGE_SIZE
    ensures HeldUp(offset, next, outcome, deleted, b)
  {
    if UpTo(offset, b) {
      NextOffset(offset, b);
    }
  }

  lemma UnreadableTick(s: State, e: Input, b: nat)
    requires b <= I64_MAX && Unreadable(e.backend, b)
    ensures HeldUp(s.offset, Tick(s, e).offset, OutcomeOf(s, e), Deleted(s, e), b)
  {
    if UpTo(s.offset, b) {
      UnreadablePage(s, e, b);
      if AtEnd(s, e) {
        ErrorsAtEnd(s, e);
      } else {
        FullPage(s, e);
      }
    }
    HeldUpCases(s.offset, Tick(s, e).offset, OutcomeOf(s, e), Deleted(s, e), b, AtEnd(s, e));
  }

  lemma {:induction false} TraceHeldUp(s0: State, es: seq<Input>, b: nat)
    requires b <= I64_MAX && forall j :: 0 <= j < |es| ==> Unreadable(es[j].backend, b)
    ensures forall i :: 0 <= i < |es| ==> StepHeldUp(Trace(s0, es)[i], b)
    decreases |es|
  {
    if es == [] {
    } else {
      UnreadableTick(s0, es[0], b);
      TraceHeldUp(Tick(s0, es[0]), es[1..], b);
    }
  }

  /** A row that stays unreadable costs more than its own data: over every run, whatever else happens, no
      page behind its own is ever read and nothing is ever deleted. */
  lemma UnreadableRun(s0: State, es: seq<Input>, b: nat)
    requires Fresh(s0) && b <= I64_MAX
    requires forall j :: 0 <= j < |es| ==> Unreadable(es[j].backend, b)
    ensures forall i :: 0 <= i < |es| ==>
              var st := Trace(s0, es)[i];
              0 <= st.before.offset <= PageOf(b) && st.deleted == {}
  {
    TraceIsRun(s0, es);
    TraceHeldUp(s0, es, b);
    if es != [] {
      HeldUpRun(Trace(s0, es), b, |es| - 1);
    }
  }

  lemma {:induction false} HeldUpRun(run: seq<Step>, b: nat, n: nat)
    requires IsRun(run) && n < |run| && UpTo(run[0].before.offset, b)
    requires forall i :: 0 <= i < |run| ==> StepHeldUp(run[i], b)
    ensures forall i :: 0 <= i <= n ==> UpTo(run[i].before.offset, b) && run[i].deleted == {}
    decreases n
  {
    if n == 0 {
      assert StepHeldUp(run[0], b);
    } else {
      HeldUpRun(run, b, n - 1);
      assert StepHeldUp(run[n - 1], b) && StepHeldUp(run[n], b);
    }
  }
}
