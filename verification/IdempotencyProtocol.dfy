/** Concurrent requests over one idempotency store: the claim loop and execution guard of
    `crates/rt-api-deluge/src/lib.rs` with the store of `crates/rt-api-model/src/idempotency.rs`.
    Every store operation runs under the store's lock, so a run is an interleaving of operations.
    A waiting request may claim again at any time. */
module IdempotencyProtocol {
  import opened Bytes
  import opened Idempotency

  type Request = nat

  /** What an armed guard holds. */
  datatype Guard = Guard(key: Key, fingerprint: Fingerprint)

  /** What happened, in order. A claim begins an execution, is replayed to or is refused (told to wait, in
      conflict, or no room); an execution is finished, perhaps evicting other keys, or released. */
  datatype Event =
    | Began(request: Request, key: Key, fingerprint: Fingerprint, at: nat)
    | Replayed(request: Request, key: Key, fingerprint: Fingerprint, response: CachedResponse, at: nat)
    | Refused(request: Request, key: Key, fingerprint: Fingerprint, at: nat)
    | Finished(
        request: Request, key: Key, fingerprint: Fingerprint, response: CachedResponse, cached: bool, at: nat,
        evicted: set<Key>)
    | Released(request: Request, key: Key, fingerprint: Fingerprint)

  /** `guards` holds the armed guards, by the request that runs under them. */
  datatype System = System(entries: Entries, guards: map<Request, Guard>, history: seq<Event>)

  const EMPTY := System(map[], map[], [])

  // ----- steps -----

  /** A request claims a key; told to execute, it arms its guard before anything else can happen. */
  ghost predicate ClaimStep(s: System, t: System, r: Request, key: Key, fingerprint: Fingerprint, now: nat) {
    && r !in s.guards
    && t.entries == Claimed(s.entries, key, fingerprint, now)
    && match ClaimResult(s.entries, key, fingerprint, now)
       case Execute =>
         && t.guards == s.guards[r := Guard(key, fingerprint)]
         && t.history == s.history + [Began(r, key, fingerprint, now)]
       case Replay(response) =>
         t.guards == s.guards && t.history == s.history + [Replayed(r, key, fingerprint, response, now)]
       case _ => t.guards == s.guards && t.history == s.history + [Refused(r, key, fingerprint, now)]
  }

  /** A successful execution hands its response to the guard. */
  ghost predicate CompleteStep(s: System, t: System, r: Request, response: CachedResponse, now: nat, cached: bool) {
    && r in s.guards
    && var g := s.guards[r];
    && CompletedBy(s.entries, t.entries, g.key, g.fingerprint, response, now, cached)
    && t.guards == s.guards - {r}
    && var evicted := s.entries.Keys - t.entries.Keys - {g.key};
    && t.history == s.history + [Finished(r, g.key, g.fingerprint, response, cached, now, evicted)]
  }

  /** A failed execution, an oversized response, a panic or a cancelled request. */
  ghost predicate ReleaseStep(s: System, t: System, r: Request) {
    && r in s.guards
    && var g := s.guards[r];
    && t.entries == Abandoned(s.entries, g.key, g.fingerprint)
    && t.guards == s.guards - {r}
    && t.history == s.history + [Released(r, g.key, g.fingerprint)]
  }

  ghost predicate Next(s: System, t: System) {
    || (exists r, key, fingerprint, now :: ClaimStep(s, t, r, key, fingerprint, now))
    || (exists r, response, now, cached :: CompleteStep(s, t, r, response, now, cached))
    || (exists r :: ReleaseStep(s, t, r))
  }

  ghost predicate IsRun(run: seq<System>) {
    run != [] && run[0] == EMPTY && forall i :: 0 < i < |run| ==> StepAt(run, i)
  }

  ghost predicate StepAt(run: seq<System>, i: nat)
    requires 0 < i < |run|
  {
    Next(run[i - 1], run[i])
  }

  // ----- the invariant -----

  /** Armed guards and in-flight entries correspond one to one, by key and fingerprint. */
  ghost predicate GuardsMatch(s: System) {
    && (forall r :: r in s.guards ==> Owns(s.entries, s.guards[r].key, s.guards[r].fingerprint))
    && (forall r, q :: r in s.guards && q in s.guards && s.guards[r].key == s.guards[q].key ==> r == q)
    && (forall k :: k in s.entries && s.entries[k].state.InFlight? ==> Guarded(s, k))
  }

  ghost predicate Guarded(s: System, k: Key) {
    exists r :: r in s.guards && s.guards[r].key == k
  }

  predicate IsExecution(e: Event) {
    !e.Replayed? && !e.Refused?
  }

  /** The last execution event of a key. */
  function LastFor(history: seq<Event>, key: Key): Option<Event> {
    if history == [] then None
    else
      var e := history[|history| - 1];
      if IsExecution(e) && e.key == key then Some(e) else LastFor(history[..|history| - 1], key)
  }

  /** Event e is the caching completion of an execution of (key, fingerprint) with this response. */
  predicate Recorded(e: Option<Event>, fingerprint: Fingerprint, response: CachedResponse) {
    e.Some? && e.value.Finished? && e.value.cached && e.value.fingerprint == fingerprint && e.value.response == response
  }

  /** A completed entry holds what the last execution of its key recorded. */
  ghost predicate EntriesRecorded(s: System) {
    forall k :: k in s.entries && s.entries[k].state.Complete? ==>
      Recorded(LastFor(s.history, k), s.entries[k].fingerprint, s.entries[k].state.response)
  }

  /** Every replay so far gave what the last execution of its key had recorded. */
  ghost predicate ReplaysFaithful(history: seq<Event>) {
    forall i :: 0 <= i < |history| && history[i].Replayed? ==>
      Recorded(LastFor(history[..i], history[i].key), history[i].fingerprint, history[i].response)
  }

  /** A request that is executing has begun, and nothing happened to its key since. */
  ghost predicate ExecutionsOpen(s: System) {
    forall r :: r in s.guards ==>
      BeganBy(LastFor(s.history, s.guards[r].key), r, s.guards[r].fingerprint)
  }

  /** A key whose last execution has not ended is held by a guard. */
  ghost predicate OpenAreGuarded(s: System) {
    forall k :: IsOpen(LastFor(s.history, k)) ==> Guarded(s, k)
  }

  predicate IsOpen(e: Option<Event>) {
    e.Some? && e.value.Began?
  }

  predicate BeganBy(e: Option<Event>, r: Request, fingerprint: Fingerprint) {
    IsOpen(e) && e.value.request == r && e.value.fingerprint == fingerprint
  }

  /** The event may follow `last`, the last execution event of its key: an execution begins when none is
      open, and the open one ends by the request that began it. */
  predicate MayFollow(last: Option<Event>, e: Event) {
    match e
    case Began(_, _, _, _) => !IsOpen(last)
    case Replayed(_, _, _, _, _) => true
    case Refused(_, _, _, _) => true
    case _ => BeganBy(last, e.request, e.fingerprint)
  }

  ghost predicate Alternates(history: seq<Event>) {
    forall i :: 0 <= i < |history| ==> MayFollow(LastFor(history[..i], history[i].key), history[i])
  }

  /** The last execution of the key ended with its response cached. */
  predicate IsCached(last: Option<Event>) {
    last.Some? && last.value.Finished? && last.value.cached
  }

  /** The event ends the life of a response cached for the key at `since`: a claim that finds it expired,
      or a completion that evicts it. */
  predicate Lapses(e: Event, key: Key, since: nat) {
    match e
    case Finished(_, _, _, _, _, _, evicted) => key in evicted
    case Released(_, _, _) => false
    case _ => e.at >= since + IDEMPOTENCY_TTL
  }

  /** Such an event lies behind the last execution event of the key. */
  predicate Lapsed(history: seq<Event>, key: Key, since: nat) {
    if history == [] then false
    else
      var e := history[|history| - 1];
      !(IsExecution(e) && e.key == key) && (Lapses(e, key, since) || Lapsed(history[..|history| - 1], key, since))
  }

  /** A cached response is still there, from the time of its completion, or has lapsed. */
  ghost predicate CachedOrLapsed(s: System, key: Key) {
    var last := LastFor(s.history, key);
    IsCached(last) ==>
      || (key in s.entries && s.entries[key].state.Complete? && s.entries[key].createdAt == last.value.at)
      || Lapsed(s.history, key, last.value.at)
  }

  /** An execution of a key with a cached response begins only once that has lapsed. */
  predicate AwaitsLapse(history: seq<Event>, e: Event) {
    var last := LastFor(history, e.key);
    e.Began? && IsCached(last) ==> Lapses(e, e.key, last.value.at) || Lapsed(history, e.key, last.value.at)
  }

  ghost predicate CacheInv(s: System) {
    && (forall k :: CachedOrLapsed(s, k))
    && (forall i :: 0 <= i < |s.history| ==> AwaitsLapse(s.history[..i], s.history[i]))
  }

  ghost predicate Bounded(entries: Entries) {
    Total(entries) <= MAX_IDEMPOTENCY_CACHE_BYTES && |entries| <= MAX_IDEMPOTENCY_ENTRIES
  }

  /** What the history says about guards and entries. */
  ghost predicate HistoryInv(s: System) {
    && EntriesRecorded(s) && ReplaysFaithful(s.history) && ExecutionsOpen(s)
    && OpenAreGuarded(s) && Alternates(s.history)
  }

  ghost predicate Inv(s: System) {
    GuardsMatch(s) && HistoryInv(s) && CacheInv(s) && Bounded(s.entries)
  }

  // ----- history lemmas -----

  lemma LastForAppend(history: seq<Event>, e: Event, key: Key)
    ensures LastFor(history + [e], key) == if IsExecution(e) && e.key == key then Some(e) else LastFor(history, key)
  {
    assert (history + [e])[..|history|] == history;
  }

  lemma ReplaysAppend(history: seq<Event>, e: Event)
    requires ReplaysFaithful(history)
    requires e.Replayed? ==> Recorded(LastFor(history, e.key), e.fingerprint, e.response)
    ensures ReplaysFaithful(history + [e])
  {
    var h := history + [e];
    forall i | 0 <= i < |h| && h[i].Replayed?
      ensures Recorded(LastFor(h[..i], h[i].key), h[i].fingerprint, h[i].response)
    {
      assert h[..i] == history[..i];
      assert i < |history| ==> h[i] == history[i];
      assert history[..|history|] == history;
    }
  }

  lemma AlternatesAppend(history: seq<Event>, e: Event)
    requires Alternates(history) && MayFollow(LastFor(history, e.key), e)
    ensures Alternates(history + [e])
  {
    var h := history + [e];
    forall i | 0 <= i < |h|
      ensures MayFollow(LastFor(h[..i], h[i].key), h[i])
    {
      assert h[..i] == history[..i];
      assert i < |history| ==> h[i] == history[i];
      assert history[..|history|] == history;
    }
  }

  /** Index form: the event is in the history and no later execution event has its key. */
  lemma {:induction false} LastForIndex(history: seq<Event>, key: Key) returns (m: nat)
    requires LastFor(history, key).Some?
    ensures m < |history| && Some(history[m]) == LastFor(history, key)
    ensures history[m].key == key && IsExecution(history[m])
    ensures forall j :: m < j < |history| ==> !(IsExecution(history[j]) && history[j].key == key)
    decreases |history|
  {
    var n := |history| - 1;
    if IsExecution(history[n]) && history[n].key == key {
      m := n;
    } else {
      m := LastForIndex(history[..n], key);
    }
  }

  // ----- size bounds -----

  ghost predicate Submap(a: Entries, b: Entries) {
    a.Keys <= b.Keys && forall k :: k in a ==> a[k] == b[k]
  }

  lemma {:induction false} SubmapBound(a: Entries, b: Entries)
    requires Submap(a, b)
    ensures Total(a) <= Total(b) && |a| <= |b|
    decreases |b|
  {
    if k :| k in b && k !in a {
      TotalWithout(b, k);
      RemovalShrinks(b, k);
      SubmapBound(a, b - {k});
    } else {
      assert a == b;
    }
  }

  lemma ClaimedBounded(entries: Entries, key: Key, fingerprint: Fingerprint, now: nat)
    requires Bounded(entries)
    ensures Bounded(Claimed(entries, key, fingerprint, now))
  {
    var live := Live(entries, now);
    SubmapBound(live, entries);
    if key !in live && |live| < MAX_IDEMPOTENCY_ENTRIES {
      ReservedBounded(live, key, Entry(fingerprint, now, InFlight));
    }
  }

  lemma ReservedBounded(entries: Entries, key: Key, entry: Entry)
    requires Bounded(entries) && key !in entries && |entries| < MAX_IDEMPOTENCY_ENTRIES && entry.state.InFlight?
    ensures Bounded(entries[key := entry])
  {
    assert entries - {key} == entries;
    TotalUpdate(entries, key, entry);
  }

  lemma CompletedBounded(
    before: Entries, after: Entries, key: Key, fingerprint: Fingerprint, response: CachedResponse, now: nat,
    cached: bool)
    requires Bounded(before) && CompletedBy(before, after, key, fingerprint, response, now, cached)
    ensures Bounded(after)
  {
    if Owns(before, key, fingerprint) {
      var kept := after[key := before[key]];
      SubmapBound(kept, before);
      TotalWithout(kept, key);
      RemovalShrinks(kept, key);
      if cached {
        TotalUpdate(kept, key, Entry(fingerprint, now, Complete(response)));
      }
    }
  }

  lemma AbandonedBounded(entries: Entries, key: Key, fingerprint: Fingerprint)
    requires Bounded(entries)
    ensures Bounded(Abandoned(entries, key, fingerprint))
  {
    SubmapBound(Abandoned(entries, key, fingerprint), entries);
  }

  // ----- every step keeps the invariant -----

  /** A step whose event is e keeps the history invariants if every completed entry and every guard
      either is old and not affected by e, or is what e records, and e may follow what it follows. */
  lemma HistoryKeeps(s: System, t: System, e: Event)
    requires HistoryInv(s) && t.history == s.history + [e] && MayFollow(LastFor(s.history, e.key), e)
    requires e.Replayed? ==> Recorded(LastFor(s.history, e.key), e.fingerprint, e.response)
    requires forall k :: k in t.entries && t.entries[k].state.Complete? ==>
               if IsExecution(e) && e.key == k
               then Recorded(Some(e), t.entries[k].fingerprint, t.entries[k].state.response)
               else k in s.entries && t.entries[k] == s.entries[k]
    requires forall q :: q in t.guards ==>
               if IsExecution(e) && e.key == t.guards[q].key
               then BeganBy(Some(e), q, t.guards[q].fingerprint)
               else q in s.guards && t.guards[q] == s.guards[q]
    requires forall k :: (if IsExecution(e) && e.key == k then e.Began? else Guarded(s, k)) ==> Guarded(t, k)
    ensures HistoryInv(t)
  {
    ReplaysAppend(s.history, e);
    AlternatesAppend(s.history, e);
    forall k {
      LastForAppend(s.history, e, k);
    }
  }

  lemma LapsedAppend(history: seq<Event>, e: Event, key: Key, since: nat)
    ensures Lapsed(history + [e], key, since)
            <==> !(IsExecution(e) && e.key == key) && (Lapses(e, key, since) || Lapsed(history, key, since))
  {
    assert (history + [e])[..|history|] == history;
  }

  /** A step whose event is e keeps the cache invariant if every completed entry stays unless e ends its life,
      a caching completion leaves its entry, and a beginning finds no completed entry that is alive. */
  lemma CacheKeeps(s: System, t: System, e: Event)
    requires CacheInv(s) && t.history == s.history + [e]
    requires forall k :: k in s.entries && s.entries[k].state.Complete? && !(IsExecution(e) && e.key == k) ==>
               (k in t.entries && t.entries[k] == s.entries[k]) || Lapses(e, k, s.entries[k].createdAt)
    requires IsCached(Some(e)) ==>
               e.key in t.entries && t.entries[e.key].state.Complete? && t.entries[e.key].createdAt == e.at
    requires e.Began? && e.key in s.entries && s.entries[e.key].state.Complete? ==>
               Lapses(e, e.key, s.entries[e.key].createdAt)
    ensures CacheInv(t)
  {
    forall k
      ensures CachedOrLapsed(t, k)
    {
      LastForAppend(s.history, e, k);
      assert CachedOrLapsed(s, k);
      var last := LastFor(s.history, k);
      if IsCached(last) {
        LapsedAppend(s.history, e, k, last.value.at);
      }
    }
    assert CachedOrLapsed(s, e.key);
    assert AwaitsLapse(s.history, e);
    AwaitsAppend(s.history, e);
  }

  lemma AwaitsAppend(history: seq<Event>, e: Event)
    requires AwaitsLapse(history, e)
    requires forall i :: 0 <= i < |history| ==> AwaitsLapse(history[..i], history[i])
    ensures var h := history + [e]; forall i :: 0 <= i < |h| ==> AwaitsLapse(h[..i], h[i])
  {
    var h := history + [e];
    forall i | 0 <= i < |h|
      ensures AwaitsLapse(h[..i], h[i])
    {
      assert h[..i] == history[..i];
      assert i < |history| ==> h[i] == history[i];
      assert history[..|history|] == history;
    }
  }

  /** Guards other than r are the same, so what they guard stays guarded. */
  lemma GuardedStays(s: System, t: System, r: Request)
    requires forall q :: q in s.guards && q != r ==> q in t.guards && t.guards[q] == s.guards[q]
    ensures forall k :: Guarded(s, k) && !(r in s.guards && s.guards[r].key == k) ==> Guarded(t, k)
  {
    forall k | Guarded(s, k) && !(r in s.guards && s.guards[r].key == k)
      ensures Guarded(t, k)
    {
      var q :| q in s.guards && s.guards[q].key == k;
      assert q in t.guards && t.guards[q].key == k;
    }
  }

  /** A key that is not in flight has no open execution. */
  lemma NotOpen(s: System, key: Key)
    requires GuardsMatch(s) && OpenAreGuarded(s) && (key in s.entries ==> s.entries[key].state.Complete?)
    ensures !IsOpen(LastFor(s.history, key))
  {
    assert !Guarded(s, key);
  }

  lemma ClaimKeeps(s: System, t: System, r: Request, key: Key, fingerprint: Fingerprint, now: nat)
    requires Inv(s) && ClaimStep(s, t, r, key, fingerprint, now)
    ensures Inv(t)
  {
    ClaimedBounded(s.entries, key, fingerprint, now);
    ClaimCache(s, t, r, key, fingerprint, now);
    ClaimHistory(s, t, r, key, fingerprint, now);
  }

  lemma ClaimHistory(s: System, t: System, r: Request, key: Key, fingerprint: Fingerprint, now: nat)
    requires GuardsMatch(s) && HistoryInv(s) && ClaimStep(s, t, r, key, fingerprint, now)
    ensures GuardsMatch(t) && HistoryInv(t)
  {
    match ClaimResult(s.entries, key, fingerprint, now)
    case Execute => BeginKeeps(s, t, r, key, fingerprint, now);
    case Replay(response) => LookKeeps(s, t, Replayed(r, key, fingerprint, response, now), now);
    case _ => LookKeeps(s, t, Refused(r, key, fingerprint, now), now);
  }

  lemma ClaimCache(s: System, t: System, r: Request, key: Key, fingerprint: Fingerprint, now: nat)
    requires CacheInv(s) && ClaimStep(s, t, r, key, fingerprint, now)
    ensures CacheInv(t)
  {
    LiveUnlessLapsed(s.entries, now);
    match ClaimResult(s.entries, key, fingerprint, now)
    case Execute => CacheKeeps(s, t, Began(r, key, fingerprint, now));
    case Replay(response) => CacheKeeps(s, t, Replayed(r, key, fingerprint, response, now));
    case _ => CacheKeeps(s, t, Refused(r, key, fingerprint, now));
  }

  lemma LiveUnlessLapsed(entries: Entries, now: nat)
    ensures var live := Live(entries, now);
            forall k :: k in entries && entries[k].state.Complete? ==>
              (k in live && live[k] == entries[k]) || now >= entries[k].createdAt + IDEMPOTENCY_TTL
  {
  }

  /** A new execution: its entry and its guard are added, in-flight entries stay. */
  lemma BeginKeeps(s: System, t: System, r: Request, key: Key, fingerprint: Fingerprint, now: nat)
    requires GuardsMatch(s) && HistoryInv(s) && r !in s.guards
    requires t.guards == s.guards[r := Guard(key, fingerprint)]
    requires t.history == s.history + [Began(r, key, fingerprint, now)]
    requires Owns(t.entries, key, fingerprint) && (key in s.entries ==> s.entries[key].state.Complete?)
    requires forall k :: k in t.entries && k != key ==> k in s.entries && t.entries[k] == s.entries[k]
    requires forall k :: k in s.entries && s.entries[k].state.InFlight? ==> k in t.entries
    ensures GuardsMatch(t) && HistoryInv(t)
  {
    ExecuteMatches(s, t, r, key, fingerprint);
    NotOpen(s, key);
    GuardedStays(s, t, r);
    assert t.guards[r].key == key;
    HistoryKeeps(s, t, Began(r, key, fingerprint, now));
  }

  /** A claim that begins nothing. */
  lemma LookKeeps(s: System, t: System, e: Event, now: nat)
    requires GuardsMatch(s) && HistoryInv(s) && t.entries == Live(s.entries, now) && t.guards == s.guards
    requires t.history == s.history + [e] && !IsExecution(e)
    requires e.Replayed? ==> e.key in s.entries && s.entries[e.key].fingerprint == e.fingerprint
                             && s.entries[e.key].state == Complete(e.response)
    ensures GuardsMatch(t) && HistoryInv(t)
  {
    LiveMatches(s, t, now);
    GuardedStays(s, t, e.request);
    HistoryKeeps(s, t, e);
  }

  lemma LiveMatches(s: System, t: System, now: nat)
    requires GuardsMatch(s) && t.entries == Live(s.entries, now) && t.guards == s.guards
    ensures GuardsMatch(t)
  {
    forall k | k in t.entries && t.entries[k].state.InFlight?
      ensures Guarded(t, k)
    {
      assert Guarded(s, k);
    }
  }

  lemma ExecuteMatches(s: System, t: System, r: Request, key: Key, fingerprint: Fingerprint)
    requires GuardsMatch(s) && r !in s.guards && t.guards == s.guards[r := Guard(key, fingerprint)]
    requires Owns(t.entries, key, fingerprint) && (key in s.entries ==> s.entries[key].state.Complete?)
    requires forall k :: k in t.entries && k != key ==> k in s.entries && t.entries[k] == s.entries[k]
    requires forall k :: k in s.entries && s.entries[k].state.InFlight? ==> k in t.entries
    ensures GuardsMatch(t) && forall q :: q in t.guards && t.guards[q].key == key ==> q == r
  {
    forall k | k in t.entries && t.entries[k].state.InFlight?
      ensures Guarded(t, k)
    {
      if k == key {
        assert t.guards[r].key == k;
      } else {
        assert Guarded(s, k);
        var q :| q in s.guards && s.guards[q].key == k;
        assert q in t.guards && t.guards[q].key == k;
      }
    }
  }

  /** Completing or releasing touches no in-flight entry but the guard's own. */
  lemma OthersUntouched(s: System, t: System, r: Request)
    requires GuardsMatch(s) && r in s.guards
    requires t.guards == s.guards - {r}
    requires forall k :: k in s.entries && s.entries[k].state.InFlight? && k != s.guards[r].key ==>
               k in t.entries && t.entries[k] == s.entries[k]
    requires forall k :: k in t.entries && t.entries[k].state.InFlight? ==>
               k in s.entries && s.entries[k].state.InFlight? && k != s.guards[r].key
    ensures GuardsMatch(t) && forall q :: q in t.guards ==> t.guards[q].key != s.guards[r].key
  {
    forall k | k in t.entries && t.entries[k].state.InFlight?
      ensures Guarded(t, k)
    {
      assert Guarded(s, k);
      var q :| q in s.guards && s.guards[q].key == k;
      assert q in t.guards && t.guards[q].key == k;
    }
  }

  /** What completing does to each entry. */
  ghost predicate OneCompleted(before: Entries, after: Entries, key: Key, completed: Entry, cached: bool) {
    && (key in after <==> cached) && (cached ==> after[key] == completed)
    && (forall k :: k in after && k != key ==> k in before && after[k] == before[k])
    && (forall k :: k in before && before[k].state.InFlight? && k != key ==> k in after && after[k] == before[k])
  }

  lemma CompletedEntries(
    before: Entries, after: Entries, key: Key, fingerprint: Fingerprint, response: CachedResponse, now: nat,
    cached: bool)
    requires Owns(before, key, fingerprint) && CompletedBy(before, after, key, fingerprint, response, now, cached)
    ensures OneCompleted(before, after, key, Entry(fingerprint, now, Complete(response)), cached)
  {
    var kept := after[key := before[key]];
    assert forall k :: k in after && k != key ==> k in kept && kept[k] == after[k];
  }

  ghost predicate CompletedFor(
    s: System, t: System, r: Request, response: CachedResponse, now: nat, cached: bool)
    requires r in s.guards
  {
    var g := s.guards[r];
    OneCompleted(s.entries, t.entries, g.key, Entry(g.fingerprint, now, Complete(response)), cached)
  }

  function FinishedBy(s: System, t: System, r: Request, response: CachedResponse, now: nat, cached: bool): Event
    requires r in s.guards
  {
    var g := s.guards[r];
    Finished(r, g.key, g.fingerprint, response, cached, now, s.entries.Keys - t.entries.Keys - {g.key})
  }

  lemma CompletionKeeps(s: System, t: System, r: Request, response: CachedResponse, now: nat, cached: bool)
    requires GuardsMatch(s) && HistoryInv(s) && r in s.guards
    requires CompletedFor(s, t, r, response, now, cached) && t.guards == s.guards - {r}
    requires t.history == s.history + [FinishedBy(s, t, r, response, now, cached)]
    ensures GuardsMatch(t) && HistoryInv(t)
  {
    OthersUntouched(s, t, r);
    GuardedStays(s, t, r);
    HistoryKeeps(s, t, FinishedBy(s, t, r, response, now, cached));
  }

  lemma CompletionCache(s: System, t: System, r: Request, response: CachedResponse, now: nat, cached: bool)
    requires CacheInv(s) && r in s.guards && CompletedFor(s, t, r, response, now, cached)
    requires t.history == s.history + [FinishedBy(s, t, r, response, now, cached)]
    ensures CacheInv(t)
  {
    CacheKeeps(s, t, FinishedBy(s, t, r, response, now, cached));
  }

  lemma CompleteKeeps(s: System, t: System, r: Request, response: CachedResponse, now: nat, cached: bool)
    requires Inv(s) && CompleteStep(s, t, r, response, now, cached)
    ensures Inv(t)
  {
    var g := s.guards[r];
    CompletedBounded(s.entries, t.entries, g.key, g.fingerprint, response, now, cached);
    CompletedEntries(s.entries, t.entries, g.key, g.fingerprint, response, now, cached);
    CompletionKeeps(s, t, r, response, now, cached);
    CompletionCache(s, t, r, response, now, cached);
  }

  /** What releasing does to each entry. */
  ghost predicate OneRemoved(before: Entries, after: Entries, key: Key) {
    && key !in after
    && (forall k :: k in after ==> k in before && after[k] == before[k])
    && (forall k :: k in before && k != key ==> k in after)
  }

  lemma RemovalKeeps(s: System, t: System, r: Request)
    requires GuardsMatch(s) && HistoryInv(s) && r in s.guards
    requires var g := s.guards[r];
             && OneRemoved(s.entries, t.entries, g.key) && t.guards == s.guards - {r}
             && t.history == s.history + [Released(r, g.key, g.fingerprint)]
    ensures GuardsMatch(t) && HistoryInv(t)
  {
    var g := s.guards[r];
    OthersUntouched(s, t, r);
    GuardedStays(s, t, r);
    HistoryKeeps(s, t, Released(r, g.key, g.fingerprint));
  }

  lemma ReleaseKeeps(s: System, t: System, r: Request)
    requires Inv(s) && ReleaseStep(s, t, r)
    ensures Inv(t)
  {
    var g := s.guards[r];
    AbandonedBounded(s.entries, g.key, g.fingerprint);
    assert Owns(s.entries, g.key, g.fingerprint);
    assert OneRemoved(s.entries, t.entries, g.key);
    RemovalKeeps(s, t, r);
    CacheKeeps(s, t, Released(r, g.key, g.fingerprint));
  }

  lemma NextKeeps(s: System, t: System)
    requires Inv(s) && Next(s, t)
    ensures Inv(t)
  {
    if r, key, fingerprint, now :| ClaimStep(s, t, r, key, fingerprint, now) {
      ClaimKeeps(s, t, r, key, fingerprint, now);
    } else if r, response, now, cached :| CompleteStep(s, t, r, response, now, cached) {
      CompleteKeeps(s, t, r, response, now, cached);
    } else {
      var r :| ReleaseStep(s, t, r);
      ReleaseKeeps(s, t, r);
    }
  }

  /** The invariant holds in every state of every run. */
  lemma {:induction false} RunInvariant(run: seq<System>, i: nat)
    requires IsRun(run) && i < |run|
    ensures Inv(run[i])
  {
    if i == 0 {
      EmptyInv();
    } else {
      RunInvariant(run, i - 1);
      StepKeeps(run, i);
    }
  }

  lemma EmptyInv()
    ensures Inv(EMPTY)
  {
    assert Total(EMPTY.entries) == 0;
  }

  lemma StepKeeps(run: seq<System>, i: nat)
    requires 0 < i < |run| && StepAt(run, i) && Inv(run[i - 1])
    ensures Inv(run[i])
  {
    NextKeeps(run[i - 1], run[i]);
  }

  lemma RunGuards(run: seq<System>, i: nat)
    requires IsRun(run) && i < |run|
    ensures GuardsMatch(run[i])
  {
    RunInvariant(run, i);
  }

  lemma RunHistory(run: seq<System>, i: nat)
    requires IsRun(run) && i < |run|
    ensures ReplaysFaithful(run[i].history) && Alternates(run[i].history)
  {
    RunInvariant(run, i);
  }

  // ----- what it means -----

  /** At most one request executes a key at a time. */
  lemma OneExecutionPerKey(run: seq<System>, i: nat, r: Request, q: Request)
    requires IsRun(run) && i < |run|
    requires r in run[i].guards && q in run[i].guards && run[i].guards[r].key == run[i].guards[q].key
    ensures r == q
  {
    RunGuards(run, i);
  }

  /** Executions of a key do not overlap: between two beginnings lies the end of the first, by the request
      that began it. */
  lemma ExecutionsDoNotOverlap(run: seq<System>, i: nat, a: nat, b: nat) returns (m: nat)
    requires IsRun(run) && i < |run| && a < b < |run[i].history|
    requires run[i].history[a].Began? && run[i].history[b].Began? && run[i].history[a].key == run[i].history[b].key
    ensures var h := run[i].history;
            && a < m < b && (h[m].Finished? || h[m].Released?)
            && h[m].key == h[a].key && h[m].fingerprint == h[a].fingerprint && h[m].request == h[a].request
  {
    RunHistory(run, i);
    m := NextEnd(run[i].history, a, b);
  }

  /** The first execution event of the key behind its beginning at a ends it. */
  lemma {:induction false} NextEnd(h: seq<Event>, a: nat, b: nat) returns (m: nat)
    requires Alternates(h) && a < b < |h| && h[a].Began? && h[b].Began? && h[a].key == h[b].key
    ensures a < m < b && (h[m].Finished? || h[m].Released?)
    ensures h[m].key == h[a].key && h[m].fingerprint == h[a].fingerprint && h[m].request == h[a].request
    decreases b
  {
    var last := LastBefore(h, a, b, h[a].key);
    assert MayFollow(LastFor(h[..b], h[b].key), h[b]) && MayFollow(LastFor(h[..last], h[last].key), h[last]);
    var begin := LastBefore(h, a, last, h[a].key);
    if begin == a {
      m := last;
    } else {
      m := NextEnd(h, a, begin);
    }
  }

  /** The last execution event of a key before b lies at or behind any earlier one. */
  lemma LastBefore(h: seq<Event>, a: nat, b: nat, key: Key) returns (m: nat)
    requires a < b <= |h| && IsExecution(h[a]) && h[a].key == key
    ensures a <= m < b && LastFor(h[..b], key) == Some(h[m]) && h[m].key == key && IsExecution(h[m])
  {
    LastExists(h[..b], a, key);
    m := LastForIndex(h[..b], key);
  }

  lemma {:induction false} LastExists(h: seq<Event>, a: nat, key: Key)
    requires a < |h| && IsExecution(h[a]) && h[a].key == key
    ensures LastFor(h, key).Some?
  {
    if a == |h| - 1 {
    } else {
      LastExists(h[..|h| - 1], a, key);
    }
  }

  /** When a guard completes or is released, the entry is its own and in flight. Releasing removes
      that entry and nothing else; completing removes no other in-flight entry. */
  lemma GuardsRemoveOnlyTheirOwn(run: seq<System>, i: nat, r: Request)
    requires IsRun(run) && 0 < i < |run| && r in run[i - 1].guards
    ensures Owns(run[i - 1].entries, run[i - 1].guards[r].key, run[i - 1].guards[r].fingerprint)
    ensures var s, t := run[i - 1], run[i];
            var gone := s.entries.Keys - t.entries.Keys;
            && (ReleaseStep(s, t, r) ==> gone == {s.guards[r].key})
            && (forall response, now, cached :: CompleteStep(s, t, r, response, now, cached) ==>
                  forall k :: k in gone ==> k == s.guards[r].key || s.entries[k].state.Complete?)
  {
    RunGuards(run, i - 1);
  }

  /** Every replay returns the response recorded by the latest execution of the same key and
      fingerprint, and no execution of the key began, finished or was released in between. */
  lemma ReplayFidelity(run: seq<System>, i: nat, n: nat) returns (m: nat)
    requires IsRun(run) && i < |run|
    requires n < |run[i].history| && run[i].history[n].Replayed?
    ensures var h := run[i].history;
            && m < n && h[m].Finished? && h[m].cached
            && h[m].key == h[n].key && h[m].fingerprint == h[n].fingerprint && h[m].response == h[n].response
            && forall j :: m < j < n ==> !(IsExecution(h[j]) && h[j].key == h[n].key)
  {
    RunHistory(run, i);
    var h := run[i].history;
    m := LastForIndex(h[..n], h[n].key);
  }

  /** A completed request is not executed again while its response is cached: where an execution of a key
      begins and the last one before it had its response cached, since then a completion evicted it, or a
      claim came 24 hours later or more; that of the new execution itself, at the latest. */
  lemma NoEarlyRepeat(run: seq<System>, i: nat, b: nat) returns (m: nat, j: nat)
    requires IsRun(run) && i < |run| && b < |run[i].history| && run[i].history[b].Began?
    requires IsCached(LastFor(run[i].history[..b], run[i].history[b].key))
    ensures var h := run[i].history;
            && m < j <= b && h[m].Finished? && h[m].cached && h[m].key == h[b].key
            && (forall n :: m < n < b ==> !(IsExecution(h[n]) && h[n].key == h[b].key))
            && Lapses(h[j], h[b].key, h[m].at)
  {
    RunCache(run, i);
    var h := run[i].history;
    var key := h[b].key;
    assert AwaitsLapse(h[..b], h[b]);
    m := LastForIndex(h[..b], key);
    j := b;
    if !Lapses(h[b], key, h[m].at) {
      j := LapsedIndex(h[..b], key, h[m].at, m);
    }
  }

  lemma RunCache(run: seq<System>, i: nat)
    requires IsRun(run) && i < |run|
    ensures CacheInv(run[i])
  {
    RunInvariant(run, i);
  }

  lemma {:induction false} LapsedIndex(h: seq<Event>, key: Key, since: nat, m: nat) returns (j: nat)
    requires m < |h| && IsExecution(h[m]) && h[m].key == key && Lapsed(h, key, since)
    ensures m < j < |h| && Lapses(h[j], key, since)
    decreases |h|
  {
    var n := |h| - 1;
    if Lapses(h[n], key, since) {
      j := n;
    } else {
      j := LapsedIndex(h[..n], key, since, m);
    }
  }

  /** The key is live under another fingerprint: some request executes it, or its response is cached and
      has not expired. */
  ghost predicate LiveUnderAnother(s: System, key: Key, fingerprint: Fingerprint, now: nat) {
    || (exists q :: q in s.guards && s.guards[q].key == key && s.guards[q].fingerprint != fingerprint)
    || (key in s.entries && s.entries[key].state.Complete? && Keep(s.entries[key], now)
        && s.entries[key].fingerprint != fingerprint)
  }

  /** A refusal: same guards, nothing begun or replayed, and the same entry for the key. */
  ghost predicate RefusedFor(s: System, t: System, r: Request, key: Key, fingerprint: Fingerprint, now: nat) {
    && t.guards == s.guards && t.history == s.history + [Refused(r, key, fingerprint, now)]
    && key in s.entries && key in t.entries && t.entries[key] == s.entries[key]
  }

  /** A claim conflicts exactly if its key is live under another fingerprint, and then it starts nothing,
      replays nothing and leaves that entry as it is. */
  ghost predicate ConflictsExactly(
    s: System, t: System, r: Request, key: Key, fingerprint: Fingerprint, now: nat)
  {
    && (ClaimResult(s.entries, key, fingerprint, now).Conflict? <==> LiveUnderAnother(s, key, fingerprint, now))
    && (LiveUnderAnother(s, key, fingerprint, now) ==> RefusedFor(s, t, r, key, fingerprint, now))
  }

  /** In every run reuse of a live key for another request is refused, and only that is a conflict. */
  lemma LiveKeyConflicts(run: seq<System>, i: nat, r: Request, key: Key, fingerprint: Fingerprint, now: nat)
    requires IsRun(run) && 0 < i < |run| && ClaimStep(run[i - 1], run[i], r, key, fingerprint, now)
    ensures ConflictsExactly(run[i - 1], run[i], r, key, fingerprint, now)
  {
    RunGuards(run, i - 1);
    ClaimConflicts(run[i - 1], run[i], r, key, fingerprint, now);
  }

  lemma ClaimConflicts(s: System, t: System, r: Request, key: Key, fingerprint: Fingerprint, now: nat)
    requires GuardsMatch(s) && ClaimStep(s, t, r, key, fingerprint, now)
    ensures ConflictsExactly(s, t, r, key, fingerprint, now)
  {
    ConflictExactly(s, key, fingerprint, now);
    ConflictEffect(s, t, r, key, fingerprint, now);
  }

  lemma ConflictExactly(s: System, key: Key, fingerprint: Fingerprint, now: nat)
    requires GuardsMatch(s)
    ensures ClaimResult(s.entries, key, fingerprint, now).Conflict? <==> LiveUnderAnother(s, key, fingerprint, now)
  {
    if key in s.entries && s.entries[key].state.InFlight? {
      assert Guarded(s, key);
      var q :| q in s.guards && s.guards[q].key == key;
      assert Owns(s.entries, key, s.guards[q].fingerprint);
    }
  }

  lemma ConflictEffect(s: System, t: System, r: Request, key: Key, fingerprint: Fingerprint, now: nat)
    requires ClaimStep(s, t, r, key, fingerprint, now)
    ensures ClaimResult(s.entries, key, fingerprint, now).Conflict? ==> RefusedFor(s, t, r, key, fingerprint, now)
  {
  }
}
