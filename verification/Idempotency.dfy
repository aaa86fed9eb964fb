/** The bounded idempotency store of `crates/rt-api-model/src/idempotency.rs`.
    Instants are natural numbers (nanoseconds); an operation gets the instant it reads. */
module Idempotency {
  import opened Bytes

  type Key = seq<uint8>
  type Fingerprint = seq<uint8>

  const MAX_IDEMPOTENCY_ENTRIES: nat := 1_024
  const IDEMPOTENCY_TTL: nat := 24 * 60 * 60 * 1_000_000_000
  const MAX_IDEMPOTENCY_CACHE_BYTES: nat := 32 * 1024 * 1024

  datatype Header = Header(name: seq<uint8>, value: seq<uint8>)

  datatype CachedResponse = CachedResponse(status: nat, headers: seq<Header>, body: seq<uint8>)

  datatype EntryState = InFlight | Complete(response: CachedResponse)

  datatype Entry = Entry(fingerprint: Fingerprint, createdAt: nat, state: EntryState)

  type Entries = map<Key, Entry>

  datatype Claim = Execute | Wait | Replay(response: CachedResponse) | Conflict | Saturated

  // ----- sizes -----

  function SaturatingAdd(a: nat, b: nat): nat {
    if a + b > USIZE_MAX then USIZE_MAX else a + b
  }

  function SaturatingSub(a: nat, b: nat): nat {
    if a < b then 0 else a - b
  }

  function HeaderBytes(headers: seq<Header>): nat {
    if headers == [] then 0
    else
      var h := headers[|headers| - 1];
      SaturatingAdd(HeaderBytes(headers[..|headers| - 1]), SaturatingAdd(|h.name|, |h.value|))
  }

  function ResponseSize(response: CachedResponse): nat {
    SaturatingAdd(|response.body|, HeaderBytes(response.headers))
  }

  function SizeOf(entry: Entry): nat {
    if entry.state.Complete? then ResponseSize(entry.state.response) else 0
  }

  ghost function Sum(sizes: map<Key, nat>): nat
    decreases |sizes|
  {
    if sizes == map[] then 0
    else
      var k :| k in sizes;
      RemovalShrinks(sizes, k);
      sizes[k] + Sum(sizes - {k})
  }

  lemma RemovalShrinks<V>(m: map<Key, V>, k: Key)
    requires k in m
    ensures |m - {k}| == |m| - 1
  {
    assert (m - {k}).Keys == m.Keys - {k};
    assert |(m - {k}).Keys| == |m.Keys| - 1;
  }

  /** The sum does not depend on the order in which it is taken. */
  lemma {:induction false} SumWithout(sizes: map<Key, nat>, k: Key)
    requires k in sizes
    ensures Sum(sizes) == sizes[k] + Sum(sizes - {k})
    decreases |sizes|
  {
    var c :| c in sizes && Sum(sizes) == sizes[c] + Sum(sizes - {c});
    if c != k {
      RemovalShrinks(sizes, c);
      RemovalShrinks(sizes, k);
      SumWithout(sizes - {c}, k);
      SumWithout(sizes - {k}, c);
      assert sizes - {c} - {k} == sizes - {k} - {c};
    }
  }

  /** Bytes of all completed responses. */
  ghost function Total(entries: Entries): nat {
    Sum(map k | k in entries :: SizeOf(entries[k]))
  }

  lemma TotalWithout(entries: Entries, k: Key)
    requires k in entries
    ensures Total(entries) == SizeOf(entries[k]) + Total(entries - {k})
  {
    var sizes := map k | k in entries :: SizeOf(entries[k]);
    var less := entries - {k};
    assert sizes - {k} == map k | k in less :: SizeOf(less[k]);
    SumWithout(sizes, k);
  }

  lemma TotalUpdate(entries: Entries, k: Key, entry: Entry)
    ensures Total(entries[k := entry]) == SizeOf(entry) + Total(entries - {k})
  {
    TotalWithout(entries[k := entry], k);
    assert entries[k := entry] - {k} == entries - {k};
  }

  // ----- what the operations do to the entries -----

  predicate Keep(entry: Entry, now: nat) {
    entry.state.InFlight? || SaturatingSub(now, entry.createdAt) < IDEMPOTENCY_TTL
  }

  /** Entries that have not expired. */
  function Live(entries: Entries, now: nat): Entries {
    map k | k in entries && Keep(entries[k], now) :: entries[k]
  }

  function ClaimResult(entries: Entries, key: Key, fingerprint: Fingerprint, now: nat): Claim {
    var live := Live(entries, now);
    if key in live then
      if live[key].fingerprint != fingerprint then Conflict
      else match live[key].state
           case InFlight => Wait
           case Complete(response) => Replay(response)
    else if |live| >= MAX_IDEMPOTENCY_ENTRIES then Saturated
    else Execute
  }

  function Claimed(entries: Entries, key: Key, fingerprint: Fingerprint, now: nat): Entries {
    var live := Live(entries, now);
    if ClaimResult(entries, key, fingerprint, now).Execute? then live[key := Entry(fingerprint, now, InFlight)]
    else live
  }

  /** The entry is in flight for this request. */
  predicate Owns(entries: Entries, key: Key, fingerprint: Fingerprint) {
    key in entries && entries[key].fingerprint == fingerprint && entries[key].state.InFlight?
  }

  /** `after` is `before` without some completed entries, removed oldest first and only while
      `size` more bytes did not fit. */
  ghost predicate Evicted(before: Entries, after: Entries, size: nat) {
    var gone := before.Keys - after.Keys;
    && after.Keys <= before.Keys && (forall k :: k in after ==> after[k] == before[k])
    && (forall k :: k in gone ==> before[k].state.Complete?)
    && (forall g, k :: g in gone && k in after && after[k].state.Complete? ==>
          before[g].createdAt <= after[k].createdAt)
    && (gone != {} ==> exists last :: last in gone && LastEvicted(before, after, last, size))
  }

  /** Before its last victim went, the response did not fit; no other victim is younger. */
  ghost predicate LastEvicted(before: Entries, after: Entries, last: Key, size: nat)
    requires last in before
  {
    && Total(after) + SizeOf(before[last]) + size > MAX_IDEMPOTENCY_CACHE_BYTES
    && forall g :: g in before.Keys - after.Keys ==> before[g].createdAt <= before[last].createdAt
  }

  /** Eviction ended: the response fits, or nothing completed is left. */
  ghost predicate EvictionDone(entries: Entries, size: nat) {
    Total(entries) + size <= MAX_IDEMPOTENCY_CACHE_BYTES || forall k :: k in entries ==> entries[k].state.InFlight?
  }

  /** Everything `complete` may do. */
  ghost predicate CompletedBy(
    before: Entries, after: Entries, key: Key, fingerprint: Fingerprint, response: CachedResponse, now: nat,
    cached: bool)
  {
    if !Owns(before, key, fingerprint) then after == before && !cached
    else
      var size := ResponseSize(response);
      var kept := after[key := before[key]];
      && Evicted(before, kept, size) && EvictionDone(kept, size)
      && cached == (Total(kept) + size <= MAX_IDEMPOTENCY_CACHE_BYTES)
      && after == if cached then kept[key := Entry(fingerprint, now, Complete(response))] else kept - {key}
  }

  function Abandoned(entries: Entries, key: Key, fingerprint: Fingerprint): Entries {
    if key in entries && entries[key].fingerprint == fingerprint then entries - {key} else entries
  }

  // ----- the store -----

  class IdempotencyStore {
    var entries: Entries
    var cachedBytes: nat

    /** The byte count is exact and within its bound, and so is the number of entries. */
    ghost predicate Valid()
      reads this
    {
      && cachedBytes == Total(entries) <= MAX_IDEMPOTENCY_CACHE_BYTES
      && |entries| <= MAX_IDEMPOTENCY_ENTRIES
    }

    constructor ()
      ensures Valid() && entries == map[]
    {
      entries, cachedBytes := map[], 0;
    }

    /** Takes an entry out, with its bytes; the subtraction never saturates. */
    method Remove(key: Key)
      requires Valid() && key in entries
      modifies this
      ensures Valid() && entries == old(entries) - {key} && |entries| == |old(entries)| - 1
    {
      TotalWithout(entries, key);
      RemovalShrinks(entries, key);
      if entries[key].state.Complete? {
        cachedBytes := SaturatingSub(cachedBytes, ResponseSize(entries[key].state.response));
      }
      entries := entries - {key};
    }

    /** Drops expired entries. */
    method Expire(now: nat)
      requires Valid()
      modifies this
      ensures Valid() && entries == Live(old(entries), now)
    {
      var todo := entries.Keys;
      while todo != {}
        invariant todo <= entries.Keys && Valid()
        invariant forall k :: k in entries ==> k in old(entries) && entries[k] == old(entries)[k]
        invariant forall k :: k in old(entries) ==> (k in entries <==> k in todo || Keep(old(entries)[k], now))
        decreases |todo|
      {
        var k :| k in todo;
        todo := todo - {k};
        if !Keep(entries[k], now) {
          Remove(k);
        }
      }
    }

    method Claim(key: Key, fingerprint: Fingerprint, now: nat) returns (r: Claim)
      requires Valid()
      modifies this
      ensures Valid()
      ensures r == ClaimResult(old(entries), key, fingerprint, now)
      ensures entries == Claimed(old(entries), key, fingerprint, now)
    {
      Expire(now);
      if key in entries {
        var entry := entries[key];
        if entry.fingerprint != fingerprint {
          return Conflict;
        }
        match entry.state
        case InFlight => return Wait;
        case Complete(response) => return Replay(response);
      }
      if |entries| >= MAX_IDEMPOTENCY_ENTRIES {
        return Saturated;
      }
      TotalUpdate(entries, key, Entry(fingerprint, now, InFlight));
      assert entries - {key} == entries;
      entries := entries[key := Entry(fingerprint, now, InFlight)];
      return Execute;
    }

    /** The key of a completed entry that no completed entry is older than. */
    method Oldest() returns (r: Option<Key>)
      ensures r.Some? ==>
                && r.value in entries && entries[r.value].state.Complete?
                && forall k :: k in entries && entries[k].state.Complete? ==>
                     entries[r.value].createdAt <= entries[k].createdAt
      ensures r.None? ==> forall k :: k in entries ==> entries[k].state.InFlight?
    {
      r := None;
      var todo := entries.Keys;
      while todo != {}
        invariant todo <= entries.Keys
        invariant r.Some? ==> r.value in entries && entries[r.value].state.Complete?
        invariant forall k :: k in entries && k !in todo && entries[k].state.Complete? ==>
                    r.Some? && entries[r.value].createdAt <= entries[k].createdAt
        decreases |todo|
      {
        var k :| k in todo;
        todo := todo - {k};
        if entries[k].state.Complete? && (r.None? || entries[k].createdAt < entries[r.value].createdAt) {
          r := Some(k);
        }
      }
    }

    /** Evicts completed entries until `size` more bytes fit or none is left. */
    method MakeRoom(size: nat)
      requires Valid()
      modifies this
      ensures Valid() && Evicted(old(entries), entries, size) && EvictionDone(entries, size)
    {
      while SaturatingAdd(cachedBytes, size) > MAX_IDEMPOTENCY_CACHE_BYTES
        invariant Valid() && Evicted(old(entries), entries, size)
        decreases |entries|
      {
        var oldest := Oldest();
        if oldest.None? {
          break;
        }
        EvictOne(oldest.value, size, old(entries));
      }
    }

    method EvictOne(victim: Key, size: nat, ghost before: Entries)
      requires Valid() && cachedBytes + size > MAX_IDEMPOTENCY_CACHE_BYTES && Evicted(before, entries, size)
      requires victim in entries && entries[victim].state.Complete?
      requires forall k :: k in entries && entries[k].state.Complete? ==>
                 entries[victim].createdAt <= entries[k].createdAt
      modifies this
      ensures Valid() && Evicted(before, entries, size) && |entries| < |old(entries)|
    {
      EvictedStep(before, entries, victim, size);
      Remove(victim);
    }

    method Complete(key: Key, fingerprint: Fingerprint, response: CachedResponse, now: nat) returns (cached: bool)
      requires Valid()
      modifies this
      ensures Valid()
      ensures CompletedBy(old(entries), entries, key, fingerprint, response, now, cached)
    {
      var size := ResponseSize(response);
      if key !in entries || entries[key].fingerprint != fingerprint || !entries[key].state.InFlight? {
        return false;
      }
      MakeRoom(size);
      assert entries[key] == old(entries)[key];
      cached := Settle(key, response, now);
    }

    /** The last part of `complete`, once there is room or nothing more to evict. */
    method Settle(key: Key, response: CachedResponse, now: nat) returns (cached: bool)
      requires Valid() && key in entries && entries[key].state.InFlight?
      modifies this
      ensures Valid() && old(entries) == entries[key := old(entries)[key]]
      ensures cached == (Total(old(entries)) + ResponseSize(response) <= MAX_IDEMPOTENCY_CACHE_BYTES)
      ensures var completed := Entry(old(entries)[key].fingerprint, now, EntryState.Complete(response));
              entries == if cached then old(entries)[key := completed] else old(entries) - {key}
    {
      var size := ResponseSize(response);
      if SaturatingAdd(cachedBytes, size) > MAX_IDEMPOTENCY_CACHE_BYTES {
        Remove(key);
        cached := false;
      } else {
        var entry := entries[key].(createdAt := now, state := EntryState.Complete(response));
        TotalWithout(entries, key);
        TotalUpdate(entries, key, entry);
        entries := entries[key := entry];
        cachedBytes := SaturatingAdd(cachedBytes, size);
        cached := true;
      }
      assert old(entries) == entries[key := old(entries)[key]];
    }

    method Abandon(key: Key, fingerprint: Fingerprint)
      requires Valid()
      modifies this
      ensures Valid() && entries == Abandoned(old(entries), key, fingerprint)
    {
      if key !in entries || entries[key].fingerprint != fingerprint {
        return;
      }
      Remove(key);
    }
  }

  lemma EvictedStep(before: Entries, now: Entries, victim: Key, size: nat)
    requires Evicted(before, now, size) && Total(now) + size > MAX_IDEMPOTENCY_CACHE_BYTES
    requires victim in now && now[victim].state.Complete?
    requires forall k :: k in now && now[k].state.Complete? ==> now[victim].createdAt <= now[k].createdAt
    ensures Evicted(before, now - {victim}, size)
  {
    var after := now - {victim};
    TotalWithout(now, victim);
    assert before.Keys - after.Keys == (before.Keys - now.Keys) + {victim};
    assert LastEvicted(before, after, victim, size);
  }

  /** Owns an in-flight claim; releases it when dropped. */
  class ExecutionGuard {
    const store: IdempotencyStore
    const key: Key
    const fingerprint: Fingerprint
    var armed: bool

    constructor (store: IdempotencyStore, key: Key, fingerprint: Fingerprint)
      ensures this.store == store && this.key == key && this.fingerprint == fingerprint && armed
    {
      this.store, this.key, this.fingerprint, armed := store, key, fingerprint, true;
    }

    method Complete(response: CachedResponse, now: nat)
      requires store.Valid()
      modifies this, store
      ensures store.Valid() && !armed
      ensures !old(armed) ==> store.entries == old(store.entries)
      ensures old(armed) ==>
                exists cached :: CompletedBy(old(store.entries), store.entries, key, fingerprint, response, now, cached)
    {
      if armed {
        var cached := store.Complete(key, fingerprint, response, now);
        armed := false;
      }
    }

    /** Also what dropping the guard does. */
    method Abandon()
      requires store.Valid()
      modifies this, store
      ensures store.Valid() && !armed
      ensures store.entries ==
              if old(armed) then Abandoned(old(store.entries), key, fingerprint) else old(store.entries)
    {
      if armed {
        store.Abandon(key, fingerprint);
        armed := false;
      }
    }
  }
}
