/** The login attempt limiter (`sidecar/src/auth.rs`): a fixed window per client, opened by the first
    attempt, in a table of bounded size. Times are nanoseconds. */
module LoginLimiter {
  import opened Bytes
  import opened Collections

  const MAX_ATTEMPTS: nat := 10
  const SECOND: nat := 1_000_000_000
  const WINDOW: nat := 60 * SECOND
  const MAX_CLIENTS: nat := 4096

  /** A peer address; requests without one share a bucket. */
  type Client = Option<nat>

  datatype Window = Window(started: nat, attempts: nat)

  type Clients = map<Client, Window>

  datatype Verdict = Admitted | RetryAfter(seconds: nat)

  function Elapsed(w: Window, now: nat): nat {
    if now < w.started then 0 else now - w.started
  }

  predicate Expired(w: Window, now: nat) {
    Elapsed(w, now) >= WINDOW
  }

  /** Whole seconds, rounded up, at least one. */
  function WholeSeconds(duration: nat): nat {
    var up := duration / SECOND + if duration % SECOND != 0 then 1 else 0;
    if up < 1 then 1 else up
  }

  function Live(clients: Clients, now: nat): Clients {
    map c | c in clients && !Expired(clients[c], now) :: clients[c]
  }

  /** Room for one more client: expired windows go only when the table is full, and a live one only
      when it is full of live ones, and then the one that started first. */
  ghost predicate MadeRoom(before: Clients, now: nat, after: Clients) {
    if |before| < MAX_CLIENTS then after == before
    else if |Live(before, now)| < MAX_CLIENTS then after == Live(before, now)
    else exists oldest :: IsOldest(Live(before, now), oldest) && after == Live(before, now) - {oldest}
  }

  ghost predicate IsOldest(clients: Clients, oldest: Client) {
    oldest in clients && forall c :: c in clients ==> clients[oldest].started <= clients[c].started
  }

  /** One attempt of a client at time `now`. */
  ghost predicate Attempts(before: Clients, client: Client, now: nat, v: Verdict, after: Clients) {
    if client in before then
      var w := before[client];
      if Expired(w, now) then v == Admitted && after == before[client := Window(now, 1)]
      else if w.attempts >= MAX_ATTEMPTS then
        v == RetryAfter(WholeSeconds(WINDOW - Elapsed(w, now))) && after == before
      else v == Admitted && after == before[client := w.(attempts := w.attempts + 1)]
    else
      v == Admitted && exists room :: MadeRoom(before, now, room) && after == room[client := Window(now, 1)]
  }

  ghost predicate ValidTable(clients: Clients) {
    && |clients| <= MAX_CLIENTS
    && forall c :: c in clients ==> 1 <= clients[c].attempts <= MAX_ATTEMPTS
  }

  class LoginAttemptLimiter {
    var clients: Clients

    constructor ()
      ensures clients == map[]
    {
      clients := map[];
    }

    method BeginAttempt(client: Client, now: nat) returns (v: Verdict)
      requires ValidTable(clients)
      modifies this
      ensures ValidTable(clients) && Attempts(old(clients), client, now, v, clients)
    {
      if client in clients {
        v := Repeat(client, now);
        return;
      }
      MakeRoom(now);
      clients := clients[client := Window(now, 1)];
      v := Admitted;
    }

    /** An attempt of a client that has a window. */
    method Repeat(client: Client, now: nat) returns (v: Verdict)
      requires ValidTable(clients) && client in clients
      modifies this
      ensures ValidTable(clients) && Attempts(old(clients), client, now, v, clients)
    {
      var w := clients[client];
      var elapsed := Elapsed(w, now);
      if elapsed >= WINDOW {
        clients := clients[client := Window(now, 1)];
        return Admitted;
      }
      if w.attempts >= MAX_ATTEMPTS {
        return RetryAfter(WholeSeconds(WINDOW - elapsed));
      }
      clients := clients[client := w.(attempts := w.attempts + 1)];
      v := Admitted;
    }

    method MakeRoom(now: nat)
      requires ValidTable(clients)
      modifies this
      ensures MadeRoom(old(clients), now, clients) && |clients| < MAX_CLIENTS
      ensures clients.Keys <= old(clients.Keys) && forall c :: c in clients ==> clients[c] == old(clients)[c]
    {
      if |clients| >= MAX_CLIENTS {
        clients := Live(clients, now);
        LiveSmaller(old(clients), now);
        if |clients| >= MAX_CLIENTS {
          var oldest := Oldest();
          clients := clients - {oldest};
        }
      }
    }

    method Oldest() returns (oldest: Client)
      requires clients != map[]
      ensures IsOldest(clients, oldest)
    {
      var todo := clients.Keys;
      oldest :| oldest in todo;
      todo := todo - {oldest};
      while todo != {}
        invariant oldest in clients && todo <= clients.Keys
        invariant forall c :: c in clients && c !in todo ==> clients[oldest].started <= clients[c].started
        decreases |todo|
      {
        var c :| c in todo;
        todo := todo - {c};
        if clients[c].started < clients[oldest].started {
          oldest := c;
        }
      }
    }

    method Clear(client: Client)
      modifies this
      ensures clients == old(clients) - {client}
    {
      clients := clients - {client};
    }
  }

  lemma LiveSmaller(clients: Clients, now: nat)
    ensures |Live(clients, now)| <= |clients|
  {
    assert Live(clients, now).Keys <= clients.Keys;
    SubsetSize(Live(clients, now).Keys, clients.Keys);
  }

  /** The returned wait is exact: repeating the attempt after n whole seconds is refused for every
      smaller n and admitted from then on. */
  lemma RetryIsLeast(clients: Clients, client: Client, now: nat, seconds: nat, n: nat, v: Verdict, after: Clients)
    requires client in clients && clients[client].started <= now
    requires Attempts(clients, client, now, RetryAfter(seconds), clients)
    requires Attempts(clients, client, now + n * SECOND, v, after)
    ensures v == Admitted <==> n >= seconds
  {
    var remaining := WINDOW - Elapsed(clients[client], now);
    assert seconds == WholeSeconds(remaining);
    SecondsCover(remaining, n);
  }

  lemma SecondsCover(duration: nat, n: nat)
    requires duration > 0
    ensures n >= WholeSeconds(duration) <==> n * SECOND >= duration
  {
    assert duration == duration / SECOND * SECOND + duration % SECOND;
  }

  // ----- runs -----

  datatype Step = Attempt(client: Client, now: nat, verdict: Verdict) | Cleared(client: Client)

  ghost predicate StepOk(before: Clients, step: Step, after: Clients) {
    match step
    case Attempt(client, now, v) => Attempts(before, client, now, v, after)
    case Cleared(client) => after == before - {client}
  }

  /** The time of the latest attempt, which never goes back. */
  function Clock(steps: seq<Step>): nat {
    if steps == [] then 0
    else
      var last := steps[|steps| - 1];
      if last.Attempt? then last.now else Clock(steps[..|steps| - 1])
  }

  /** From an empty table, with non-decreasing times. */
  ghost predicate IsRun(states: seq<Clients>, steps: seq<Step>) {
    && |states| == |steps| + 1 && states[0] == map[]
    && forall i :: 0 <= i < |steps| ==>
         StepOk(states[i], steps[i], states[i + 1]) && (steps[i].Attempt? ==> Clock(steps[..i]) <= steps[i].now)
  }

  /** The client is not cleared and its window is not evicted before it has expired. */
  ghost predicate Undisturbed(states: seq<Clients>, steps: seq<Step>, c: Client)
    requires |states| == |steps| + 1
  {
    forall i :: 0 <= i < |steps| ==>
      && steps[i] != Cleared(c)
      && (c in states[i] && c !in states[i + 1] ==> steps[i].Attempt? && Expired(states[i][c], steps[i].now))
  }

  /** How many attempts of the client were admitted at times in [from, from + 60 s). */
  function AdmittedIn(steps: seq<Step>, c: Client, from: nat): nat {
    if steps == [] then 0
    else
      var last := steps[|steps| - 1];
      AdmittedIn(steps[..|steps| - 1], c, from)
      + if last.Attempt? && last.client == c && last.verdict == Admitted then Inside(last.now, from) else 0
  }

  function Inside(t: nat, from: nat): nat {
    if from <= t < from + WINDOW then 1 else 0
  }

  // ----- the admitted times, window by window -----

  type Block = seq<nat>

  function InsideBlock(b: Block, from: nat): nat {
    if b == [] then 0 else InsideBlock(b[..|b| - 1], from) + Inside(b[|b| - 1], from)
  }

  function InsideBlocks(blocks: seq<Block>, from: nat): nat {
    if blocks == [] then 0 else InsideBlocks(blocks[..|blocks| - 1], from) + InsideBlock(blocks[|blocks| - 1], from)
  }

  /** The times admitted in one window. */
  ghost predicate IsBlock(b: Block) {
    0 < |b| <= MAX_ATTEMPTS && forall i :: 0 <= i < |b| ==> b[0] <= b[i] < b[0] + WINDOW
  }

  /** Successive windows open at least 60 s apart. */
  ghost predicate AreBlocks(blocks: seq<Block>) {
    && (forall i :: 0 <= i < |blocks| ==> IsBlock(blocks[i]))
    && (forall i :: 0 < i < |blocks| ==> blocks[i - 1][0] + WINDOW <= blocks[i][0])
  }

  lemma {:induction false} BlockBound(b: Block, first: nat, from: nat)
    requires forall i :: 0 <= i < |b| ==> first <= b[i] < first + WINDOW
    ensures InsideBlock(b, from) <= |b|
    ensures from + WINDOW <= first || first + WINDOW <= from ==> InsideBlock(b, from) == 0
    ensures b != [] && b[0] < from ==> InsideBlock(b, from) < |b|
  {
    if b == [] {
    } else {
      var before := b[..|b| - 1];
      assert forall i :: 0 <= i < |before| ==> before[i] == b[i];
      BlockBound(before, first, from);
    }
  }

  /** At most two windows reach into a half-open interval of 60 s, and of the first of two the opening
      attempt lies before it. */
  lemma {:induction false} BlocksBound(blocks: seq<Block>, from: nat)
    requires AreBlocks(blocks)
    ensures InsideBlocks(blocks, from) <= 19
    ensures blocks != [] ==>
              var last := blocks[|blocks| - 1];
              && (last[0] + WINDOW <= from ==> InsideBlocks(blocks, from) == 0)
              && (last[0] < from ==> InsideBlocks(blocks, from) <= 9)
              && (last[0] < from + WINDOW ==> InsideBlocks(blocks, from) <= 9 + |last|)
  {
    if blocks == [] {
    } else {
      var before, last := blocks[..|blocks| - 1], blocks[|blocks| - 1];
      assert forall i :: 0 <= i < |before| ==> before[i] == blocks[i];
      BlocksBound(before, from);
      BlockBound(last, last[0], from);
    }
  }

  /** The table entry of the client is its last block; without one, that window is over. */
  ghost predicate Matches(clients: Clients, c: Client, blocks: seq<Block>, clock: nat) {
    if c in clients then
      && blocks != []
      && var last := blocks[|blocks| - 1];
         last != [] && clients[c] == Window(last[0], |last|) && last[0] <= clock
    else blocks != [] ==> var last := blocks[|blocks| - 1]; last != [] && last[0] + WINDOW <= clock
  }

  /** The blocks after a client's admitted attempt. */
  function Extended(blocks: seq<Block>, now: nat, joins: bool): seq<Block>
    requires joins ==> blocks != []
  {
    if joins then blocks[|blocks| - 1 := blocks[|blocks| - 1] + [now]] else blocks + [[now]]
  }

  lemma ExtendedCount(blocks: seq<Block>, now: nat, joins: bool, from: nat)
    requires joins ==> blocks != []
    ensures InsideBlocks(Extended(blocks, now, joins), from) == InsideBlocks(blocks, from) + Inside(now, from)
  {
    var e := Extended(blocks, now, joins);
    if joins {
      var last := blocks[|blocks| - 1];
      assert e[..|e| - 1] == blocks[..|blocks| - 1];
      assert (last + [now])[..|last|] == last;
    } else {
      assert e[..|e| - 1] == blocks;
      assert [now][..0] == [];
      assert InsideBlock([now], from) == Inside(now, from);
    }
  }

  /** An admitted attempt of the client joins its window or opens one 60 s later. */
  lemma OwnAttempt(before: Clients, c: Client, now: nat, after: Clients, blocks: seq<Block>, clock: nat)
      returns (joins: bool)
    requires AreBlocks(blocks) && Matches(before, c, blocks, clock) && clock <= now
    requires Attempts(before, c, now, Admitted, after)
    ensures joins ==> blocks != []
    ensures AreBlocks(Extended(blocks, now, joins)) && Matches(after, c, Extended(blocks, now, joins), now)
  {
    joins := c in before && !Expired(before[c], now);
  }

  /** Any other step leaves the client's window, or removes it once it is over. */
  lemma OtherStep(before: Clients, step: Step, after: Clients, c: Client, blocks: seq<Block>, clock: nat, later: nat)
    requires Matches(before, c, blocks, clock) && StepOk(before, step, after) && clock <= later
    requires step.Attempt? ==> step.now == later
    requires step != Cleared(c) && !(step.Attempt? && step.client == c && step.verdict == Admitted)
    requires c in before && c !in after ==> step.Attempt? && Expired(before[c], step.now)
    ensures Matches(after, c, blocks, later)
  {
    OtherUnchanged(before, step, after, c);
  }

  lemma OtherUnchanged(before: Clients, step: Step, after: Clients, c: Client)
    requires StepOk(before, step, after)
    requires !(step.Attempt? && step.client == c && step.verdict == Admitted)
    ensures c in after ==> c in before && after[c] == before[c]
  {
    if step.Attempt? && step.client !in before {
      var room :| MadeRoom(before, step.now, room) && after == room[step.client := Window(step.now, 1)];
      assert c in room ==> c in before && room[c] == before[c];
    }
  }

  /** The admitted attempts of a client, window by window. */
  lemma {:induction false} History(states: seq<Clients>, steps: seq<Step>, c: Client, from: nat)
      returns (blocks: seq<Block>)
    requires IsRun(states, steps) && Undisturbed(states, steps, c)
    ensures AreBlocks(blocks) && Matches(states[|steps|], c, blocks, Clock(steps))
    ensures InsideBlocks(blocks, from) == AdmittedIn(steps, c, from)
    decreases |steps|
  {
    blocks := [];
    if steps != [] {
      var n := |steps| - 1;
      PrefixRun(states, steps, c);
      blocks := History(states[..n + 1], steps[..n], c, from);
      var step := steps[n];
      if step.Attempt? && step.client == c && step.verdict == Admitted {
        var joins := OwnAttempt(states[n], c, step.now, states[n + 1], blocks, Clock(steps[..n]));
        ExtendedCount(blocks, step.now, joins, from);
        blocks := Extended(blocks, step.now, joins);
      } else {
        OtherStep(states[n], step, states[n + 1], c, blocks, Clock(steps[..n]), Clock(steps));
      }
    }
  }

  lemma PrefixRun(states: seq<Clients>, steps: seq<Step>, c: Client)
    requires IsRun(states, steps) && Undisturbed(states, steps, c) && steps != []
    ensures IsRun(states[..|steps|], steps[..|steps| - 1]) && Undisturbed(states[..|steps|], steps[..|steps| - 1], c)
  {
    var n := |steps| - 1;
    var s, t := states[..n + 1], steps[..n];
    assert forall i :: 0 <= i < n ==> t[..i] == steps[..i];
  }

  /** The limiter's bound: over every run, in every half-open interval of 60 s, at most 19 attempts of an
      undisturbed client are admitted. */
  lemma AtMostNineteen(states: seq<Clients>, steps: seq<Step>, c: Client, from: nat)
    requires IsRun(states, steps) && Undisturbed(states, steps, c)
    ensures AdmittedIn(steps, c, from) <= 19
  {
    var blocks := History(states, steps, c, from);
    BlocksBound(blocks, from);
  }

  // ----- the bound is sharp -----

  /** One attempt at time 0, nine just before the window ends and ten when the next one opens. */
  function BurstTime(i: nat): nat {
    if i == 0 then 0 else if i < 10 then WINDOW - 1 else WINDOW
  }

  function BurstState(c: Client, i: nat): Clients {
    if i == 0 then map[] else if i <= 10 then map[c := Window(0, i)] else map[c := Window(WINDOW, i - 10)]
  }

  lemma NineteenReached(c: Client)
    ensures var steps := seq(20, i requires 0 <= i => Attempt(c, BurstTime(i), Admitted));
            var states := seq(21, i requires 0 <= i => BurstState(c, i));
            IsRun(states, steps) && Undisturbed(states, steps, c) && AdmittedIn(steps, c, WINDOW - 1) == 19
  {
    var steps := seq(20, i requires 0 <= i => Attempt(c, BurstTime(i), Admitted));
    var states := seq(21, i requires 0 <= i => BurstState(c, i));
    forall i | 0 <= i < |steps|
      ensures StepOk(states[i], steps[i], states[i + 1]) && Clock(steps[..i]) <= steps[i].now
    {
      BurstStep(c, i);
      assert i > 0 ==> steps[..i][i - 1] == steps[i - 1];
    }
    BurstCount(steps, c);
    assert steps[..20] == steps;
  }

  lemma BurstStep(c: Client, i: nat)
    requires i < 20
    ensures Attempts(BurstState(c, i), c, BurstTime(i), Admitted, BurstState(c, i + 1))
  {
    if i == 0 {
      assert MadeRoom(map[], 0, map[]);
    }
  }

  lemma {:induction false} BurstCount(steps: seq<Step>, c: Client)
    requires 0 < |steps| <= 20
    requires forall i :: 0 <= i < |steps| ==> steps[i] == Attempt(c, BurstTime(i), Admitted)
    ensures AdmittedIn(steps, c, WINDOW - 1) == |steps| - 1
  {
    if |steps| == 1 {
      assert steps[..0] == [];
    } else {
      BurstCount(steps[..|steps| - 1], c);
    }
  }
}
