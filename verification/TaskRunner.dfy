/** Execution of a validation plan and its receipt (`scripts/validate_development.py`).
    Whether a command passes and whether the source has changed are given by an `Env`. */
module TaskRunner {
  import opened Bytes

  type Name = string

  datatype PlanTask = PlanTask(id: Name, selected: bool, dependsOn: seq<Name>)

  datatype Status = Passed | Failed | Incomplete | Blocked | NotRun | Excluded

  datatype Verdict = Pass | Fail | TooFewCases

  /** digestOk: the plan is the one its digest was taken of; missing: some prerequisite or test inventory is
      unavailable; table: ids of the tasks that are defined. By position in the plan: how the task's command
      ends, and whether the source differs from the plan when the task is about to start and when it has ended. */
  datatype Env = Env(
    digestOk: bool, missing: bool, table: set<Name>,
    verdict: nat -> Verdict, changedBefore: nat -> bool, changedAfter: nat -> bool)

  type Receipts = map<Name, Status>

  /** Receipts so far, whether a source change stopped the run, and the tasks run, in order. */
  datatype Progress = Progress(receipts: Receipts, changed: bool, ran: seq<Name>)

  function StatusOf(v: Verdict): Status {
    match v
    case Pass => Passed
    case Fail => Failed
    case TooFewCases => Incomplete
  }

  predicate HasPassed(receipts: Receipts, d: Name) {
    d in receipts && receipts[d] == Passed
  }

  /** The status of the first dependency that has not passed. A dependency without a receipt has
      none, and then the later ones are not looked at. */
  function DependencyFailure(receipts: Receipts, deps: seq<Name>): Option<Status> {
    if deps == [] then None
    else if HasPassed(receipts, deps[0]) then DependencyFailure(receipts, deps[1..])
    else if deps[0] in receipts then Some(receipts[deps[0]])
    else None
  }

  /** The step for the task at position i of the plan. */
  function Advance(p: Progress, task: PlanTask, env: Env, i: nat): Progress {
    if p.changed || !task.selected then p
    else if DependencyFailure(p.receipts, task.dependsOn).Some? then p.(receipts := p.receipts[task.id := Blocked])
    else if env.changedBefore(i) then p.(receipts := p.receipts[task.id := Blocked], changed := true)
    else Progress(p.receipts[task.id := StatusOf(env.verdict(i))], env.changedAfter(i), p.ran + [task.id])
  }

  /** Ids of the tasks that are selected, or that are not. */
  function Ids(plan: seq<PlanTask>, selected: bool): set<Name> {
    set i | 0 <= i < |plan| && plan[i].selected == selected :: plan[i].id
  }

  function InitialReceipts(plan: seq<PlanTask>): Receipts {
    map d | d in Ids(plan, false) :: Excluded
  }

  /** After the first k tasks of the plan. */
  function ProgressAt(plan: seq<PlanTask>, env: Env, k: nat): Progress
    requires k <= |plan|
  {
    if k == 0 then Progress(InitialReceipts(plan), false, [])
    else Advance(ProgressAt(plan, env, k - 1), plan[k - 1], env, k - 1)
  }

  /** The status each task of the plan ends with. */
  function FinalStatus(plan: seq<PlanTask>, env: Env, i: nat): Status
    requires i < |plan|
  {
    var p := ProgressAt(plan, env, |plan|);
    if env.missing then (if plan[i].id in Ids(plan, true) then NotRun else Excluded)
    else Settled(p.receipts, p.changed, plan[i].id)
  }

  // ----- the runner -----

  datatype Totals = Totals(planned: nat, executed: nat, passed: nat, failed: nat, blocked: nat, excluded: nat)

  /** One status per task of the plan, in plan order. */
  datatype Receipt = Receipt(tasks: seq<Status>, ran: seq<Name>, totals: Totals, ok: bool)

  /** The run ends in an exception: the plan was tampered with, or a task is started that is not defined. */
  ghost predicate Raises(plan: seq<PlanTask>, env: Env) {
    !env.digestOk || (!env.missing && exists i :: 0 <= i < |plan| && StartsUndefined(plan, env, i))
  }

  ghost predicate StartsUndefined(plan: seq<PlanTask>, env: Env, i: nat)
    requires i < |plan|
  {
    Ran(plan, env, i) && plan[i].id !in env.table
  }

  method ExecutePlan(plan: seq<PlanTask>, env: Env) returns (result: Option<Receipt>)
    ensures result.None? <==> Raises(plan, env)
    ensures result.Some? ==> IsReceipt(plan, env, result.value)
  {
    if !env.digestOk {
      return None;
    }
    if env.missing {
      var r := NothingRun(plan, env);
      return Some(r);
    }
    var receipts, changed, ran, k := InitialReceipts(plan), false, [], 0;
    while k < |plan| && !changed
      invariant k <= |plan| && Progress(receipts, changed, ran) == ProgressAt(plan, env, k)
      invariant forall i :: 0 <= i < k ==> !StartsUndefined(plan, env, i)
    {
      var task := plan[k];
      if task.selected {
        if DependencyFailure(receipts, task.dependsOn).Some? {
          receipts := receipts[task.id := Blocked];
        } else if env.changedBefore(k) {
          changed := true;
          receipts := receipts[task.id := Blocked];
        } else {
          if task.id !in env.table {
            assert StartsUndefined(plan, env, k);
            return None;
          }
          receipts := receipts[task.id := StatusOf(env.verdict(k))];
          ran := ran + [task.id];
          changed := env.changedAfter(k);
        }
      }
      k := k + 1;
    }
    ChangedStays(plan, env, k, |plan|);
    forall i | k <= i < |plan|
      ensures !StartsUndefined(plan, env, i)
    {
      ChangedStays(plan, env, k, i);
      ChangedStays(plan, env, k, i + 1);
    }
    var r := BuildReceipt(plan, env, receipts, ran, changed);
    result := Some(r);
  }

  /** What the receipt of a run says. */
  ghost predicate IsReceipt(plan: seq<PlanTask>, env: Env, r: Receipt) {
    var p := ProgressAt(plan, env, |plan|);
    && |r.tasks| == |plan| && (forall i :: 0 <= i < |plan| ==> r.tasks[i] == FinalStatus(plan, env, i))
    && r.ran == (if env.missing then [] else p.ran)
    && r.totals == TotalsOf(plan, r.tasks, |plan|)
    && (r.ok <==> !env.missing && !p.changed && AllPassed(plan, r.tasks, |plan|))
  }

  /** A prerequisite is missing: no selected task is run. */
  method NothingRun(plan: seq<PlanTask>, env: Env) returns (r: Receipt)
    requires env.missing
    ensures IsReceipt(plan, env, r)
  {
    var receipts := InitialReceipts(plan);
    for i := 0 to |plan|
      invariant forall d :: d in receipts <==> d in Ids(plan, false) || d in Ids(plan[..i], true)
      invariant forall d :: d in receipts ==> receipts[d] == if d in Ids(plan[..i], true) then NotRun else Excluded
    {
      IdsStep(plan, i);
      if plan[i].selected {
        receipts := receipts[plan[i].id := NotRun];
      }
    }
    assert plan[..|plan|] == plan;
    r := BuildReceipt(plan, env, receipts, [], false);
  }

  /** Its receipt, or what a task without one gets at the end of the run. */
  function Settled(receipts: Receipts, changed: bool, id: Name): Status {
    if id in receipts then receipts[id] else if changed then Blocked else Excluded
  }

  /** Fills in tasks without a receipt and sums up. */
  method BuildReceipt(plan: seq<PlanTask>, env: Env, receipts: Receipts, ran: seq<Name>, changed: bool)
    returns (r: Receipt)
    ensures |r.tasks| == |plan| && forall i :: 0 <= i < |plan| ==> r.tasks[i] == Settled(receipts, changed, plan[i].id)
    ensures r.ran == ran && r.totals == TotalsOf(plan, r.tasks, |plan|)
    ensures r.ok <==> !env.missing && !changed && AllPassed(plan, r.tasks, |plan|)
  {
    var tasks := seq(|plan|, i requires 0 <= i < |plan| => Settled(receipts, changed, plan[i].id));
    var totals, passed := SumUp(plan, tasks);
    r := Receipt(tasks, ran, totals, !env.missing && !changed && passed);
  }

  method SumUp(plan: seq<PlanTask>, tasks: seq<Status>) returns (totals: Totals, passed: bool)
    requires |plan| == |tasks|
    ensures totals == TotalsOf(plan, tasks, |plan|) && (passed <==> AllPassed(plan, tasks, |plan|))
  {
    totals, passed := Totals(0, 0, 0, 0, 0, 0), true;
    for i := 0 to |plan|
      invariant totals == TotalsOf(plan, tasks, i) && (passed <==> AllPassed(plan, tasks, i))
    {
      totals := Tally(totals, plan[i], tasks[i]);
      passed := passed && (plan[i].selected ==> tasks[i] == Passed);
    }
  }

  /** All selected tasks among the first n passed. */
  predicate AllPassed(plan: seq<PlanTask>, tasks: seq<Status>, n: nat)
    requires n <= |plan| == |tasks|
  {
    forall i :: 0 <= i < n && plan[i].selected ==> tasks[i] == Passed
  }

  predicate WasExecuted(s: Status) {
    s.Passed? || s.Failed? || s.Incomplete?
  }

  function Tally(t: Totals, task: PlanTask, s: Status): Totals {
    Totals(
      t.planned + if task.selected then 1 else 0,
      t.executed + if WasExecuted(s) then 1 else 0,
      t.passed + if s.Passed? then 1 else 0,
      t.failed + if s.Failed? || s.Incomplete? then 1 else 0,
      t.blocked + if s.Blocked? || s.NotRun? then 1 else 0,
      t.excluded + if s.Excluded? then 1 else 0)
  }

  /** The totals of the first n tasks. */
  function TotalsOf(plan: seq<PlanTask>, tasks: seq<Status>, n: nat): Totals
    requires n <= |plan| == |tasks|
  {
    if n == 0 then Totals(0, 0, 0, 0, 0, 0) else Tally(TotalsOf(plan, tasks, n - 1), plan[n - 1], tasks[n - 1])
  }

  lemma IdsStep(plan: seq<PlanTask>, i: nat)
    requires i < |plan|
    ensures Ids(plan[..i + 1], true) == Ids(plan[..i], true) + if plan[i].selected then {plan[i].id} else {}
  {
    var a, b := plan[..i], plan[..i + 1];
    forall d | d in Ids(a, true)
      ensures d in Ids(b, true)
    {
      var j :| 0 <= j < |a| && a[j].selected && a[j].id == d;
      assert b[j] == a[j];
    }
    forall d | d in Ids(b, true)
      ensures d in Ids(a, true) || (plan[i].selected && d == plan[i].id)
    {
      var j :| 0 <= j < |b| && b[j].selected && b[j].id == d;
      assert j < i ==> a[j] == b[j];
    }
    assert b[i] == plan[i];
  }

  lemma {:induction false} ChangedStays(plan: seq<PlanTask>, env: Env, k: nat, n: nat)
    requires k <= n <= |plan| && (k == n || ProgressAt(plan, env, k).changed)
    ensures ProgressAt(plan, env, n) == ProgressAt(plan, env, k)
  {
    if k < n {
      ChangedStays(plan, env, k, n - 1);
    }
  }

  // ----- accounting -----

  predicate UniqueIds(plan: seq<PlanTask>) {
    forall i, j :: 0 <= i < j < |plan| ==> plan[i].id != plan[j].id
  }

  /** Which receipts exist after k tasks, and of what kind. */
  lemma {:induction false} ReceiptsAt(plan: seq<PlanTask>, env: Env, k: nat, i: nat)
    requires UniqueIds(plan) && k <= |plan| && i < |plan|
    ensures var p, id := ProgressAt(plan, env, k), plan[i].id;
            && (!plan[i].selected ==> id in p.receipts && p.receipts[id] == Excluded)
            && (plan[i].selected && id in p.receipts ==>
                  i < k && p.receipts[id] != Excluded && p.receipts[id] != NotRun)
            && (plan[i].selected && i < k && id !in p.receipts ==> p.changed)
  {
    if k == 0 {
      assert plan[i].selected ==> plan[i].id !in Ids(plan, false);
    } else {
      ReceiptsAt(plan, env, k - 1, i);
    }
  }

  /** Every selected task ends passed, failed or blocked, every other one excluded. */
  lemma StatusKinds(plan: seq<PlanTask>, env: Env, i: nat)
    requires UniqueIds(plan) && i < |plan|
    ensures FinalStatus(plan, env, i).Excluded? <==> !plan[i].selected
  {
    ReceiptsAt(plan, env, |plan|, i);
    if env.missing && !plan[i].selected {
      assert plan[i].id !in Ids(plan, true);
    }
  }

  lemma {:induction false} TotalsAddUp(plan: seq<PlanTask>, tasks: seq<Status>, n: nat)
    requires n <= |plan| == |tasks| && forall i :: 0 <= i < |plan| ==> (tasks[i].Excluded? <==> !plan[i].selected)
    ensures var t := TotalsOf(plan, tasks, n);
            && t.passed + t.failed + t.blocked == t.planned && t.planned + t.excluded == n
            && t.executed == t.passed + t.failed
  {
    if n == 0 {
    } else {
      TotalsAddUp(plan, tasks, n - 1);
    }
  }

  /** Runner accounting: with unique task ids every planned task is counted exactly once. */
  lemma Accounting(plan: seq<PlanTask>, env: Env, tasks: seq<Status>)
    requires UniqueIds(plan) && |tasks| == |plan|
    requires forall i :: 0 <= i < |plan| ==> tasks[i] == FinalStatus(plan, env, i)
    ensures var t := TotalsOf(plan, tasks, |plan|);
            && t.passed + t.failed + t.blocked == t.planned && t.planned + t.excluded == |plan|
            && t.executed == t.passed + t.failed
  {
    forall i | 0 <= i < |plan|
      ensures tasks[i].Excluded? <==> !plan[i].selected
    {
      StatusKinds(plan, env, i);
    }
    TotalsAddUp(plan, tasks, |plan|);
  }

  // ----- dependencies -----

  /** Task i was started. */
  ghost predicate Ran(plan: seq<PlanTask>, env: Env, i: nat)
    requires i < |plan|
  {
    ProgressAt(plan, env, i + 1).ran != ProgressAt(plan, env, i).ran
  }

  /** Every dependency of task i is in the plan, ahead of it or not selected at all. */
  ghost predicate ListedFirst(plan: seq<PlanTask>, i: nat)
    requires i < |plan|
  {
    forall d :: d in plan[i].dependsOn ==> Listed(plan, i, d)
  }

  ghost predicate Listed(plan: seq<PlanTask>, i: nat, d: Name) {
    exists j :: 0 <= j < |plan| && plan[j].id == d && (j < i || !plan[j].selected)
  }

  /** As long as the source has not changed, exactly the listed tasks have receipts. */
  lemma {:induction false} ReceiptsAreListed(plan: seq<PlanTask>, env: Env, k: nat, d: Name)
    requires k <= |plan| && !ProgressAt(plan, env, k).changed
    ensures d in ProgressAt(plan, env, k).receipts <==> Listed(plan, k, d)
  {
    if k == 0 {
    } else {
      ReceiptsAreListed(plan, env, k - 1, d);
      if Listed(plan, k, d) && !Listed(plan, k - 1, d) {
        assert plan[k - 1].id == d && plan[k - 1].selected;
      }
      if Listed(plan, k - 1, d) {
        var j :| 0 <= j < |plan| && plan[j].id == d && (j < k - 1 || !plan[j].selected);
        assert j < k || !plan[j].selected;
      }
      if plan[k - 1].id == d {
        assert Listed(plan, k, d);
      }
    }
  }

  /** Passed tasks are among the ones run so far. */
  lemma {:induction false} PassedHaveRun(plan: seq<PlanTask>, env: Env, k: nat, d: Name)
    requires k <= |plan| && HasPassed(ProgressAt(plan, env, k).receipts, d)
    ensures d in ProgressAt(plan, env, k).ran
  {
    if k > 0 && !(ProgressAt(plan, env, k).ran != ProgressAt(plan, env, k - 1).ran && d == plan[k - 1].id) {
      PassedHaveRun(plan, env, k - 1, d);
    }
  }

  lemma {:induction false} NoFailure(receipts: Receipts, deps: seq<Name>)
    requires DependencyFailure(receipts, deps).None?
    ensures (forall d :: d in deps ==> d in receipts) <==> forall d :: d in deps ==> HasPassed(receipts, d)
  {
    if deps == [] {
    } else {
      if HasPassed(receipts, deps[0]) {
        NoFailure(receipts, deps[1..]);
        assert forall d :: d in deps <==> d == deps[0] || d in deps[1..];
      } else {
        assert deps[0] in deps;
      }
    }
  }

  /** Exactly when a started task had all its dependencies run and passed before it: when the plan
      lists them first. */
  lemma StartsAfterDependencies(plan: seq<PlanTask>, env: Env, i: nat)
    requires i < |plan| && Ran(plan, env, i)
    ensures var p := ProgressAt(plan, env, i);
            ListedFirst(plan, i) <==> forall d :: d in plan[i].dependsOn ==> HasPassed(p.receipts, d) && d in p.ran
  {
    var p := ProgressAt(plan, env, i);
    NoFailure(p.receipts, plan[i].dependsOn);
    forall d | d in plan[i].dependsOn
      ensures d in p.receipts <==> Listed(plan, i, d)
      ensures HasPassed(p.receipts, d) ==> d in p.ran
    {
      ReceiptsAreListed(plan, env, i, d);
      if HasPassed(p.receipts, d) {
        PassedHaveRun(plan, env, i, d);
      }
    }
  }

  lemma {:induction false} ReceiptStays(plan: seq<PlanTask>, env: Env, i: nat, k: nat)
    requires UniqueIds(plan) && i < k <= |plan|
    ensures var a, b, id := ProgressAt(plan, env, i + 1).receipts, ProgressAt(plan, env, k).receipts, plan[i].id;
            (id in a <==> id in b) && (id in a ==> a[id] == b[id])
  {
    if k > i + 1 {
      ReceiptStays(plan, env, i, k - 1);
    }
  }

  /** What the final status of a selected task means: how its command ended if it was started, blocked if not. */
  lemma StatusMeans(plan: seq<PlanTask>, env: Env, i: nat)
    requires UniqueIds(plan) && i < |plan| && plan[i].selected && !env.missing
    ensures FinalStatus(plan, env, i) == if Ran(plan, env, i) then StatusOf(env.verdict(i)) else Blocked
  {
    ReceiptsAt(plan, env, i, i);
    ReceiptsAt(plan, env, |plan|, i);
    ReceiptStays(plan, env, i, |plan|);
  }

  /** Out of order: a task runs although a dependency listed before it has failed, because the
      dependency named first has no receipt yet. */
  lemma RunsAfterFailedDependency()
    ensures var plan := [PlanTask("f", true, []), PlanTask("t", true, ["g", "f"]), PlanTask("g", true, [])];
            var env := Env(true, false, {"f", "t", "g"}, i => if i == 0 then Fail else Pass, _ => false, _ => false);
            && ProgressAt(plan, env, 1).receipts == map["f" := Failed]
            && ProgressAt(plan, env, 2).ran == ["f", "t"]
  {
    var plan := [PlanTask("f", true, []), PlanTask("t", true, ["g", "f"]), PlanTask("g", true, [])];
    var env := Env(true, false, {"f", "t", "g"}, i => if i == 0 then Fail else Pass, _ => false, _ => false);
    assert Ids(plan, false) == {};
    assert ProgressAt(plan, env, 0) == Progress(map[], false, []);
    assert ProgressAt(plan, env, 1) == Progress(map["f" := Failed], false, ["f"]);
  }
}
