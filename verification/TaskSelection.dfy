/** Dependency closure of the selected validation tasks (`scripts/validate_development.py`). */
module TaskSelection {
  import opened Bytes

  type Name = string

  datatype Task = Task(id: Name, isTest: bool, defaultSelected: bool, dependsOn: seq<Name>)

  type Graph = map<Name, seq<Name>>

  /** Dependencies by task id; the last task with an id counts. */
  function ById(tasks: seq<Task>): Graph {
    if tasks == [] then map[]
    else
      var last := tasks[|tasks| - 1];
      ById(tasks[..|tasks| - 1])[last.id := last.dependsOn]
  }

  // ----- what is asked for -----

  predicate Edge(g: Graph, a: Name, b: Name) {
    a in g && b in g[a]
  }

  /** A walk along dependencies. */
  ghost predicate Walk(g: Graph, p: seq<Name>) {
    p != [] && forall i :: 0 < i < |p| ==> Edge(g, p[i - 1], p[i])
  }

  ghost predicate WalkFrom(g: Graph, p: seq<Name>, a: Name, b: Name) {
    Walk(g, p) && p[0] == a && p[|p| - 1] == b
  }

  ghost predicate Reaches(g: Graph, a: Name, b: Name) {
    exists p :: WalkFrom(g, p, a, b)
  }

  /** Tasks that the initial tasks depend on, directly or not, themselves included. */
  ghost predicate Needed(g: Graph, initial: set<Name>, b: Name) {
    exists a :: a in initial && Reaches(g, a, b)
  }

  ghost predicate Closed(g: Graph, s: set<Name>) {
    forall a, b :: a in s && Edge(g, a, b) ==> b in s
  }

  /** The task depends on itself, through one or more dependencies. */
  ghost predicate OnCycle(g: Graph, a: Name) {
    exists b :: Edge(g, a, b) && Reaches(g, b, a)
  }

  ghost predicate Broken(g: Graph, initial: set<Name>) {
    exists b :: Needed(g, initial, b) && (b !in g || OnCycle(g, b))
  }

  lemma ReachesSelf(g: Graph, a: Name)
    ensures Reaches(g, a, a)
  {
    assert WalkFrom(g, [a], a, a);
  }

  /** Nothing reachable lies outside a closed set. */
  lemma {:induction false} WalkStays(g: Graph, s: set<Name>, p: seq<Name>)
    requires Closed(g, s) && Walk(g, p) && p[0] in s
    ensures p[|p| - 1] in s
    decreases |p|
  {
    if |p| > 1 {
      WalkStays(g, s, p[..|p| - 1]);
      assert Edge(g, p[|p| - 2], p[|p| - 1]);
    }
  }

  lemma ReachableStays(g: Graph, s: set<Name>, a: Name, b: Name)
    requires Closed(g, s) && a in s && Reaches(g, a, b)
    ensures b in s
  {
    var p :| WalkFrom(g, p, a, b);
    WalkStays(g, s, p);
  }

  /** The needed tasks are the least closed superset of the initial ones. */
  lemma NeededIsLeast(g: Graph, initial: set<Name>, s: set<Name>, b: Name)
    requires initial <= s && Closed(g, s) && Needed(g, initial, b)
    ensures b in s
  {
    var a :| a in initial && Reaches(g, a, b);
    ReachableStays(g, s, a, b);
  }

  // ----- the depth-first search -----

  /** Finished tasks in the order they were finished: each one's dependencies were finished before. */
  ghost predicate Ordered(g: Graph, order: seq<Name>) {
    forall i :: 0 <= i < |order| ==> order[i] in g && forall d :: d in g[order[i]] ==> d in order[..i]
  }

  /** Every step of a walk among finished tasks goes to an earlier one. */
  lemma {:induction false} OrderedAcyclic(g: Graph, order: seq<Name>, a: Name)
    requires Ordered(g, order) && a in order
    ensures !OnCycle(g, a)
    decreases |order|
  {
    var n := |order| - 1;
    assert Ordered(g, order[..n]) by {
      assert forall i :: 0 <= i < n ==> order[..n][..i] == order[..i];
    }
    if a in order[..n] {
      OrderedAcyclic(g, order[..n], a);
    } else {
      OrderedClosed(g, order[..n]);
      forall b | Edge(g, a, b) && Reaches(g, b, a)
        ensures false
      {
        assert order[n] == a && b in order[..n];
        ReachableStays(g, (set x | x in order[..n]), b, a);
      }
    }
  }

  lemma OrderedClosed(g: Graph, order: seq<Name>)
    requires Ordered(g, order)
    ensures Closed(g, set x | x in order)
  {
    forall a, b | a in order && Edge(g, a, b)
      ensures b in order
    {
      var i :| 0 <= i < |order| && order[i] == a;
      assert b in order[..i];
    }
  }

  class Selector {
    const byId: Graph
    var selected: set<Name>
    var visiting: set<Name>
    var visited: set<Name>
    ghost var order: seq<Name>

    constructor (byId: Graph, initial: set<Name>)
      ensures this.byId == byId && selected == initial && visiting == {} && visited == {} && order == []
    {
      this.byId := byId;
      selected, visiting, visited, order := initial, {}, {}, [];
    }

    ghost predicate Valid(stack: seq<Name>)
      reads this
    {
      && visited == (set x | x in order) && Ordered(byId, order)
      && visiting == (set x | x in stack) && visiting <= byId.Keys && visiting !! visited
      && visited <= selected
    }

    /** Include a task and what it depends on. `stack` is the path of tasks being visited. Success:
        the task is finished and only needed tasks were selected. Failure: an unknown task or a cycle
        is reachable from the task. */
    method Include(task: Name, ghost stack: seq<Name>) returns (ok: bool)
      requires Valid(stack) && Walk(byId, stack + [task]) && task in selected
      modifies this
      ensures ok ==> Valid(stack) && task in visited && old(visited) <= visited && old(selected) <= selected
      ensures ok ==> forall x :: x in selected ==> x in old(selected) || Reaches(byId, task, x)
      ensures ok ==> selected - visited <= old(selected)
      ensures !ok ==> Trouble(byId, task)
      decreases byId.Keys - visiting
    {
      if task in visiting {
        StackCycle(byId, stack, task);
        return false;
      }
      if task in visited {
        return true;
      }
      if task !in byId {
        ReachesSelf(byId, task);
        return false;
      }
      ghost var path := stack + [task];
      visiting := visiting + {task};
      var deps := byId[task];
      for i := 0 to |deps|
        invariant Valid(path)
        invariant forall j :: 0 <= j < i ==> deps[j] in visited
        invariant old(visited) <= visited && old(selected) <= selected
        invariant forall x :: x in selected ==> x in old(selected) || Reaches(byId, task, x)
        invariant selected - visited <= old(selected)
      {
        var d := deps[i];
        ghost var before := selected;
        selected := selected + {d};
        WalkExtends(byId, path, d);
        ok := Include(d, path);
        if !ok {
          TroubleUp(byId, task, d);
          return false;
        }
        ReachesThrough(byId, task, d, selected, before);
      }
      visiting := visiting - {task};
      visited := visited + {task};
      OrderedAppend(byId, order, task);
      order := order + [task];
      return true;
    }
  }

  /** From this task an unknown task or a cycle can be reached. */
  ghost predicate Trouble(g: Graph, a: Name) {
    exists b :: Reaches(g, a, b) && (b !in g || OnCycle(g, b))
  }

  lemma WalkExtends(g: Graph, path: seq<Name>, d: Name)
    requires Walk(g, path) && Edge(g, path[|path| - 1], d)
    ensures Walk(g, path + [d])
  {
  }

  lemma ReachesCons(g: Graph, a: Name, b: Name, c: Name)
    requires Edge(g, a, b) && Reaches(g, b, c)
    ensures Reaches(g, a, c)
  {
    var p :| WalkFrom(g, p, b, c);
    var q := [a] + p;
    assert forall i :: 0 < i < |q| ==> q[i] == p[i - 1];
    assert WalkFrom(g, q, a, c);
  }

  lemma TroubleUp(g: Graph, a: Name, b: Name)
    requires Edge(g, a, b) && Trouble(g, b)
    ensures Trouble(g, a)
  {
    var c :| Reaches(g, b, c) && (c !in g || OnCycle(g, c));
    ReachesCons(g, a, b, c);
  }

  lemma ReachesThrough(g: Graph, a: Name, d: Name, after: set<Name>, before: set<Name>)
    requires Edge(g, a, d)
    requires forall x :: x in after ==> x in before || x == d || Reaches(g, d, x)
    ensures forall x :: x in after ==> x in before || Reaches(g, a, x)
  {
    ReachesSelf(g, d);
    forall x | x in after && x !in before
      ensures Reaches(g, a, x)
    {
      ReachesCons(g, a, d, x);
    }
  }

  lemma OrderedAppend(g: Graph, order: seq<Name>, a: Name)
    requires Ordered(g, order) && a in g && forall d :: d in g[a] ==> d in order
    ensures Ordered(g, order + [a])
  {
    var longer := order + [a];
    forall i | 0 <= i < |longer|
      ensures longer[i] in g && forall d :: d in g[longer[i]] ==> d in longer[..i]
    {
      assert longer[..i] == order[..i];
      assert order[..|order|] == order;
    }
  }

  /** A task met again on the path of tasks being visited depends on itself. */
  lemma StackCycle(g: Graph, stack: seq<Name>, task: Name)
    requires task in stack && Walk(g, stack + [task])
    ensures Trouble(g, task)
  {
    var i :| 0 <= i < |stack| && stack[i] == task;
    var path := stack + [task];
    var p := path[i + 1..];
    assert Edge(g, path[i], path[i + 1]);
    forall j | 0 < j < |p|
      ensures Edge(g, p[j - 1], p[j])
    {
      assert p[j - 1] == path[i + j] && p[j] == path[i + j + 1];
    }
    assert WalkFrom(g, p, path[i + 1], task);
    ReachesSelf(g, task);
  }

  // ----- the selection -----

  function DefaultSelection(tasks: seq<Task>, testsOnly: bool): set<Name> {
    set i | 0 <= i < |tasks| && tasks[i].defaultSelected && (!testsOnly || tasks[i].isTest) :: tasks[i].id
  }

  /** What is selected before dependencies are followed. An empty task id counts as none given. */
  function InitialSelection(tasks: seq<Task>, testsOnly: bool, taskId: Option<Name>): set<Name> {
    if taskId.Some? && taskId.value != "" then {taskId.value} else DefaultSelection(tasks, testsOnly)
  }

  /** The result is the least superset of the initial selection closed under dependencies. It is
      refused exactly if an unknown task is asked for, or an unknown dependency or a dependency
      cycle is reachable from the initial selection. */
  method Selection(tasks: seq<Task>, testsOnly: bool, taskId: Option<Name>) returns (r: Option<set<Name>>)
    ensures var g, initial := ById(tasks), InitialSelection(tasks, testsOnly, taskId);
            && (r.None? <==> (taskId.Some? && taskId.value !in g) || Broken(g, initial))
            && (r.Some? ==> forall b :: b in r.value <==> Needed(g, initial, b))
            && (r.Some? ==> initial <= r.value && Closed(g, r.value))
  {
    var g := ById(tasks);
    if taskId.Some? && taskId.value !in g {
      return None;
    }
    var initial := InitialSelection(tasks, testsOnly, taskId);
    var selector := new Selector(g, initial);
    var todo := initial;
    while todo != {}
      invariant todo <= initial <= selector.selected && selector.byId == g
      invariant selector.Valid([])
      invariant initial - todo <= selector.visited
      invariant forall x :: x in selector.selected ==> x in initial || Needed(g, initial, x)
      invariant selector.selected - selector.visited <= initial
      decreases |todo|
    {
      var task :| task in todo;
      todo := todo - {task};
      assert Walk(g, [] + [task]);
      var ok := selector.Include(task, []);
      if !ok {
        TroubleBreaks(g, initial, task);
        return None;
      }
    }
    SelectionClosed(g, initial, selector.selected, selector.order);
    return Some(selector.selected);
  }

  lemma TroubleBreaks(g: Graph, initial: set<Name>, a: Name)
    requires a in initial && Trouble(g, a)
    ensures Broken(g, initial)
  {
    var b :| Reaches(g, a, b) && (b !in g || OnCycle(g, b));
    assert Needed(g, initial, b);
  }

  lemma SelectionClosed(g: Graph, initial: set<Name>, selected: set<Name>, order: seq<Name>)
    requires Ordered(g, order) && selected == (set x | x in order) && initial <= selected
    requires forall x :: x in selected ==> x in initial || Needed(g, initial, x)
    ensures Closed(g, selected) && !Broken(g, initial)
    ensures forall b :: b in selected <==> Needed(g, initial, b)
  {
    OrderedClosed(g, order);
    forall b | Needed(g, initial, b)
      ensures b in selected && b in g && !OnCycle(g, b)
    {
      NeededIsLeast(g, initial, selected, b);
      OrderedAcyclic(g, order, b);
    }
    forall b | b in initial
      ensures Needed(g, initial, b)
    {
      ReachesSelf(g, b);
    }
  }
}
