/** The process manager: cycle check and dependency-ordered run: launch/pm/processes.go. */
module Processes {
  import opened Base

  datatype Name = Name(text: string)

  const INIT_PROCESS := Name("init")

  /** How an attempt to run a process ends: a pre hook fails before the process runs, the process
      itself fails, a post hook fails after it, or all is well. */
  datatype Outcome = FailsBefore | FailsRunning | FailsAfter | Succeeds

  datatype Process = Process(name: Name, requirements: seq<Name>, disabled: bool, outcome: Outcome)

  type Graph = map<Name, Process>

  predicate Enabled(g: Graph, p: Name) {
    p in g && !g[p].disabled
  }

  /** The enabled process `p` requires `r`. */
  predicate Edge(g: Graph, p: Name, r: Name) {
    Enabled(g, p) && r in g[p].requirements
  }

  /** Whatever an enabled process requires exists and is enabled. */
  ghost predicate ClosedGraph(g: Graph) {
    forall p, r :: Edge(g, p, r) ==> Enabled(g, r)
  }

  /** A walk along requirements. */
  ghost predicate Walk(g: Graph, w: seq<Name>) {
    forall i :: 0 < i < |w| ==> Edge(g, w[i - 1], w[i])
  }

  ghost predicate Acyclic(g: Graph) {
    forall w :: Walk(g, w) && |w| >= 2 ==> w[0] != w[|w| - 1]
  }

  /** Enabled processes without repetition, each after everything it requires. */
  ghost predicate Ordered(g: Graph, done: seq<Name>) {
    && Distinct(done)
    && (forall i :: 0 <= i < |done| ==> InPlace(g, done, i))
  }

  ghost predicate InPlace(g: Graph, done: seq<Name>, i: nat)
    requires i < |done|
  {
    Enabled(g, done[i]) && forall r :: r in g[done[i]].requirements ==> r in done[..i]
  }

  lemma OrderMeans(g: Graph, done: seq<Name>)
    requires Ordered(g, done)
    ensures forall i :: 0 <= i < |done| ==>
              && done[i] in g && !g[done[i]].disabled && done[i] !in done[..i]
              && forall r :: r in g[done[i]].requirements ==> r in done[..i]
  {
    forall i | 0 <= i < |done|
      ensures done[i] in g && !g[done[i]].disabled && forall r :: r in g[done[i]].requirements ==> r in done[..i]
    {
      assert InPlace(g, done, i);
    }
  }

  /** Every enabled process is listed. */
  ghost predicate Complete(g: Graph, done: seq<Name>) {
    forall p :: Enabled(g, p) ==> p in done
  }

  lemma OrderedAppend(g: Graph, done: seq<Name>, p: Name)
    requires Ordered(g, done) && Enabled(g, p) && p !in done
    requires forall r :: r in g[p].requirements ==> r in done
    ensures Ordered(g, done + [p])
  {
    var more := done + [p];
    forall i | 0 <= i < |more| ensures InPlace(g, more, i) {
      assert more[..i] == done[..i];
      if i == |done| {
        assert done[..i] == done;
      } else {
        assert InPlace(g, done, i);
      }
    }
  }

  /** Along a walk the place in a complete order strictly falls. */
  lemma {:induction false} WalkFalls(g: Graph, done: seq<Name>, w: seq<Name>, i: nat)
    requires Ordered(g, done) && Complete(g, done) && Walk(g, w)
    requires |w| >= 2 && i < |done| && done[i] == w[0]
    ensures w[|w| - 1] in done[..i]
    decreases |w|
  {
    assert Edge(g, w[0], w[1]) && InPlace(g, done, i);
    var j :| 0 <= j < i && done[j] == w[1];
    if |w| > 2 {
      assert Walk(g, w[1..]) by {
        forall k | 0 < k < |w[1..]| ensures Edge(g, w[1..][k - 1], w[1..][k]) {
          assert Edge(g, w[k], w[k + 1]);
        }
      }
      WalkFalls(g, done, w[1..], j);
      assert done[..j] <= done[..i];
    }
  }

  /** A complete order shows that the graph is closed and acyclic. */
  lemma OrderShowsAcyclic(g: Graph, done: seq<Name>)
    requires Ordered(g, done) && Complete(g, done)
    ensures ClosedGraph(g) && Acyclic(g)
  {
    forall p, r | Edge(g, p, r) ensures Enabled(g, r) {
      var i :| 0 <= i < |done| && done[i] == p;
      assert InPlace(g, done, i);
      var j :| 0 <= j < i && done[j] == r;
      assert InPlace(g, done, j);
    }
    forall w | Walk(g, w) && |w| >= 2 ensures w[0] != w[|w| - 1] {
      assert Edge(g, w[0], w[1]);
      var i :| 0 <= i < |done| && done[i] == w[0];
      WalkFalls(g, done, w, i);
    }
  }

  /** A process that is met again on the path to it closes a cycle. */
  lemma PathClosesCycle(g: Graph, path: seq<Name>, p: Name)
    requires Walk(g, path + [p]) && p in path
    ensures !Acyclic(g)
  {
    var i :| 0 <= i < |path| && path[i] == p;
    var w := (path + [p])[i..];
    forall k | 0 < k < |w| ensures Edge(g, w[k - 1], w[k]) {
      assert Edge(g, (path + [p])[i + k - 1], (path + [p])[i + k]);
    }
    assert Walk(g, w) && w[0] == w[|w| - 1];
  }

  lemma WalkAppend(g: Graph, path: seq<Name>, p: Name, r: Name)
    requires Walk(g, path + [p]) && Edge(g, p, r)
    ensures Walk(g, (path + [p]) + [r])
  {
    var w := (path + [p]) + [r];
    forall k | 0 < k < |w| ensures Edge(g, w[k - 1], w[k]) {
      if k < |path + [p]| {
        assert Edge(g, (path + [p])[k - 1], (path + [p])[k]);
      }
    }
  }

  /** The marks of the check: finished processes, in the order they finished, and the processes on
      the path to the present one. */
  ghost predicate Marks(g: Graph, processed: set<Name>, marked: set<Name>, done: seq<Name>, path: seq<Name>) {
    && Ordered(g, done)
    && processed == Elements(done)
    && marked == processed + Elements(path)
    && (forall p :: p in path ==> p !in processed && Enabled(g, p))
  }

  class Manager {
    var processes: Graph
    var processesOrder: seq<Name>
    var processed: set<Name>
    var log: seq<Name>

    /** Processes stand under their names; all but init, which requires nothing, are in the order. */
    ghost predicate Valid()
      reads this
    {
      && (forall p :: p in processes ==> processes[p].name == p)
      && INIT_PROCESS in processes && processes[INIT_PROCESS].requirements == []
      && (forall p :: p in processes && p != INIT_PROCESS <==> p in processesOrder)
      && Distinct(processesOrder)
    }

    constructor (init: Outcome)
      ensures Valid() && processesOrder == [] && processed == {} && log == []
      ensures processes == map[INIT_PROCESS := Process(INIT_PROCESS, [], false, init)]
    {
      processes := map[INIT_PROCESS := Process(INIT_PROCESS, [], false, init)];
      processesOrder := [];
      processed := {};
      log := [];
    }

    method AddProcess(pr: Process, override: bool) returns (ok: bool)
      requires Valid()
      modifies this`processes, this`processesOrder
      ensures Valid()
      ensures ok <==> pr.name != INIT_PROCESS && (pr.name in old(processes) ==> override)
      ensures processes == if ok then old(processes)[pr.name := pr] else old(processes)
      ensures processesOrder == if ok && pr.name !in old(processes) then old(processesOrder) + [pr.name] else old(processesOrder)
    {
      if pr.name == INIT_PROCESS {
        return false;
      }
      if pr.name in processes {
        if !override {
          return false;
        }
      } else {
        processesOrder := processesOrder + [pr.name];
      }
      processes := processes[pr.name := pr];
      return true;
    }

    /** checkProcess. The maps of the source are passed and returned as sets; `done` and `path` record
        the order of finishing and the path of the recursion. A failure shows a missing or disabled
        requirement or a cycle. */
    method CheckProcess(pr: Process, processed0: set<Name>, marked0: set<Name>, ghost done0: seq<Name>, ghost path: seq<Name>)
      returns (ok: bool, processed1: set<Name>, marked1: set<Name>, ghost done1: seq<Name>)
      requires Valid() && pr.name in processes && processes[pr.name] == pr
      requires Marks(processes, processed0, marked0, done0, path)
      requires !pr.disabled ==> Walk(processes, path + [pr.name])
      ensures ok ==> Marks(processes, processed1, marked1, done1, path)
      ensures ok ==> done0 <= done1 && (!pr.disabled ==> pr.name in processed1)
      ensures !ok ==> !(ClosedGraph(processes) && Acyclic(processes))
      decreases processes.Keys - marked0
    {
      processed1, marked1, done1 := processed0, marked0, done0;
      if pr.name in processed0 {
        return true, processed1, marked1, done1;
      } else if pr.disabled {
        return true, processed1, marked1, done1;
      }
      if pr.name in marked0 {
        PathClosesCycle(processes, path, pr.name);
        return false, processed1, marked1, done1;
      }
      marked1 := marked0 + {pr.name};
      ghost var path1 := path + [pr.name];
      ElementsAppend(path, pr.name);
      for i := 0 to |pr.requirements|
        invariant Marks(processes, processed1, marked1, done1, path1)
        invariant done0 <= done1
        invariant forall j :: 0 <= j < i ==> pr.requirements[j] in processed1
      {
        var r := pr.requirements[i];
        assert Edge(processes, pr.name, r);
        if r !in processes || processes[r].disabled {
          return false, processed1, marked1, done1;
        }
        WalkAppend(processes, path, pr.name, r);
        var passed;
        ghost var before := done1;
        passed, processed1, marked1, done1 := CheckProcess(processes[r], processed1, marked1, done1, path1);
        if !passed {
          return false, processed1, marked1, done1;
        }
        assert forall p :: p in before ==> p in done1;
      }
      OrderedAppend(processes, done1, pr.name);
      ElementsAppend(done1, pr.name);
      processed1 := processed1 + {pr.name};
      done1 := done1 + [pr.name];
      return true, processed1, marked1, done1;
    }

    /** check: succeeds exactly if the enabled processes and what they require form a closed graph
        without cycles; then there is a complete order. */
    method Check() returns (ok: bool, ghost order: seq<Name>)
      requires Valid()
      ensures ok <==> ClosedGraph(processes) && Acyclic(processes)
      ensures ok ==> Ordered(processes, order) && Complete(processes, order)
    {
      order := [];
      var processed1: set<Name>, marked: set<Name> := {}, {};
      for i := 0 to |processesOrder|
        invariant Marks(processes, processed1, marked, order, [])
        invariant forall j :: 0 <= j < i && Enabled(processes, processesOrder[j]) ==> processesOrder[j] in order
      {
        var name := processesOrder[i];
        if name !in processes {
          return false, order;
        }
        var passed;
        ghost var before := order;
        passed, processed1, marked, order := CheckProcess(processes[name], processed1, marked, order, []);
        if !passed {
          return false, order;
        }
        assert forall p :: p in before ==> p in order;
      }
      if Enabled(processes, INIT_PROCESS) && INIT_PROCESS !in order {
        OrderedAppend(processes, order, INIT_PROCESS);
        order := order + [INIT_PROCESS];
      }
      OrderShowsAcyclic(processes, order);
      return true, order;
    }

    /** runProcess, with the order that the check has shown to exist, by which the recursion ends.
        Whatever fails, the log of attempted processes stays in order, and ends there. */
    method RunProcess(s: Name, ghost order: seq<Name>) returns (ok: bool)
      requires Valid() && Ordered(processes, order) && Complete(processes, order)
      requires Ordered(processes, log) && Attempted(processes, log, processed, true)
      modifies this`processed, this`log
      ensures Ordered(processes, log) && Grown(order, old(log), log, Rank(order, s))
      ensures Attempted(processes, log, processed, ok)
      ensures ok ==> s in processes && (Enabled(processes, s) ==> s in log)
      ensures s in processes && AllSucceed(processes) ==> ok
      ensures s in old(log) || (s in processes && processes[s].disabled) ==> ok && log == old(log)
      ensures s in processes && Within(processes[s].requirements, old(log)) ==> log == old(log) || log == old(log) + [s]
      decreases Rank(order, s), 1
    {
      if s in processed {
        ghost var i :| 0 <= i < |log| && log[i] == s;
        assert InPlace(processes, log, i);
        return true;
      }
      if s !in processes {
        return false;
      } else if processes[s].disabled {
        return true;
      }
      ok := RunRequirements(s, order);
      if ok {
        ok := Attempt(s);
      }
    }

    /** The loop over the requirements of an enabled process that has not run. */
    method RunRequirements(s: Name, ghost order: seq<Name>) returns (ok: bool)
      requires Valid() && Ordered(processes, order) && Complete(processes, order)
      requires Ordered(processes, log) && Attempted(processes, log, processed, true) && Enabled(processes, s)
      modifies this`processed, this`log
      ensures Ordered(processes, log) && Grown(order, old(log), log, Rank(order, s) - 1)
      ensures Attempted(processes, log, processed, ok)
      ensures ok ==> Within(processes[s].requirements, log)
      ensures AllSucceed(processes) ==> ok
      ensures Within(processes[s].requirements, old(log)) ==> log == old(log) && ok
      decreases Rank(order, s), 0
    {
      var pr := processes[s];
      for i := 0 to |pr.requirements|
        invariant Ordered(processes, log) && Attempted(processes, log, processed, true)
        invariant Grown(order, old(log), log, Rank(order, s) - 1)
        invariant Within(pr.requirements[..i], log)
        invariant Within(pr.requirements, old(log)) ==> log == old(log)
      {
        var r := pr.requirements[i];
        assert pr.requirements[..i + 1] == pr.requirements[..i] + [r];
        RequirementRanksLower(processes, order, s, r);
        ghost var before := log;
        var passed := RunProcess(r, order);
        GrownTwice(order, old(log), before, log, Rank(order, s) - 1, Rank(order, r));
        if !passed {
          return false;
        }
      }
      assert pr.requirements[..|pr.requirements|] == pr.requirements;
      return true;
    }

    /** Hooks and the process itself, once everything it requires has run. */
    method Attempt(s: Name) returns (ok: bool)
      requires Ordered(processes, log) && Attempted(processes, log, processed, true)
      requires Enabled(processes, s) && s !in log && Within(processes[s].requirements, log)
      modifies this`processed, this`log
      ensures Ordered(processes, log) && Attempted(processes, log, processed, ok)
      ensures log == if processes[s].outcome == FailsBefore then old(log) else old(log) + [s]
      ensures ok <==> processes[s].outcome == Succeeds
    {
      var pr := processes[s];
      if pr.outcome == FailsBefore {
        return false;
      }
      OrderedAppend(processes, log, s);
      ElementsAppend(log, s);
      log := log + [s];
      if pr.outcome == FailsRunning {
        return false;
      }
      processed := processed + {s};
      return pr.outcome == Succeeds;
    }

    /** Run. If the check fails nothing runs. Otherwise processes run one after the other, none twice,
        none that is disabled, each only after everything it requires, and nothing after a failure. It
        succeeds exactly if the check does and no enabled process fails; then every enabled process has
        run, init first, and in the order in which they were added if that is an order of requirements. */
    method Run() returns (ok: bool)
      requires Valid()
      modifies this`processed, this`log
      ensures !(ClosedGraph(processes) && Acyclic(processes)) ==> !ok && log == old(log) && processed == old(processed)
      ensures ClosedGraph(processes) && Acyclic(processes) ==> Ordered(processes, log) && Attempted(processes, log, processed, ok)
      ensures ClosedGraph(processes) && Acyclic(processes) ==>
                forall i :: 0 <= i < |log| ==>
                  && log[i] in processes && !processes[log[i]].disabled && log[i] !in log[..i]
                  && forall r :: r in processes[log[i]].requirements ==> r in log[..i]
      ensures ok ==> forall p :: p in processes && !processes[p].disabled ==> p in log && processes[p].outcome == Succeeds
      ensures ok <==> ClosedGraph(processes) && Acyclic(processes) && AllSucceed(processes)
      ensures ok ==> Complete(processes, log)
      ensures ok && Enabled(processes, INIT_PROCESS) ==> log[0] == INIT_PROCESS
      ensures ok && RequirementsFirst(processes, processesOrder) ==> log == EnabledOf(processes, [INIT_PROCESS] + processesOrder)
    {
      var checked;
      ghost var order;
      checked, order := Check();
      if !checked {
        return false;
      }
      ok := RunInOrder(order);
      OrderMeans(processes, log);
      if ok {
        CompleteSucceeds(processes, log, processed);
      }
    }

    /** The part of Run after the check: init first, then the listed processes. */
    method RunInOrder(ghost order: seq<Name>) returns (ok: bool)
      requires Valid() && Ordered(processes, order) && Complete(processes, order)
      modifies this`processed, this`log
      ensures Ordered(processes, log) && Attempted(processes, log, processed, ok)
      ensures ok ==> Complete(processes, log)
      ensures ok && Enabled(processes, INIT_PROCESS) ==> log[0] == INIT_PROCESS
      ensures AllSucceed(processes) ==> ok
      ensures ok && RequirementsFirst(processes, processesOrder) ==> log == EnabledOf(processes, [INIT_PROCESS] + processesOrder)
    {
      var passed := RunInit(order);
      if !passed {
        return false;
      }
      ghost var first := log;
      for i := 0 to |processesOrder|
        invariant Ordered(processes, log) && Attempted(processes, log, processed, true) && first <= log
        invariant Reached(i)
        invariant RequirementsFirst(processes, processesOrder) ==> InAddingOrder(i)
      {
        passed := RunNext(i, order);
        if !passed {
          return false;
        }
      }
      assert processesOrder[..|processesOrder|] == processesOrder;
      return true;
    }

    /** What is enabled of the first `i` listed processes has run. */
    ghost predicate Reached(i: nat)
      requires i <= |processesOrder|
      reads this
    {
      forall j :: 0 <= j < i && Enabled(processes, processesOrder[j]) ==> processesOrder[j] in log
    }

    /** Init, before all others. */
    method RunInit(ghost order: seq<Name>) returns (ok: bool)
      requires Valid() && Ordered(processes, order) && Complete(processes, order)
      modifies this`processed, this`log
      ensures Ordered(processes, log) && Attempted(processes, log, processed, ok)
      ensures ok ==> Reached(0) && InAddingOrder(0) && log == if Enabled(processes, INIT_PROCESS) then [INIT_PROCESS] else []
      ensures AllSucceed(processes) ==> ok
    {
      processed, log := {}, [];
      ok := RunProcess(INIT_PROCESS, order);
      assert [INIT_PROCESS] + processesOrder[..0] == [INIT_PROCESS] && [INIT_PROCESS][..0] == [];
    }

    /** The log is what is enabled of init and the first `i` listed processes. */
    ghost predicate InAddingOrder(i: nat)
      requires i <= |processesOrder|
      reads this
    {
      log == EnabledOf(processes, [INIT_PROCESS] + processesOrder[..i])
    }

    /** One listed process. */
    method RunNext(i: nat, ghost order: seq<Name>) returns (ok: bool)
      requires Valid() && Ordered(processes, order) && Complete(processes, order) && i < |processesOrder|
      requires Ordered(processes, log) && Attempted(processes, log, processed, true) && Reached(i)
      modifies this`processed, this`log
      ensures Ordered(processes, log) && Attempted(processes, log, processed, ok) && old(log) <= log
      ensures ok ==> Reached(i + 1)
      ensures AllSucceed(processes) ==> ok
      ensures ok && RequirementsFirst(processes, processesOrder) && old(InAddingOrder(i)) ==> InAddingOrder(i + 1)
    {
      if RequirementsFirst(processes, processesOrder) && InAddingOrder(i) {
        NextInOrder(processes, order, processesOrder, i, log);
      }
      ok := RunProcess(processesOrder[i], order);
    }
  }

  ghost predicate Within(names: seq<Name>, log: seq<Name>) {
    forall r :: r in names ==> r in log
  }

  /** What may be in the log: processes that succeeded, and at its end, if the run failed, one that failed while
      or after it ran, never one that a pre hook kept from running. A process counts as processed unless it
      failed itself. */
  ghost predicate Attempted(g: Graph, log: seq<Name>, processed: set<Name>, ok: bool) {
    && (forall i :: 0 <= i < |log| ==> log[i] in g && AttemptedAt(g[log[i]].outcome, !ok && i == |log| - 1))
    && processed == set p | p in log && p in g && g[p].outcome != FailsRunning
  }

  predicate AttemptedAt(outcome: Outcome, last: bool) {
    outcome == Succeeds || (last && (outcome == FailsRunning || outcome == FailsAfter))
  }

  lemma CompleteSucceeds(g: Graph, log: seq<Name>, processed: set<Name>)
    requires Complete(g, log) && Attempted(g, log, processed, true)
    ensures AllSucceed(g)
  {
  }

  // ---------------------------------------------------------------------------
  // The order of adding

  /** Every enabled process is listed after what it requires, but for init, which runs before all. */
  ghost predicate RequirementsFirst(g: Graph, names: seq<Name>) {
    forall i :: 0 <= i < |names| && Enabled(g, names[i]) ==> Within(g[names[i]].requirements, [INIT_PROCESS] + names[..i])
  }

  /** The enabled ones of the listed processes. */
  function EnabledOf(g: Graph, names: seq<Name>): (r: seq<Name>)
    ensures forall p :: p in r <==> p in names && Enabled(g, p)
  {
    if names == [] then []
    else
      var last := names[|names| - 1];
      assert names == names[..|names| - 1] + [last];
      EnabledOf(g, names[..|names| - 1]) + if Enabled(g, last) then [last] else []
  }

  /** When the list is an order of requirements, the next process finds all it requires in the log, and is not there
      itself. */
  lemma NextInOrder(g: Graph, order: seq<Name>, names: seq<Name>, i: nat, log: seq<Name>)
    requires Ordered(g, order) && Complete(g, order) && RequirementsFirst(g, names) && Distinct(names) && INIT_PROCESS !in names
    requires i < |names| && log == EnabledOf(g, [INIT_PROCESS] + names[..i])
    ensures Enabled(g, names[i]) ==> Within(g[names[i]].requirements, log) && names[i] !in log
    ensures EnabledOf(g, [INIT_PROCESS] + names[..i + 1]) == log + if Enabled(g, names[i]) then [names[i]] else []
  {
    var now, next := [INIT_PROCESS] + names[..i], [INIT_PROCESS] + names[..i + 1];
    assert next[..|now|] == now && next[|now|] == names[i];
    if Enabled(g, names[i]) {
      forall r | r in g[names[i]].requirements ensures r in log {
        OrderShowsAcyclic(g, order);
        assert Edge(g, names[i], r);
      }
      assert names[i] in names;
    }
  }

  ghost predicate AllSucceed(g: Graph) {
    forall p :: Enabled(g, p) ==> g[p].outcome == Succeeds
  }

  /** One more than the place of `p` in the list, 0 if it has none. */
  ghost function Rank(order: seq<Name>, p: Name): (n: nat)
    ensures n <= |order| && (n == 0 <==> p !in order)
    ensures n > 0 ==> order[n - 1] == p
  {
    if order == [] then 0
    else if order[|order| - 1] == p then |order|
    else Rank(order[..|order| - 1], p)
  }

  /** The list has grown by processes of rank at most `bound`. */
  ghost predicate Grown(order: seq<Name>, before: seq<Name>, after: seq<Name>, bound: int) {
    before <= after && forall p :: p in after && p !in before ==> Rank(order, p) <= bound
  }

  lemma GrownTwice(order: seq<Name>, a: seq<Name>, b: seq<Name>, c: seq<Name>, m: int, n: int)
    requires Grown(order, a, b, m) && Grown(order, b, c, n) && n <= m
    ensures Grown(order, a, c, m) && forall p :: p in b ==> p in c
  {
  }

  lemma RequirementRanksLower(g: Graph, order: seq<Name>, p: Name, r: Name)
    requires Ordered(g, order) && Complete(g, order) && Edge(g, p, r)
    ensures Enabled(g, r) && 0 < Rank(order, r) < Rank(order, p)
  {
    var i := Rank(order, p) - 1;
    assert InPlace(g, order, i);
    var j :| 0 <= j < i && order[j] == r;
    assert InPlace(g, order, j) && order[Rank(order, r) - 1] == r;
  }
}
