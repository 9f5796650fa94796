/** The guarded insertion and the removal of task dependencies, with the depth-first search that guards insertion. */
module TaskDependencyService {
  import opened DependencyGraph

  // ---------------------------------------------------------------- store port

  /** The rows a read of `x` returns, in table order. Inactive rows are not filtered out. */
  function Blocking(rows: Rows, x: TaskId): (r: seq<TaskId>)
    ensures forall y :: y in r <==> Edge(rows, x, y)
  {
    if rows == [] then []
    else
      var init, last := rows[..|rows| - 1], rows[|rows| - 1];
      assert rows == init + [last];
      assert forall y :: Edge(rows, x, y) <==> Edge(init, x, y) || (x == last.taskId && y == last.dependsOn) by {
        forall y
          ensures Edge(rows, x, y) <==> Edge(init, x, y) || (x == last.taskId && y == last.dependsOn)
        {
          EdgeOfAdded(init, last, x, y);
        }
      }
      Blocking(init, x) + (if last.taskId == x then [last.dependsOn] else [])
  }

  /** A removal only clears the flag of the matching rows. */
  function Deactivate(rows: Rows, x: TaskId, y: TaskId): Rows {
    seq(|rows|, i requires 0 <= i < |rows| =>
      if rows[i].taskId == x && rows[i].dependsOn == y then rows[i].(active := false) else rows[i])
  }

  /** The rows a caller believes to be left: the active ones. */
  function Live(rows: Rows): (r: Rows)
    ensures forall d :: d in r <==> d in rows && d.active
  {
    if rows == [] then [] else Live(rows[..|rows| - 1]) + (if rows[|rows| - 1].active then [rows[|rows| - 1]] else [])
  }

  /** For who looks at the flag, exactly the removed edge is gone. */
  lemma RemovalHidesEdge(rows: Rows, x: TaskId, y: TaskId, d: Dependency)
    ensures d in Live(Deactivate(rows, x, y)) <==> d in Live(rows) && !(d.taskId == x && d.dependsOn == y)
  {
    var rows' := Deactivate(rows, x, y);
    if d in rows && d.active && !(d.taskId == x && d.dependsOn == y) {
      var i :| 0 <= i < |rows| && rows[i] == d;
      assert rows'[i] == d;
    }
  }

  // ---------------------------------------------------------------- search

  datatype SearchResult = Found(circular: bool) | ReadFailed

  /** Every finished task depends only on tasks that finished before it. */
  ghost predicate FinishedInOrder(rows: Rows, finished: seq<TaskId>) {
    forall i, y :: 0 <= i < |finished| && Edge(rows, finished[i], y) ==> y in finished[..i]
  }

  ghost function Elements(s: seq<TaskId>): set<TaskId> {
    set x | x in s
  }

  /** The state the recursive closure shares: which tasks were entered, and which of them are still open. */
  class CycleSearch {
    const rows: Rows
    const target: TaskId
    const unreadable: set<TaskId>  // tasks whose dependency read fails
    var visited: set<TaskId>
    var recStack: set<TaskId>
    ghost var finished: seq<TaskId>
    ghost const universe: set<TaskId>

    constructor (rows: Rows, target: TaskId, unreadable: set<TaskId>, ghost start: TaskId)
      ensures this.rows == rows && this.target == target && this.unreadable == unreadable
      ensures visited == {} && recStack == {} && finished == []
      ensures start in universe && forall d :: d in rows ==> d.dependsOn in universe
      ensures Valid()
    {
      this.rows, this.target, this.unreadable := rows, target, unreadable;
      visited, recStack, finished := {}, {}, [];
      universe := {start} + set d | d in rows :: d.dependsOn;
    }

    ghost predicate Valid()
      reads this
    {
      && visited == recStack + Elements(finished)
      && recStack !! Elements(finished)
      && target !in visited
      && unreadable !! Elements(finished)
      && visited <= universe
      && (forall d :: d in rows ==> d.dependsOn in universe)
      && FinishedInOrder(rows, finished)
    }

    /** `path` leads from the start of the search to `current`; all its tasks but `current` are open. */
    method Dfs(current: TaskId, ghost path: seq<TaskId>) returns (r: SearchResult)
      requires Valid()
      requires current !in visited && current in universe
      requires IsPath(rows, path) && path[|path| - 1] == current
      requires recStack == Elements(path[..|path| - 1])
      modifies this`visited, this`recStack, this`finished
      ensures r == Found(false) ==>
              Valid() && recStack == old(recStack) && old(finished) <= finished && current in finished
      ensures r == Found(false) ==> old(visited) <= visited
      ensures r == Found(true) ==> Reaches(rows, path[0], target) || CycleReachable(rows, path[0])
      ensures r == ReadFailed ==> exists x :: x in unreadable && Reaches(rows, path[0], x)
      decreases universe - visited
    {
      assert PathBetween(rows, path, path[0], current);
      if current == target {
        return Found(true);
      }
      visited := visited + {current};
      recStack := recStack + {current};
      assert recStack == Elements(path) by {
        assert path == path[..|path| - 1] + [current];
      }
      if current in unreadable {
        return ReadFailed;
      }
      var dependencies := Blocking(rows, current);
      var i := 0;
      while i < |dependencies|
        invariant 0 <= i <= |dependencies|
        invariant Valid()
        invariant recStack == Elements(path)
        invariant old(visited) + {current} <= visited
        invariant old(finished) <= finished
        invariant forall k :: 0 <= k < i ==> dependencies[k] in finished
      {
        var next := dependencies[i];
        assert next in dependencies && Edge(rows, current, next);
        ghost var longer := path + [next];
        assert IsPath(rows, longer);
        if next !in visited {
          assert next in universe by {
            var k :| 0 <= k < |rows| && rows[k].taskId == current && rows[k].dependsOn == next;
            assert rows[k] in rows;
          }
          assert longer[..|longer| - 1] == path && longer[0] == path[0];
          var found := Dfs(next, longer);
          if found != Found(false) {
            return found;
          }
        } else if next in recStack {
          OpenTaskClosesCycle(rows, path, next);
          return Found(true);
        }
        i := i + 1;
      }
      Finish(current, dependencies);
      recStack := recStack - {current};
      finished := finished + [current];
      assert finished[|finished| - 1] == current;
      assert Elements(finished) == Elements(finished[..|finished| - 1]) + {current};
      return Found(false);
    }

    lemma Finish(current: TaskId, dependencies: seq<TaskId>)
      requires FinishedInOrder(rows, finished)
      requires forall y :: Edge(rows, current, y) ==> y in dependencies
      requires forall k :: 0 <= k < |dependencies| ==> dependencies[k] in finished
      ensures FinishedInOrder(rows, finished + [current])
    {
      var more := finished + [current];
      forall i, y | 0 <= i < |more| && Edge(rows, more[i], y)
        ensures y in more[..i]
      {
        if i < |finished| {
          assert more[i] == finished[i] && more[..i] == finished[..i];
        } else {
          assert more[..i] == finished;
        }
      }
    }
  }

  lemma OpenTaskClosesCycle(rows: Rows, path: seq<TaskId>, next: TaskId)
    requires IsPath(rows, path) && next in path && Edge(rows, path[|path| - 1], next)
    ensures CycleReachable(rows, path[0])
  {
    var k :| 0 <= k < |path| && path[k] == next;
    var last := path[|path| - 1];
    assert PathBetween(rows, path[k..], next, last);
    assert PathBetween(rows, path, path[0], last);
    assert OnCycle(rows, last);
  }

  /** What an exhausted search proves: the finished tasks are closed under dependencies, so nothing else is
      reachable. */
  lemma ExhaustedSearch(rows: Rows, finished: seq<TaskId>, start: TaskId, target: TaskId)
    requires FinishedInOrder(rows, finished) && start in finished && target !in finished
    ensures !Reaches(rows, start, target) && !CycleReachable(rows, start)
  {
    var closed := Elements(finished);
    forall u, v | u in closed && Edge(rows, u, v)
      ensures v in closed
    {
      var i :| 0 <= i < |finished| && finished[i] == u;
      assert v in finished[..i];
    }
    if Reaches(rows, start, target) {
      var p :| PathBetween(rows, p, start, target);
      ClosedHoldsPath(rows, closed, p, start, target);
      assert false;
    }
    if c :| Reaches(rows, start, c) && OnCycle(rows, c) {
      var p :| PathBetween(rows, p, start, c);
      ClosedHoldsPath(rows, closed, p, start, c);
      FinishedHasNoCycle(rows, finished, c);
    }
  }

  /** The first position of c in the finish order is later than everything c leads to. */
  lemma FinishedHasNoCycle(rows: Rows, finished: seq<TaskId>, c: TaskId)
    requires FinishedInOrder(rows, finished) && c in finished
    ensures !OnCycle(rows, c)
  {
    if y :| Edge(rows, c, y) && Reaches(rows, y, c) {
      var i := FirstIndex(finished, c);
      var closed := Elements(finished[..i]);
      forall u, v | u in closed && Edge(rows, u, v)
        ensures v in closed
      {
        var j :| 0 <= j < i && finished[j] == u;
        assert v in finished[..j];
        assert finished[..j] <= finished[..i];
      }
      assert y in finished[..i];
      var p :| PathBetween(rows, p, y, c);
      ClosedHoldsPath(rows, closed, p, y, c);
      assert false;
    }
  }

  ghost function FirstIndex(s: seq<TaskId>, x: TaskId): (i: nat)
    requires x in s
    ensures i < |s| && s[i] == x && x !in s[..i]
  {
    if s[0] == x then 0
    else
      var k := FirstIndex(s[1..], x);
      assert s[..k + 1] == [s[0]] + s[1..][..k];
      k + 1
  }

  /** A task that can be reached cannot be read. */
  ghost predicate UnreadableReachable(rows: Rows, start: TaskId, unreadable: set<TaskId>) {
    exists x :: x in unreadable && Reaches(rows, start, x)
  }

  /** The search answers exactly: true if and only if `taskId` is reachable from `dependsOn`, or some cycle is.
      It fails only on an unreadable task it can reach, and answers false only if it can reach none. */
  method DetectCircularDependency(rows: Rows, taskId: TaskId, dependsOn: TaskId, unreadable: set<TaskId>)
    returns (r: SearchResult)
    ensures r.Found? ==> (r.circular <==> Reaches(rows, dependsOn, taskId) || CycleReachable(rows, dependsOn))
    ensures r.ReadFailed? ==> UnreadableReachable(rows, dependsOn, unreadable)
    ensures r == Found(false) ==> !UnreadableReachable(rows, dependsOn, unreadable)
  {
    var search := new CycleSearch(rows, taskId, unreadable, dependsOn);
    r := search.Dfs(dependsOn, [dependsOn]);
    if r == Found(false) {
      assert taskId !in Elements(search.finished);
      ExhaustedSearch(rows, search.finished, dependsOn, taskId);
      if x :| x in unreadable && Reaches(rows, dependsOn, x) {
        ExhaustedSearch(rows, search.finished, dependsOn, x);
      }
    }
  }

  // ---------------------------------------------------------------- service

  type UserId = int

  datatype TaskRecord = TaskRecord(userId: UserId, completed: bool)

  datatype DependencyError =
    | SelfDependency
    | TaskNotFound
    | DependencyTaskNotFound
    | NotBelongToUser
    | OnCompletedTask
    | CircularDetected
    | StoreFailed

  /** A task lookup of a missing row returns no task and no error, and the caller then reads a field of nothing. */
  datatype Outcome = Accepted | Rejected(error: DependencyError) | Panicked

  /** The port calls that fail during one operation. */
  datatype Faults = Faults(taskReads: set<TaskId>, edgeReads: set<TaskId>, write: bool)

  /** One operation's effect on the stored rows. */
  ghost predicate Step(rows: Rows, rows': Rows) {
    || rows' == rows
    || (exists x, y ::
          && !Reaches(rows, y, x) && rows' == rows + [Dependency(x, y, true)])
    || (exists x, y :: rows' == Deactivate(rows, x, y))
  }

  class Service {
    var rows: Rows
    var tasks: map<TaskId, TaskRecord>

    constructor (tasks: map<TaskId, TaskRecord>)
      ensures rows == [] && this.tasks == tasks
    {
      rows := [];
      this.tasks := tasks;
    }

    /** Each refusal is that of the first check that fails, in this order; behind them only the search decides. */
    method ValidateDependency(userId: UserId, taskId: TaskId, dependsOn: TaskId, faults: Faults) returns (r: Outcome)
      ensures if taskId == dependsOn then r == Rejected(SelfDependency)
              else if taskId in faults.taskReads then r == Rejected(TaskNotFound)
              else if dependsOn in faults.taskReads then r == Rejected(DependencyTaskNotFound)
              else if taskId !in tasks then r == Panicked
              else if tasks[taskId].userId != userId then r == Rejected(NotBelongToUser)
              else if dependsOn !in tasks then r == Panicked
              else if tasks[dependsOn].userId != userId then r == Rejected(NotBelongToUser)
              else if tasks[dependsOn].completed then r == Rejected(OnCompletedTask)
              else
                && (r == Accepted <==> !Reaches(rows, dependsOn, taskId) && !CycleReachable(rows, dependsOn)
                                       && !UnreadableReachable(rows, dependsOn, faults.edgeReads))
                && (r != Accepted ==> r == Rejected(StoreFailed) || r == Rejected(CircularDetected))
                && (r == Rejected(StoreFailed) ==> UnreadableReachable(rows, dependsOn, faults.edgeReads))
                && (r == Rejected(CircularDetected) ==>
                      Reaches(rows, dependsOn, taskId) || CycleReachable(rows, dependsOn))
    {
      if taskId == dependsOn {
        return Rejected(SelfDependency);
      }
      if taskId in faults.taskReads {
        return Rejected(TaskNotFound);
      }
      if dependsOn in faults.taskReads {
        return Rejected(DependencyTaskNotFound);
      }
      if taskId !in tasks {
        return Panicked;
      }
      if tasks[taskId].userId != userId {
        return Rejected(NotBelongToUser);
      }
      if dependsOn !in tasks {
        return Panicked;
      }
      if tasks[dependsOn].userId != userId {
        return Rejected(NotBelongToUser);
      }
      if tasks[dependsOn].completed {
        return Rejected(OnCompletedTask);
      }
      var search := DetectCircularDependency(rows, taskId, dependsOn, faults.edgeReads);
      if search.ReadFailed? {
        return Rejected(StoreFailed);
      }
      if search.circular {
        return Rejected(CircularDetected);
      }
      return Accepted;
    }

    /** Accepted if and only if the two tasks are different, read, present and the user's, the target is open, nothing
        circular and nothing unreadable can be reached from it, and the write works. */
    method CreateDependency(userId: UserId, taskId: TaskId, dependsOn: TaskId, faults: Faults) returns (r: Outcome)
      modifies this`rows
      ensures rows == if r == Accepted then old(rows) + [Dependency(taskId, dependsOn, true)] else old(rows)
      ensures r == Accepted <==>
              && taskId != dependsOn && taskId !in faults.taskReads && dependsOn !in faults.taskReads
              && taskId in tasks && tasks[taskId].userId == userId
              && dependsOn in tasks && tasks[dependsOn] == TaskRecord(userId, false)
              && !Reaches(old(rows), dependsOn, taskId) && !CycleReachable(old(rows), dependsOn)
              && !UnreadableReachable(old(rows), dependsOn, faults.edgeReads) && !faults.write
      ensures r != Accepted ==>
                if taskId == dependsOn then r == Rejected(SelfDependency)
                else if taskId in faults.taskReads then r == Rejected(TaskNotFound)
                else if dependsOn in faults.taskReads then r == Rejected(DependencyTaskNotFound)
                else if taskId !in tasks then r == Panicked
                else if tasks[taskId].userId != userId then r == Rejected(NotBelongToUser)
                else if dependsOn !in tasks then r == Panicked
                else if tasks[dependsOn].userId != userId then r == Rejected(NotBelongToUser)
                else if tasks[dependsOn].completed then r == Rejected(OnCompletedTask)
                else if r == Rejected(CircularDetected) then
                  Reaches(old(rows), dependsOn, taskId) || CycleReachable(old(rows), dependsOn)
                else
                  && r == Rejected(StoreFailed)
                  && (UnreadableReachable(old(rows), dependsOn, faults.edgeReads)
                      || (faults.write && !Reaches(old(rows), dependsOn, taskId)
                          && !CycleReachable(old(rows), dependsOn)))
      ensures Step(old(rows), rows)
    {
      r := ValidateDependency(userId, taskId, dependsOn, faults);
      if r == Accepted {
        if faults.write {
          return Rejected(StoreFailed);
        }
        rows := rows + [Dependency(taskId, dependsOn, true)];
      }
    }

    /** The flag of exactly the matching rows is cleared, unless one of the checks fails, and then the first to fail
        names the refusal. */
    method RemoveDependency(userId: UserId, taskId: TaskId, dependsOn: TaskId, faults: Faults) returns (r: Outcome)
      modifies this`rows
      ensures r == if taskId in faults.taskReads then Rejected(TaskNotFound)
                   else if taskId !in tasks then Panicked
                   else if tasks[taskId].userId != userId then Rejected(NotBelongToUser)
                   else if faults.write then Rejected(StoreFailed)
                   else Accepted
      ensures r != Accepted ==> rows == old(rows)
      ensures r == Accepted ==>
                && |rows| == |old(rows)|
                && forall i :: 0 <= i < |rows| ==>
                     rows[i] == if old(rows)[i].taskId == taskId && old(rows)[i].dependsOn == dependsOn
                                then Dependency(taskId, dependsOn, false) else old(rows)[i]
      ensures Step(old(rows), rows)
    {
      if taskId in faults.taskReads {
        return Rejected(TaskNotFound);
      }
      if taskId !in tasks {
        return Panicked;
      }
      if tasks[taskId].userId != userId {
        return Rejected(NotBelongToUser);
      }
      if faults.write {
        return Rejected(StoreFailed);
      }
      rows := Deactivate(rows, taskId, dependsOn);
      return Accepted;
    }
  }

  // ---------------------------------------------------------------- whole runs

  /** A run: the rows before the first operation and after each one. */
  ghost predicate IsRun(states: seq<Rows>) {
    && |states| > 0
    && states[0] == []
    && forall i :: 0 <= i < |states| - 1 ==> Step(states[i], states[i + 1])
  }

  lemma DeactivateSameGraph(rows: Rows, x: TaskId, y: TaskId)
    ensures SubGraph(rows, Deactivate(rows, x, y)) && SubGraph(Deactivate(rows, x, y), rows)
  {
    var rows' := Deactivate(rows, x, y);
    assert forall i :: 0 <= i < |rows| ==> rows'[i].taskId == rows[i].taskId && rows'[i].dependsOn == rows[i].dependsOn;
  }

  lemma StepKeepsAcyclic(rows: Rows, rows': Rows)
    requires Acyclic(rows) && Step(rows, rows')
    ensures Acyclic(rows')
  {
    if x, y :| !Reaches(rows, y, x) && rows' == rows + [Dependency(x, y, true)] {
      AddKeepsAcyclicIff(rows, Dependency(x, y, true));
    } else if x, y :| rows' == Deactivate(rows, x, y) {
      DeactivateSameGraph(rows, x, y);
      SubGraphAcyclic(rows', rows);
    }
  }

  lemma LiveIsSubGraph(rows: Rows)
    ensures SubGraph(Live(rows), rows)
  {
  }

  /** Over every run of creations and removals, with any port failures, the stored graph and its active part
      are acyclic and can be ordered so that each task follows everything it depends on. */
  lemma {:induction false} RunsStayAcyclic(states: seq<Rows>, k: nat)
    requires IsRun(states) && k < |states|
    ensures Acyclic(states[k]) && HasTopologicalOrder(states[k])
    ensures Acyclic(Live(states[k])) && HasTopologicalOrder(Live(states[k]))
  {
    if k > 0 {
      RunsStayAcyclic(states, k - 1);
      StepKeepsAcyclic(states[k - 1], states[k]);
    }
    OrderedIffAcyclic(states[k]);
    LiveIsSubGraph(states[k]);
    SubGraphAcyclic(Live(states[k]), states[k]);
    OrderedIffAcyclic(Live(states[k]));
  }

  /** On the graphs that runs produce, the open-task test never fires: the answer is plain reachability. */
  lemma SearchIsReachability(states: seq<Rows>, k: nat, taskId: TaskId, dependsOn: TaskId)
    requires IsRun(states) && k < |states|
    ensures Reaches(states[k], dependsOn, taskId) || CycleReachable(states[k], dependsOn)
            <==> Reaches(states[k], dependsOn, taskId)
  {
    RunsStayAcyclic(states, k);
  }

  // ---------------------------------------------------------------- removed edges

  /** A removal changes no answer of the search, because reads do not look at the flag. */
  lemma RemovalChangesNoAnswer(rows: Rows, x: TaskId, y: TaskId, u: TaskId, v: TaskId)
    ensures Reaches(Deactivate(rows, x, y), u, v) <==> Reaches(rows, u, v)
  {
    DeactivateSameGraph(rows, x, y);
    if Reaches(rows, u, v) {
      SubGraphReaches(rows, Deactivate(rows, x, y), u, v);
    }
    if Reaches(Deactivate(rows, x, y), u, v) {
      SubGraphReaches(Deactivate(rows, x, y), rows, u, v);
    }
  }

  /** So after creating and removing x -> y the reverse edge is still refused although it would close no cycle
      among the active rows: the guard is exact for the active rows only when they reach as far as the stored ones. */
  lemma RemovedEdgeStillBlocks(x: TaskId, y: TaskId)
    requires x != y
    ensures var rows := Deactivate([Dependency(x, y, true)], x, y);
            && Live(rows) == []
            && Acyclic(Live(rows) + [Dependency(y, x, true)])
            && Reaches(rows, x, y)
  {
    var created := [Dependency(x, y, true)];
    var rows := Deactivate(created, x, y);
    assert rows == [Dependency(x, y, false)];
    assert rows[..0] == [];
    assert rows[0].taskId == x && rows[0].dependsOn == y;
    assert Edge(rows, x, y);
    ReachesSelf(rows, y);
    EdgeThenReaches(rows, x, y, y);
    NoEdgesNoReach(x, y);
    forall z
      ensures !OnCycle([], z)
    {
    }
    AddKeepsAcyclicIff([], Dependency(y, x, true));
  }

  lemma NoEdgesNoReach(x: TaskId, y: TaskId)
    requires x != y
    ensures !Reaches([], x, y)
  {
    if p :| PathBetween([], p, x, y) {
      FirstStep([], p, x, y);
      assert false;
    }
  }

  /** The guard refuses x -> y exactly when the edge would close a cycle among the active rows. */
  ghost predicate GuardExact(rows: Rows, x: TaskId, y: TaskId) {
    Reaches(rows, y, x) <==> !Acyclic(Live(rows) + [Dependency(x, y, true)])
  }

  lemma GuardExactForPair(rows: Rows, x: TaskId, y: TaskId)
    requires Acyclic(rows)
    ensures GuardExact(rows, x, y) <==> (Reaches(rows, y, x) ==> Reaches(Live(rows), y, x))
  {
    LiveIsSubGraph(rows);
    SubGraphAcyclic(Live(rows), rows);
    AddKeepsAcyclicIff(Live(rows), Dependency(x, y, true));
    if Reaches(Live(rows), y, x) {
      SubGraphReaches(Live(rows), rows, y, x);
    }
  }

  /** Every removed edge is bypassed: active rows still lead from its task to what it depended on. */
  ghost predicate RemovedEdgesBypassed(rows: Rows) {
    forall d :: d in rows && !d.active ==> Reaches(Live(rows), d.taskId, d.dependsOn)
  }

  lemma EdgeIsLiveOrBypassed(rows: Rows, u: TaskId, v: TaskId)
    requires RemovedEdgesBypassed(rows) && Edge(rows, u, v)
    ensures Reaches(Live(rows), u, v)
  {
    var i :| 0 <= i < |rows| && rows[i].taskId == u && rows[i].dependsOn == v;
    if rows[i].active {
      var live := Live(rows);
      assert rows[i] in live;
      var k :| 0 <= k < |live| && live[k] == rows[i];
      ReachesSelf(live, v);
      EdgeThenReaches(live, u, v, v);
    }
  }

  lemma {:induction false} PathIsBypassed(rows: Rows, p: seq<TaskId>, u: TaskId, v: TaskId)
    requires RemovedEdgesBypassed(rows) && PathBetween(rows, p, u, v)
    ensures Reaches(Live(rows), u, v)
    decreases |p|
  {
    if |p| == 1 {
      ReachesSelf(Live(rows), u);
    } else {
      EdgeIsLiveOrBypassed(rows, p[0], p[1]);
      PathIsBypassed(rows, p[1..], p[1], v);
      ReachesTransitive(Live(rows), u, p[1], v);
    }
  }

  /** The guard is exact for the active rows, whatever edge is asked for, if and only if every removed edge is
      bypassed. */
  lemma GuardExactIff(rows: Rows)
    requires Acyclic(rows)
    ensures (forall x, y :: GuardExact(rows, x, y)) <==> RemovedEdgesBypassed(rows)
  {
    if RemovedEdgesBypassed(rows) {
      forall x, y
        ensures GuardExact(rows, x, y)
      {
        if Reaches(rows, y, x) {
          var p :| PathBetween(rows, p, y, x);
          PathIsBypassed(rows, p, y, x);
        }
        GuardExactForPair(rows, x, y);
      }
    }
    if forall x, y :: GuardExact(rows, x, y) {
      forall d | d in rows && !d.active
        ensures Reaches(Live(rows), d.taskId, d.dependsOn)
      {
        var i :| 0 <= i < |rows| && rows[i] == d;
        ReachesSelf(rows, d.dependsOn);
        EdgeThenReaches(rows, d.taskId, d.dependsOn, d.dependsOn);
        GuardExactForPair(rows, d.dependsOn, d.taskId);
      }
    }
  }
}
