/** The stored dependency rows as a directed graph: an edge runs from a task to the task it depends on.
    Paths, cycles and topological orders are defined here independently of any search. */
module DependencyGraph {

  type TaskId = int

  /** A row of the dependency table. `active` is cleared by a removal; reads do not filter on it. */
  datatype Dependency = Dependency(taskId: TaskId, dependsOn: TaskId, active: bool)

  type Rows = seq<Dependency>

  ghost predicate Edge(rows: Rows, x: TaskId, y: TaskId) {
    exists i :: 0 <= i < |rows| && rows[i].taskId == x && rows[i].dependsOn == y
  }

  ghost predicate IsPath(rows: Rows, p: seq<TaskId>) {
    |p| > 0 && forall i :: 0 <= i < |p| - 1 ==> Edge(rows, p[i], p[i + 1])
  }

  ghost predicate PathBetween(rows: Rows, p: seq<TaskId>, x: TaskId, y: TaskId) {
    IsPath(rows, p) && p[0] == x && p[|p| - 1] == y
  }

  /** y can be reached from x in zero or more steps. */
  ghost predicate Reaches(rows: Rows, x: TaskId, y: TaskId) {
    exists p :: PathBetween(rows, p, x, y)
  }

  /** x lies on a cycle: one step away from x there is a task that leads back to x. */
  ghost predicate OnCycle(rows: Rows, x: TaskId) {
    exists y :: Edge(rows, x, y) && Reaches(rows, y, x)
  }

  ghost predicate CycleReachable(rows: Rows, x: TaskId) {
    exists c :: Reaches(rows, x, c) && OnCycle(rows, c)
  }

  ghost predicate Acyclic(rows: Rows) {
    forall x :: !OnCycle(rows, x)
  }

  // ---------------------------------------------------------------- paths

  lemma ReachesSelf(rows: Rows, x: TaskId)
    ensures Reaches(rows, x, x)
  {
    assert PathBetween(rows, [x], x, x);
  }

  lemma ReachesTransitive(rows: Rows, x: TaskId, y: TaskId, z: TaskId)
    requires Reaches(rows, x, y) && Reaches(rows, y, z)
    ensures Reaches(rows, x, z)
  {
    var p :| PathBetween(rows, p, x, y);
    var q :| PathBetween(rows, q, y, z);
    var r := p + q[1..];
    forall i | 0 <= i < |r| - 1
      ensures Edge(rows, r[i], r[i + 1])
    {
      if i < |p| - 1 {
        assert r[i] == p[i] && r[i + 1] == p[i + 1];
      } else {
        assert r[i] == q[i - |p| + 1] && r[i + 1] == q[i - |p| + 2];
      }
    }
    assert PathBetween(rows, r, x, z);
  }

  lemma EdgeThenReaches(rows: Rows, x: TaskId, y: TaskId, z: TaskId)
    requires Edge(rows, x, y) && Reaches(rows, y, z)
    ensures Reaches(rows, x, z)
  {
    assert PathBetween(rows, [x, y], x, y);
    ReachesTransitive(rows, x, y, z);
  }

  lemma FirstStep(rows: Rows, p: seq<TaskId>, x: TaskId, y: TaskId)
    requires PathBetween(rows, p, x, y) && |p| > 1
    ensures Edge(rows, x, p[1]) && PathBetween(rows, p[1..], p[1], y)
  {
  }

  /** A set closed under edges that holds the start of a path holds its end. */
  lemma {:induction false} ClosedHoldsPath(rows: Rows, closed: set<TaskId>, p: seq<TaskId>, x: TaskId, y: TaskId)
    requires forall u, v :: u in closed && Edge(rows, u, v) ==> v in closed
    requires PathBetween(rows, p, x, y) && x in closed
    ensures y in closed
    decreases |p|
  {
    if |p| > 1 {
      FirstStep(rows, p, x, y);
      ClosedHoldsPath(rows, closed, p[1..], p[1], y);
    }
  }

  // ---------------------------------------------------------------- monotonicity

  ghost predicate SubGraph(small: Rows, big: Rows) {
    forall x, y :: Edge(small, x, y) ==> Edge(big, x, y)
  }

  lemma SubGraphReaches(small: Rows, big: Rows, x: TaskId, y: TaskId)
    requires SubGraph(small, big) && Reaches(small, x, y)
    ensures Reaches(big, x, y)
  {
    var p :| PathBetween(small, p, x, y);
    assert PathBetween(big, p, x, y);
  }

  lemma SubGraphAcyclic(small: Rows, big: Rows)
    requires SubGraph(small, big) && Acyclic(big)
    ensures Acyclic(small)
  {
    forall x
      ensures !OnCycle(small, x)
    {
      if OnCycle(small, x) {
        var y :| Edge(small, x, y) && Reaches(small, y, x);
        SubGraphReaches(small, big, y, x);
        assert OnCycle(big, x);
      }
    }
  }

  // ---------------------------------------------------------------- adding one edge

  lemma EdgeOfAdded(rows: Rows, d: Dependency, x: TaskId, y: TaskId)
    ensures Edge(rows + [d], x, y) <==> Edge(rows, x, y) || (x == d.taskId && y == d.dependsOn)
  {
    var big := rows + [d];
    if Edge(rows, x, y) {
      var i :| 0 <= i < |rows| && rows[i].taskId == x && rows[i].dependsOn == y;
      assert big[i] == rows[i];
    }
    if x == d.taskId && y == d.dependsOn {
      assert big[|rows|] == d;
    }
    if Edge(big, x, y) {
      var i :| 0 <= i < |big| && big[i].taskId == x && big[i].dependsOn == y;
      if i < |rows| {
        assert rows[i] == big[i];
      }
    }
  }

  lemma AddedExtends(rows: Rows, d: Dependency)
    ensures SubGraph(rows, rows + [d])
  {
    forall x, y | Edge(rows, x, y)
      ensures Edge(rows + [d], x, y)
    {
      EdgeOfAdded(rows, d, x, y);
    }
  }

  /** What a new edge adds to reachability: old paths, and old paths joined across it. */
  lemma {:induction false} ReachesAfterAdd(rows: Rows, d: Dependency, p: seq<TaskId>, x: TaskId, y: TaskId)
    requires PathBetween(rows + [d], p, x, y)
    ensures Reaches(rows, x, y) || (Reaches(rows, x, d.taskId) && Reaches(rows, d.dependsOn, y))
    decreases |p|
  {
    if |p| == 1 {
      ReachesSelf(rows, x);
    } else {
      FirstStep(rows + [d], p, x, y);
      var z := p[1];
      ReachesAfterAdd(rows, d, p[1..], z, y);
      EdgeOfAdded(rows, d, x, z);
      if Edge(rows, x, z) {
        if Reaches(rows, z, y) {
          EdgeThenReaches(rows, x, z, y);
        } else {
          EdgeThenReaches(rows, x, z, d.taskId);
        }
      } else {
        ReachesSelf(rows, x);
      }
    }
  }

  /** The guard of an insertion is exact: in an acyclic graph the new edge closes a cycle
      if and only if its target already leads to its source (a self-edge included). */
  lemma AddKeepsAcyclicIff(rows: Rows, d: Dependency)
    requires Acyclic(rows)
    ensures Acyclic(rows + [d]) <==> !Reaches(rows, d.dependsOn, d.taskId)
  {
    var big := rows + [d];
    if Reaches(rows, d.dependsOn, d.taskId) {
      AddedExtends(rows, d);
      SubGraphReaches(rows, big, d.dependsOn, d.taskId);
      EdgeOfAdded(rows, d, d.taskId, d.dependsOn);
      assert OnCycle(big, d.taskId);
    } else if x :| OnCycle(big, x) {
      var y :| Edge(big, x, y) && Reaches(big, y, x);
      var p :| PathBetween(big, p, y, x);
      ReachesAfterAdd(rows, d, p, y, x);
      EdgeOfAdded(rows, d, x, y);
      assert !OnCycle(rows, x);
      if Edge(rows, x, y) {
        EdgeThenReaches(rows, x, y, d.taskId);
        ReachesTransitive(rows, d.dependsOn, x, d.taskId);
      }
      assert false;
    }
  }

  // ---------------------------------------------------------------- topological orders

  ghost predicate Distinct(s: seq<TaskId>) {
    forall i, j :: 0 <= i < j < |s| ==> s[i] != s[j]
  }

  /** Every task in the graph is listed, once, after all tasks it depends on. */
  ghost predicate TopologicalOrder(rows: Rows, order: seq<TaskId>) {
    && Distinct(order)
    && forall r :: 0 <= r < |rows| ==> InOrder(order, rows[r].dependsOn, rows[r].taskId)
  }

  ghost predicate InOrder(order: seq<TaskId>, first: TaskId, second: TaskId) {
    exists i, j :: 0 <= i < j < |order| && order[i] == first && order[j] == second
  }

  ghost predicate HasTopologicalOrder(rows: Rows) {
    exists order :: TopologicalOrder(rows, order)
  }

  /** The elements of `s` that `root` reaches (keep) or does not reach (!keep), in the order of `s`. */
  ghost function Select(rows: Rows, root: TaskId, s: seq<TaskId>, keep: bool): (r: seq<TaskId>)
    ensures forall x :: x in r <==> x in s && (Reaches(rows, root, x) <==> keep)
    ensures Distinct(s) ==> Distinct(r)
  {
    if s == [] then []
    else
      var rest := Select(rows, root, s[..|s| - 1], keep);
      var last := s[|s| - 1];
      assert s == s[..|s| - 1] + [last];
      if Reaches(rows, root, last) <==> keep then rest + [last] else rest
  }

  lemma {:induction false} SelectKeepsOrder(rows: Rows, root: TaskId, s: seq<TaskId>, keep: bool, x: TaskId, y: TaskId)
    requires InOrder(s, x, y)
    requires Reaches(rows, root, x) <==> keep
    requires Reaches(rows, root, y) <==> keep
    ensures InOrder(Select(rows, root, s, keep), x, y)
  {
    var init, last := s[..|s| - 1], s[|s| - 1];
    var rest := Select(rows, root, init, keep);
    var whole := Select(rows, root, s, keep);
    var i, j :| 0 <= i < j < |s| && s[i] == x && s[j] == y;
    if j < |s| - 1 {
      assert init[i] == x && init[j] == y;
      SelectKeepsOrder(rows, root, init, keep, x, y);
      var a, b :| 0 <= a < b < |rest| && rest[a] == x && rest[b] == y;
      assert whole[a] == x && whole[b] == y;
    } else {
      assert init[i] == x;
      assert x in rest;
      var a :| 0 <= a < |rest| && rest[a] == x;
      assert whole == rest + [last];
      assert whole[a] == x && whole[|rest|] == y;
    }
  }

  /** A topological order only needs one edge's worth of repair: what the new edge's target leads to moves in front. */
  lemma ReorderAround(rows: Rows, order: seq<TaskId>, root: TaskId)
    requires TopologicalOrder(rows, order)
    ensures TopologicalOrder(rows, Select(rows, root, order, true) + Select(rows, root, order, false))
    ensures forall x :: x in order <==> x in Select(rows, root, order, true) + Select(rows, root, order, false)
  {
    var front, back := Select(rows, root, order, true), Select(rows, root, order, false);
    var whole := front + back;
    forall i, j | 0 <= i < j < |whole|
      ensures whole[i] != whole[j]
    {
      if i < |front| <= j {
        assert front[i] in front && back[j - |front|] in back;
      }
    }
    forall r | 0 <= r < |rows|
      ensures InOrder(whole, rows[r].dependsOn, rows[r].taskId)
    {
      var x, y := rows[r].taskId, rows[r].dependsOn;
      assert Edge(rows, x, y);
      assert InOrder(order, y, x);
      if Reaches(rows, root, x) {
        ReachesEdge(rows, root, x, y);
        SelectKeepsOrder(rows, root, order, true, y, x);
        var i, j :| 0 <= i < j < |front| && front[i] == y && front[j] == x;
        assert whole[i] == y && whole[j] == x;
      } else if Reaches(rows, root, y) {
        SplitInOrder(order, front, back, y, x);
      } else {
        SelectKeepsOrder(rows, root, order, false, y, x);
        var i, j :| 0 <= i < j < |back| && back[i] == y && back[j] == x;
        assert whole[|front| + i] == y && whole[|front| + j] == x;
      }
    }
  }

  lemma ReachesEdge(rows: Rows, root: TaskId, x: TaskId, y: TaskId)
    requires Reaches(rows, root, x) && Edge(rows, x, y)
    ensures Reaches(rows, root, y)
  {
    assert PathBetween(rows, [x, y], x, y);
    ReachesTransitive(rows, root, x, y);
  }

  lemma SplitInOrder(order: seq<TaskId>, front: seq<TaskId>, back: seq<TaskId>, x: TaskId, y: TaskId)
    requires x in front && y in back
    ensures InOrder(front + back, x, y)
  {
    var i :| 0 <= i < |front| && front[i] == x;
    var j :| 0 <= j < |back| && back[j] == y;
    assert (front + back)[i] == x && (front + back)[|front| + j] == y;
  }

  ghost function AddMissing(order: seq<TaskId>, x: TaskId): (r: seq<TaskId>)
    ensures x in r && order <= r
    ensures Distinct(order) ==> Distinct(r)
  {
    if x in order then order else order + [x]
  }

  lemma ExtendOrder(rows: Rows, order: seq<TaskId>, more: seq<TaskId>)
    requires TopologicalOrder(rows, order) && order <= more && Distinct(more)
    ensures TopologicalOrder(rows, more)
  {
  }

  lemma AddEdgeToOrder(rows: Rows, order: seq<TaskId>, d: Dependency)
    requires TopologicalOrder(rows, order) && !Reaches(rows, d.dependsOn, d.taskId)
    ensures HasTopologicalOrder(rows + [d])
  {
    var full := AddMissing(AddMissing(order, d.dependsOn), d.taskId);
    ExtendOrder(rows, order, full);
    ReorderAround(rows, full, d.dependsOn);
    var front, back := Select(rows, d.dependsOn, full, true), Select(rows, d.dependsOn, full, false);
    ReachesSelf(rows, d.dependsOn);
    SplitInOrder(full, front, back, d.dependsOn, d.taskId);
    assert TopologicalOrder(rows + [d], front + back);
  }

  /** Acyclic graphs have a topological order. */
  lemma {:induction false} AcyclicHasOrder(rows: Rows)
    requires Acyclic(rows)
    ensures HasTopologicalOrder(rows)
  {
    if rows == [] {
      assert TopologicalOrder(rows, []);
    } else {
      var init, d := rows[..|rows| - 1], rows[|rows| - 1];
      assert rows == init + [d];
      AddedExtends(init, d);
      SubGraphAcyclic(init, rows);
      AcyclicHasOrder(init);
      AddKeepsAcyclicIff(init, d);
      var order :| TopologicalOrder(init, order);
      AddEdgeToOrder(init, order, d);
    }
  }

  lemma {:induction false} PathGoesBack(rows: Rows, order: seq<TaskId>, p: seq<TaskId>, x: TaskId, y: TaskId)
    requires TopologicalOrder(rows, order) && PathBetween(rows, p, x, y)
    ensures x == y || InOrder(order, y, x)
    decreases |p|
  {
    if |p| > 1 {
      FirstStep(rows, p, x, y);
      PathGoesBack(rows, order, p[1..], p[1], y);
      assert InOrder(order, p[1], x);
    }
  }

  /** A topological order exists exactly for the acyclic graphs. */
  lemma OrderedIffAcyclic(rows: Rows)
    ensures HasTopologicalOrder(rows) <==> Acyclic(rows)
  {
    if Acyclic(rows) {
      AcyclicHasOrder(rows);
    }
    if HasTopologicalOrder(rows) {
      var order :| TopologicalOrder(rows, order);
      forall x
        ensures !OnCycle(rows, x)
      {
        if OnCycle(rows, x) {
          var y :| Edge(rows, x, y) && Reaches(rows, y, x);
          var p :| PathBetween(rows, p, y, x);
          assert InOrder(order, y, x);
          PathGoesBack(rows, order, p, y, x);
          assert false;
        }
      }
    }
  }
}
