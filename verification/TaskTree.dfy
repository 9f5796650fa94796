/** Turning the flat list of a task and its descendants into a tree. */
module TaskTree {
  import opened ScheduleEntities
  import opened TaskForest

  class Task {
    const id: int
    const parentTaskId: Option<int>
    var subTasks: seq<Task>

    constructor (id: int, parentTaskId: Option<int>)
      ensures this.id == id && this.parentTaskId == parentTaskId && subTasks == []
    {
      this.id, this.parentTaskId, subTasks := id, parentTaskId, [];
    }
  }

  function Nodes(tasks: seq<Task>): set<Task> { set t | t in tasks }

  function RowsOf(tasks: seq<Task>): (r: seq<Row>)
    ensures |r| == |tasks| && forall i :: 0 <= i < |r| ==> r[i] == Row(tasks[i].id, tasks[i].parentTaskId)
  {
    seq(|tasks|, i requires 0 <= i < |tasks| => Row(tasks[i].id, tasks[i].parentTaskId))
  }

  /** The last listed task with the id, or -1. */
  ghost function LastIndex(tasks: seq<Task>, id: int): (k: int)
    ensures -1 <= k < |tasks| && (k >= 0 ==> tasks[k].id == id)
  {
    if tasks == [] then -1
    else if tasks[|tasks| - 1].id == id then |tasks| - 1
    else LastIndex(tasks[..|tasks| - 1], id)
  }

  lemma {:induction false} LastIndexIsLast(tasks: seq<Task>, id: int, j: nat)
    requires j < |tasks| && tasks[j].id == id
    ensures LastIndex(tasks, id) >= j
  {
    if tasks[|tasks| - 1].id != id {
      LastIndexIsLast(tasks[..|tasks| - 1], id, j);
    }
  }

  lemma LastIndexStep(tasks: seq<Task>, k: nat, id: int)
    requires k < |tasks|
    ensures LastIndex(tasks[..k + 1], id) == if tasks[k].id == id then k else LastIndex(tasks[..k], id)
  {
    assert tasks[..k + 1][..k] == tasks[..k];
  }

  lemma LastIndexWhole(tasks: seq<Task>, id: int)
    ensures LastIndex(tasks[..|tasks|], id) == LastIndex(tasks, id)
  {
    assert tasks[..|tasks|] == tasks;
  }

  /** The listed children of a task, in list order. */
  function ChildTasks(tasks: seq<Task>, parent: int): seq<Task> {
    if tasks == [] then []
    else
      var last := tasks[|tasks| - 1];
      ChildTasks(tasks[..|tasks| - 1], parent) + (if last.parentTaskId == Some(parent) then [last] else [])
  }

  /** What task k is to hold: the listed children of its id, unless a later task of the list has the same id. */
  ghost function Linked(tasks: seq<Task>, upTo: nat, k: nat): seq<Task>
    requires k < |tasks| && upTo <= |tasks|
  {
    if LastIndex(tasks, tasks[k].id) == k then ChildTasks(tasks[..upTo], tasks[k].id) else []
  }

  ghost predicate DistinctObjects(tasks: seq<Task>) {
    forall i, j :: 0 <= i < j < |tasks| ==> tasks[i] != tasks[j]
  }

  /** First pass: every task starts without sub-tasks and is found by its id. */
  method Index(tasks: seq<Task>) returns (taskMap: map<int, Task>)
    modifies Nodes(tasks)
    ensures forall k :: 0 <= k < |tasks| ==> tasks[k].subTasks == []
    ensures forall id :: id in taskMap <==> LastIndex(tasks, id) >= 0
    ensures forall id :: id in taskMap ==> taskMap[id] == tasks[LastIndex(tasks, id)]
  {
    taskMap := map[];
    for k := 0 to |tasks|
      invariant forall j :: 0 <= j < k ==> tasks[j].subTasks == []
      invariant forall id :: id in taskMap <==> LastIndex(tasks[..k], id) >= 0
      invariant forall id :: id in taskMap ==> taskMap[id] == tasks[LastIndex(tasks[..k], id)]
    {
      assert tasks[..k + 1][..k] == tasks[..k];
      tasks[k].subTasks := [];
      taskMap := taskMap[tasks[k].id := tasks[k]];
    }
    assert tasks[..|tasks|] == tasks;
  }

  lemma ChildTasksStep(tasks: seq<Task>, k: nat, parent: int)
    requires k < |tasks|
    ensures ChildTasks(tasks[..k + 1], parent)
            == ChildTasks(tasks[..k], parent) + if tasks[k].parentTaskId == Some(parent) then [tasks[k]] else []
  {
    assert tasks[..k + 1][..k] == tasks[..k];
  }

  /** Task k goes to the last listed task with its parent's id. */
  lemma LinkedStep(tasks: seq<Task>, k: nat, j: nat)
    requires k < |tasks| && j < |tasks|
    ensures var parent := tasks[k].parentTaskId;
            Linked(tasks, k + 1, j)
            == Linked(tasks, k, j) + if parent.Some? && LastIndex(tasks, parent.value) == j then [tasks[k]] else []
  {
    ChildTasksStep(tasks, k, tasks[j].id);
  }

  ghost predicate LinkedUpTo(tasks: seq<Task>, k: nat)
    requires k <= |tasks|
    reads Nodes(tasks)
  {
    forall j :: 0 <= j < |tasks| ==> tasks[j].subTasks == Linked(tasks, k, j)
  }

  /** Appends task k to its parent, if that is listed. */
  method Attach(tasks: seq<Task>, taskMap: map<int, Task>, k: nat)
    requires k < |tasks| && DistinctObjects(tasks) && LinkedUpTo(tasks, k)
    requires forall id :: id in taskMap <==> LastIndex(tasks, id) >= 0
    requires forall id :: id in taskMap ==> taskMap[id] == tasks[LastIndex(tasks, id)]
    modifies Nodes(tasks)
    ensures LinkedUpTo(tasks, k + 1)
  {
    var task := tasks[k];
    ghost var p := if task.parentTaskId.Some? then LastIndex(tasks, task.parentTaskId.value) else -1;
    if task.parentTaskId.Some? && task.parentTaskId.value in taskMap {
      var parentTask := taskMap[task.parentTaskId.value];
      assert parentTask == tasks[p] && parentTask in Nodes(tasks);
      parentTask.subTasks := parentTask.subTasks + [task];
    }
    forall j | 0 <= j < |tasks|
      ensures tasks[j].subTasks == Linked(tasks, k + 1, j)
    {
      LinkedStep(tasks, k, j);
      assert j != p && p >= 0 ==> tasks[j] != tasks[p];
    }
  }

  /** Second pass: every task whose parent is listed is appended to it; the root is noted on the way. */
  method Link(tasks: seq<Task>, taskMap: map<int, Task>, rootId: int) returns (rootTask: Task?)
    requires DistinctObjects(tasks) && LinkedUpTo(tasks, 0)
    requires forall id :: id in taskMap <==> LastIndex(tasks, id) >= 0
    requires forall id :: id in taskMap ==> taskMap[id] == tasks[LastIndex(tasks, id)]
    modifies Nodes(tasks)
    ensures LinkedUpTo(tasks, |tasks|)
    ensures rootTask == if LastIndex(tasks, rootId) >= 0 then tasks[LastIndex(tasks, rootId)] else null
  {
    rootTask := null;
    for k := 0 to |tasks|
      invariant LinkedUpTo(tasks, k)
      invariant rootTask == if LastIndex(tasks[..k], rootId) >= 0 then tasks[LastIndex(tasks[..k], rootId)] else null
    {
      Attach(tasks, taskMap, k);
      LastIndexStep(tasks, k, rootId);
      if tasks[k].id == rootId {
        rootTask := tasks[k];
      }
    }
    LastIndexWhole(tasks, rootId);
  }

  /** An empty list is the error TaskNotFound; a list without the root gives no root and no error. */
  method GetTaskTreeByTaskID(tasks: seq<Task>, rootId: int) returns (notFound: bool, rootTask: Task?)
    requires DistinctObjects(tasks)
    modifies Nodes(tasks)
    ensures notFound <==> tasks == []
    ensures LinkedUpTo(tasks, |tasks|)
    ensures rootTask == if LastIndex(tasks, rootId) >= 0 then tasks[LastIndex(tasks, rootId)] else null
  {
    if |tasks| == 0 {
      return true, null;
    }
    var taskMap := Index(tasks);
    rootTask := Link(tasks, taskMap, rootId);
    return false, rootTask;
  }

  // ---------------------------------------------------------------- the tree the pointers form

  /** Sub-tasks stay inside the list and lie lower. */
  ghost predicate Rooted(nodes: set<Task>, height: int -> nat)
    reads nodes
  {
    forall n, s :: n in nodes && s in n.subTasks ==> s in nodes && height(s.id) < height(n.id)
  }

  /** Walking the tree below a node, ids in preorder. */
  ghost function Flatten(nodes: set<Task>, height: int -> nat, node: Task): seq<int>
    requires node in nodes && Rooted(nodes, height)
    reads nodes
    decreases height(node.id), 1, 0
  {
    [node.id] + FlattenAll(nodes, height, height(node.id), node.subTasks)
  }

  ghost function FlattenAll(nodes: set<Task>, height: int -> nat, bound: nat, trees: seq<Task>): seq<int>
    requires Rooted(nodes, height) && forall t :: t in trees ==> t in nodes && height(t.id) < bound
    reads nodes
    decreases bound, 0, |trees|
  {
    if trees == [] then [] else Flatten(nodes, height, trees[0]) + FlattenAll(nodes, height, bound, trees[1..])
  }

  function Ids(ts: seq<Task>): (r: seq<int>)
    ensures |r| == |ts| && forall i :: 0 <= i < |r| ==> r[i] == ts[i].id
  {
    seq(|ts|, i requires 0 <= i < |ts| => ts[i].id)
  }

  lemma IdsTail(ts: seq<Task>)
    requires ts != []
    ensures Ids(ts) != [] && Ids(ts)[0] == ts[0].id && Ids(ts)[1..] == Ids(ts[1..])
  {
  }

  lemma {:induction false} ChildTasksMatchRows(tasks: seq<Task>, parent: int)
    ensures Ids(ChildTasks(tasks, parent)) == ChildIds(RowsOf(tasks), parent)
  {
    if tasks != [] {
      var rest := tasks[..|tasks| - 1];
      ChildTasksMatchRows(rest, parent);
      assert RowsOf(rest) == RowsOf(tasks)[..|tasks| - 1];
    }
  }

  lemma {:induction false} ChildTasksMembers(tasks: seq<Task>, parent: int, t: Task)
    ensures t in ChildTasks(tasks, parent) <==> t in tasks && t.parentTaskId == Some(parent)
  {
    if tasks != [] {
      ChildTasksMembers(tasks[..|tasks| - 1], parent, t);
    }
  }

  /** With distinct ids every listed task holds exactly its listed children, in list order. */
  lemma SubTasksAreChildren(tasks: seq<Task>, k: nat)
    requires k < |tasks| && DistinctIds(RowsOf(tasks)) && LinkedUpTo(tasks, |tasks|)
    ensures tasks[k].subTasks == ChildTasks(tasks, tasks[k].id)
    ensures Ids(tasks[k].subTasks) == ChildIds(RowsOf(tasks), tasks[k].id)
  {
    var rows := RowsOf(tasks);
    LastIndexIsLast(tasks, tasks[k].id, k);
    var last := LastIndex(tasks, tasks[k].id);
    assert rows[k].id == rows[last].id;
    assert tasks[..|tasks|] == tasks;
    ChildTasksMatchRows(tasks, tasks[k].id);
  }

  lemma BuiltTreeIsRooted(tasks: seq<Task>, height: int -> nat)
    requires DistinctIds(RowsOf(tasks)) && Acyclic(RowsOf(tasks), height) && LinkedUpTo(tasks, |tasks|)
    ensures Rooted(Nodes(tasks), height)
  {
    forall n, s | n in tasks && s in n.subTasks
      ensures s in tasks && height(s.id) < height(n.id)
    {
      var k :| 0 <= k < |tasks| && tasks[k] == n;
      SubTasksAreChildren(tasks, k);
      ChildTasksMembers(tasks, n.id, s);
      var i :| 0 <= i < |tasks| && tasks[i] == s;
      assert RowsOf(tasks)[i].parentId == Some(n.id);
    }
  }

  lemma {:induction false} FlattenMatchesRows(tasks: seq<Task>, height: int -> nat, node: Task)
    requires DistinctIds(RowsOf(tasks)) && Acyclic(RowsOf(tasks), height) && LinkedUpTo(tasks, |tasks|) && node in tasks
    requires Rooted(Nodes(tasks), height)
    ensures Flatten(Nodes(tasks), height, node) == Preorder(RowsOf(tasks), height, node.id)
    decreases height(node.id), 1, 0
  {
    var k :| 0 <= k < |tasks| && tasks[k] == node;
    SubTasksAreChildren(tasks, k);
    FlattenAllMatchesRows(tasks, height, height(node.id), node.subTasks);
  }

  lemma {:induction false} FlattenAllMatchesRows(tasks: seq<Task>, height: int -> nat, bound: nat, trees: seq<Task>)
    requires DistinctIds(RowsOf(tasks)) && Acyclic(RowsOf(tasks), height) && LinkedUpTo(tasks, |tasks|)
    requires Rooted(Nodes(tasks), height) && forall t :: t in trees ==> t in tasks && height(t.id) < bound
    ensures forall r :: r in Ids(trees) ==> height(r) < bound
    ensures FlattenAll(Nodes(tasks), height, bound, trees) == PreorderAll(RowsOf(tasks), height, bound, Ids(trees))
    decreases bound, 0, |trees|
  {
    if trees != [] {
      assert trees[0] in trees;
      FlattenMatchesRows(tasks, height, trees[0]);
      FlattenAllMatchesRows(tasks, height, bound, trees[1..]);
      IdsTail(trees);
    }
  }

  /** Walking the built tree from the root meets each listed descendant of the root exactly once and nothing else. */
  lemma TreeHoldsDescendantsOnce(tasks: seq<Task>, height: int -> nat, root: Task)
    requires DistinctIds(RowsOf(tasks)) && Acyclic(RowsOf(tasks), height) && LinkedUpTo(tasks, |tasks|) && root in tasks
    ensures Rooted(Nodes(tasks), height)
    ensures var walk := Flatten(Nodes(tasks), height, root);
            && NoDuplicates(walk)
            && (forall id :: id in walk <==> Descends(RowsOf(tasks), root.id, id))
  {
    BuiltTreeIsRooted(tasks, height);
    FlattenMatchesRows(tasks, height, root);
    PreorderDistinct(RowsOf(tasks), height, root.id);
    forall id {
      PreorderHoldsDescendants(RowsOf(tasks), height, root.id, id);
    }
  }

  /** A list that holds only the root's descendants is permuted into the tree, none lost or repeated. */
  lemma TreePermutesList(tasks: seq<Task>, height: int -> nat, root: Task)
    requires DistinctIds(RowsOf(tasks)) && Acyclic(RowsOf(tasks), height) && LinkedUpTo(tasks, |tasks|) && root in tasks
    requires forall t :: t in tasks ==> Descends(RowsOf(tasks), root.id, t.id)
    ensures Rooted(Nodes(tasks), height)
    ensures multiset(Flatten(Nodes(tasks), height, root)) == multiset(Ids(tasks))
  {
    TreeHoldsDescendantsOnce(tasks, height, root);
    var walk := Flatten(Nodes(tasks), height, root);
    forall id | id in walk
      ensures id in Ids(tasks)
    {
      DescendantIsListed(tasks, root, id);
    }
    forall id | id in Ids(tasks)
      ensures id in walk
    {
      var i :| 0 <= i < |tasks| && Ids(tasks)[i] == id;
      assert tasks[i] in tasks;
    }
    assert forall i :: 0 <= i < |tasks| ==> RowsOf(tasks)[i].id == Ids(tasks)[i];
    SameMembersSameMultiset(walk, Ids(tasks));
  }

  lemma DescendantIsListed(tasks: seq<Task>, root: Task, id: int)
    requires root in tasks && Descends(RowsOf(tasks), root.id, id)
    ensures id in Ids(tasks)
  {
    var rows := RowsOf(tasks);
    var path :| Chain(rows, path) && path[0] == root.id && path[|path| - 1] == id;
    if |path| == 1 {
      var i :| 0 <= i < |tasks| && tasks[i] == root;
      assert Ids(tasks)[i] == id;
    } else {
      assert IsChild(rows, path[|path| - 2], path[|path| - 1]);
      var i :| 0 <= i < |rows| && rows[i].id == id;
      assert Ids(tasks)[i] == id;
    }
  }
}
