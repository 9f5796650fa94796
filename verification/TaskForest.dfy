/** Parent links of a flat task list, read as a forest: chains, descendants and the preorder of a subtree. */
module TaskForest {
  import opened ScheduleEntities

  datatype Row = Row(id: int, parentId: Option<int>)

  ghost predicate DistinctIds(rows: seq<Row>) {
    forall i, j :: 0 <= i < j < |rows| ==> rows[i].id != rows[j].id
  }

  /** No task is its own ancestor: some height falls along every link. */
  ghost predicate Acyclic(rows: seq<Row>, height: int -> nat) {
    forall i :: 0 <= i < |rows| && rows[i].parentId.Some? ==> height(rows[i].id) < height(rows[i].parentId.value)
  }

  /** Ids of the listed children, in list order. */
  function ChildIds(rows: seq<Row>, parent: int): (r: seq<int>)
    ensures forall c :: c in r <==> IsChild(rows, parent, c)
  {
    if rows == [] then []
    else
      var last := rows[|rows| - 1];
      assert forall c :: IsChild(rows, parent, c) <==>
                           IsChild(rows[..|rows| - 1], parent, c) || (c == last.id && last.parentId == Some(parent));
      ChildIds(rows[..|rows| - 1], parent) + (if last.parentId == Some(parent) then [last.id] else [])
  }

  predicate IsChild(rows: seq<Row>, parent: int, child: int) {
    exists i :: 0 <= i < |rows| && rows[i].id == child && rows[i].parentId == Some(parent)
  }

  /** Each id on the path is a listed child of the one before. */
  ghost predicate Chain(rows: seq<Row>, path: seq<int>) {
    path != [] && forall i :: 0 < i < |path| ==> IsChild(rows, path[i - 1], path[i])
  }

  ghost predicate Descends(rows: seq<Row>, root: int, id: int) {
    exists path :: Chain(rows, path) && path[0] == root && path[|path| - 1] == id
  }

  /** A subtree's ids, each parent before its children. */
  ghost function Preorder(rows: seq<Row>, height: int -> nat, root: int): seq<int>
    requires Acyclic(rows, height)
    decreases height(root), 1, 0
  {
    [root] + PreorderAll(rows, height, height(root), ChildIds(rows, root))
  }

  ghost function PreorderAll(rows: seq<Row>, height: int -> nat, bound: nat, roots: seq<int>): seq<int>
    requires Acyclic(rows, height) && forall r :: r in roots ==> height(r) < bound
    decreases bound, 0, |roots|
  {
    if roots == [] then [] else Preorder(rows, height, roots[0]) + PreorderAll(rows, height, bound, roots[1..])
  }

  // ---------------------------------------------------------------- chains

  lemma ChildIsLower(rows: seq<Row>, height: int -> nat, parent: int, child: int)
    requires Acyclic(rows, height) && IsChild(rows, parent, child)
    ensures height(child) < height(parent)
  {
  }

  lemma ParentUnique(rows: seq<Row>, p: int, q: int, c: int)
    requires DistinctIds(rows) && IsChild(rows, p, c) && IsChild(rows, q, c)
    ensures p == q
  {
  }

  /** Of two chains with the same end, the shorter is the tail of the longer. */
  lemma {:induction false} SharedTail(rows: seq<Row>, p: seq<int>, q: seq<int>, back: nat)
    requires DistinctIds(rows) && Chain(rows, p) && Chain(rows, q) && p[|p| - 1] == q[|q| - 1]
    requires back < |p| && back < |q|
    ensures p[|p| - 1 - back] == q[|q| - 1 - back]
  {
    if back > 0 {
      SharedTail(rows, p, q, back - 1);
      ParentUnique(rows, p[|p| - 1 - back], q[|q| - 1 - back], p[|p| - back]);
    }
  }

  lemma {:induction false} ChainDescends(rows: seq<Row>, height: int -> nat, path: seq<int>, k: nat)
    requires Acyclic(rows, height) && Chain(rows, path) && k < |path|
    ensures height(path[k]) <= height(path[0])
  {
    if k > 0 {
      ChainDescends(rows, height, path, k - 1);
      ChildIsLower(rows, height, path[k - 1], path[k]);
    }
  }

  /** Two chains from different children of one task never meet: the longer would pass through their parent. */
  lemma SiblingChainsApart(rows: seq<Row>, height: int -> nat, parent: int, p: seq<int>, q: seq<int>)
    requires DistinctIds(rows) && Acyclic(rows, height) && Chain(rows, p) && Chain(rows, q) && |p| <= |q|
    requires IsChild(rows, parent, p[0]) && IsChild(rows, parent, q[0]) && p[0] != q[0]
    ensures p[|p| - 1] != q[|q| - 1]
  {
    if p[|p| - 1] == q[|q| - 1] {
      SharedTail(rows, p, q, |p| - 1);
      var k := |q| - |p|;
      assert q[k] == p[0] && k > 0;
      ParentUnique(rows, parent, q[k - 1], p[0]);
      ChainDescends(rows, height, q, k - 1);
      ChildIsLower(rows, height, parent, q[0]);
      assert false;
    }
  }

  lemma SiblingSubtreesApart(rows: seq<Row>, height: int -> nat, parent: int, a: int, b: int, x: int)
    requires DistinctIds(rows) && Acyclic(rows, height)
    requires IsChild(rows, parent, a) && IsChild(rows, parent, b) && a != b && Descends(rows, a, x)
    ensures !Descends(rows, b, x)
  {
    if Descends(rows, b, x) {
      var p :| Chain(rows, p) && p[0] == a && p[|p| - 1] == x;
      var q :| Chain(rows, q) && q[0] == b && q[|q| - 1] == x;
      if |p| <= |q| {
        SiblingChainsApart(rows, height, parent, p, q);
      } else {
        SiblingChainsApart(rows, height, parent, q, p);
      }
      assert false;
    }
  }

  /** A descendant is the task itself or a descendant of one of its children. */
  lemma DescendsByStep(rows: seq<Row>, root: int, x: int)
    ensures Descends(rows, root, x) <==> x == root || exists c :: IsChild(rows, root, c) && Descends(rows, c, x)
  {
    if Descends(rows, root, x) && x != root {
      var path :| Chain(rows, path) && path[0] == root && path[|path| - 1] == x;
      var tail := path[1..];
      assert forall i :: 0 < i < |tail| ==> tail[i - 1] == path[i] && tail[i] == path[i + 1];
      assert Chain(rows, tail) && tail[0] == path[1];
      assert IsChild(rows, path[0], path[1]);
      assert Descends(rows, path[1], x);
    }
    if x == root {
      assert Chain(rows, [root]);
    } else if exists c :: IsChild(rows, root, c) && Descends(rows, c, x) {
      var c :| IsChild(rows, root, c) && Descends(rows, c, x);
      var tail :| Chain(rows, tail) && tail[0] == c && tail[|tail| - 1] == x;
      var path := [root] + tail;
      forall i | 0 < i < |path|
        ensures IsChild(rows, path[i - 1], path[i])
      {
        assert path[i] == tail[i - 1];
      }
      assert Chain(rows, path);
    }
  }

  // ---------------------------------------------------------------- the preorder

  lemma {:induction false} PreorderHoldsDescendants(rows: seq<Row>, height: int -> nat, root: int, x: int)
    requires Acyclic(rows, height)
    ensures x in Preorder(rows, height, root) <==> Descends(rows, root, x)
    decreases height(root), 1, 0
  {
    PreorderAllHoldsDescendants(rows, height, height(root), ChildIds(rows, root), x);
    DescendsByStep(rows, root, x);
  }

  lemma {:induction false} PreorderAllHoldsDescendants(rows: seq<Row>, height: int -> nat, bound: nat, roots: seq<int>,
                                                       x: int)
    requires Acyclic(rows, height) && forall r :: r in roots ==> height(r) < bound
    ensures x in PreorderAll(rows, height, bound, roots) <==> exists r :: r in roots && Descends(rows, r, x)
    decreases bound, 0, |roots|
  {
    if roots != [] {
      PreorderHoldsDescendants(rows, height, roots[0], x);
      PreorderAllHoldsDescendants(rows, height, bound, roots[1..], x);
      assert forall r :: r in roots <==> r == roots[0] || r in roots[1..];
    }
  }

  ghost predicate NoDuplicates(s: seq<int>) {
    forall i, j :: 0 <= i < j < |s| ==> s[i] != s[j]
  }

  lemma ApartNoDuplicates(a: seq<int>, b: seq<int>)
    requires NoDuplicates(a) && NoDuplicates(b) && forall x :: x in a ==> x !in b
    ensures NoDuplicates(a + b)
  {
    forall i, j | 0 <= i < j < |a + b|
      ensures (a + b)[i] != (a + b)[j]
    {
      assert i < |a| <= j ==> (a + b)[i] in a && (a + b)[j] in b;
    }
  }

  lemma {:induction false} ChildIdsDistinct(rows: seq<Row>, parent: int)
    requires DistinctIds(rows)
    ensures NoDuplicates(ChildIds(rows, parent))
  {
    if rows != [] {
      var rest := rows[..|rows| - 1];
      ChildIdsDistinct(rest, parent);
      assert forall c :: IsChild(rest, parent, c) ==> c != rows[|rows| - 1].id;
      assert forall c :: c in ChildIds(rest, parent) ==> IsChild(rest, parent, c);
      ApartNoDuplicates(ChildIds(rest, parent), [rows[|rows| - 1].id]);
    }
  }

  lemma {:induction false} PreorderDistinct(rows: seq<Row>, height: int -> nat, root: int)
    requires DistinctIds(rows) && Acyclic(rows, height)
    ensures NoDuplicates(Preorder(rows, height, root))
    decreases height(root), 1, 0
  {
    var kids := ChildIds(rows, root);
    ChildIdsDistinct(rows, root);
    forall c | c in kids
      ensures height(c) < height(root)
    {
      ChildIsLower(rows, height, root, c);
    }
    PreorderAllDistinct(rows, height, root, kids);
    forall x | x in PreorderAll(rows, height, height(root), kids)
      ensures x != root
    {
      PreorderAllHoldsDescendants(rows, height, height(root), kids, x);
      var c :| c in kids && Descends(rows, c, x);
      var path :| Chain(rows, path) && path[0] == c && path[|path| - 1] == x;
      ChainDescends(rows, height, path, |path| - 1);
    }
    ApartNoDuplicates([root], PreorderAll(rows, height, height(root), kids));
  }

  lemma {:induction false} PreorderAllDistinct(rows: seq<Row>, height: int -> nat, parent: int, roots: seq<int>)
    requires DistinctIds(rows) && Acyclic(rows, height) && NoDuplicates(roots)
    requires forall r :: r in roots ==> IsChild(rows, parent, r) && height(r) < height(parent)
    ensures NoDuplicates(PreorderAll(rows, height, height(parent), roots))
    decreases height(parent), 0, |roots|
  {
    if roots != [] {
      var first, rest := Preorder(rows, height, roots[0]), PreorderAll(rows, height, height(parent), roots[1..]);
      PreorderDistinct(rows, height, roots[0]);
      PreorderAllDistinct(rows, height, parent, roots[1..]);
      forall x | x in first
        ensures x !in rest
      {
        PreorderHoldsDescendants(rows, height, roots[0], x);
        PreorderAllHoldsDescendants(rows, height, height(parent), roots[1..], x);
        forall r | r in roots[1..]
          ensures !Descends(rows, r, x)
        {
          SiblingSubtreesApart(rows, height, parent, roots[0], r, x);
        }
      }
      ApartNoDuplicates(first, rest);
    }
  }

  lemma SameMembersSameMultiset(a: seq<int>, b: seq<int>)
    requires NoDuplicates(a) && NoDuplicates(b) && forall x :: x in a <==> x in b
    ensures multiset(a) == multiset(b)
  {
    forall x
      ensures multiset(a)[x] == multiset(b)[x]
    {
      CountOfDistinct(a, x);
      CountOfDistinct(b, x);
    }
  }

  lemma {:induction false} CountOfDistinct(s: seq<int>, x: int)
    requires NoDuplicates(s)
    ensures multiset(s)[x] == if x in s then 1 else 0
  {
    if s != [] {
      var n := |s| - 1;
      CountOfDistinct(s[..n], x);
      assert s == s[..n] + [s[n]];
    }
  }
}
