/** In-order subsequences, built up at the end. */
module Subsequences {

  ghost predicate Subsequence<T(!new)>(a: seq<T>, b: seq<T>) {
    a == [] ||
    (b != [] &&
     (Subsequence(a, b[..|b| - 1]) || (a[|a| - 1] == b[|b| - 1] && Subsequence(a[..|a| - 1], b[..|b| - 1]))))
  }

  lemma SkipLast<T(!new)>(a: seq<T>, b: seq<T>, x: T)
    requires Subsequence(a, b)
    ensures Subsequence(a, b + [x])
  {
  }

  lemma TakeLast<T(!new)>(a: seq<T>, b: seq<T>, x: T)
    requires Subsequence(a, b)
    ensures Subsequence(a + [x], b + [x])
  {
  }

  /** A prefix of a subsequence is one too. */
  lemma {:induction false} PrefixOfSubsequence<T(!new)>(p: seq<T>, a: seq<T>, b: seq<T>)
    requires p <= a && Subsequence(a, b)
    ensures Subsequence(p, b)
    decreases |b|
  {
    if p != [] && a != [] {
      var b' := b[..|b| - 1];
      if Subsequence(a, b') {
        PrefixOfSubsequence(p, a, b');
      } else if p == a {
      } else {
        PrefixOfSubsequence(p, a[..|a| - 1], b');
      }
    }
  }

  /** What a subsequence means: each of its elements is found in b at increasing positions. */
  ghost predicate Positions<T(!new)>(a: seq<T>, b: seq<T>, at: seq<nat>) {
    && |at| == |a|
    && (forall i :: 0 <= i < |a| ==> at[i] < |b| && b[at[i]] == a[i])
    && (forall i, j :: 0 <= i < j < |a| ==> at[i] < at[j])
  }

  lemma {:induction false} SubsequenceHasPositions<T(!new)>(a: seq<T>, b: seq<T>)
    requires Subsequence(a, b)
    ensures exists at: seq<nat> :: Positions(a, b, at)
    decreases |b|
  {
    if a == [] {
      assert Positions(a, b, []);
    } else {
      var b' := b[..|b| - 1];
      if Subsequence(a, b') {
        SubsequenceHasPositions(a, b');
        var at: seq<nat> :| Positions(a, b', at);
        assert Positions(a, b, at);
      } else {
        SubsequenceHasPositions(a[..|a| - 1], b');
        var at: seq<nat> :| Positions(a[..|a| - 1], b', at);
        assert Positions(a, b, at + [|b| - 1]);
      }
    }
  }
}
