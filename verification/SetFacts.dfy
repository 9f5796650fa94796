/** Picking members of a set: what a loop over a map's keys or a set of objects needs. */
module SetFacts {

  lemma EmptyOrMember<T>(s: set<T>)
    ensures s == {} || exists x :: x in s
  {
  }

  method Pick<T>(s: set<T>) returns (x: T)
    requires s != {}
    ensures x in s
  {
    EmptyOrMember(s);
    x :| x in s;
  }
}
