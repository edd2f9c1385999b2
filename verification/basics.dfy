/** Optional values, sequences without repetition, finite sets. */
module Basics {
  datatype Option<T> = None | Some(value: T)

  predicate NoDup(s: seq<nat>) { forall i, j :: 0 <= i < j < |s| ==> s[i] != s[j] }

  ghost predicate Apart(s: seq<nat>, t: seq<nat>) {
    forall i :: 0 <= i < |s| ==> s[i] !in t
  }

  lemma {:induction false} NothingApart(s: seq<nat>, t: seq<nat>)
    ensures Apart([], t) && Apart(s, [])
  {
  }

  lemma {:induction false} SubsetSize<T>(a: set<T>, b: set<T>)
    requires a <= b
    ensures |a| <= |b|
  {
    assert b == a + (b - a);
  }
}
