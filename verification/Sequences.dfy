/** Facts about sequences that the solver is better told than left to find. */
module Sequences {

  ghost predicate Distinct<T>(s: seq<T>) {
    forall i, j :: 0 <= i < j < |s| ==> s[i] != s[j]
  }

  lemma {:induction false} Associative<T>(a: seq<T>, b: seq<T>, c: seq<T>)
    ensures a + b + c == a + (b + c)
  {
  }

  lemma {:induction false} SameFront<T>(front: seq<T>, a: seq<T>, b: seq<T>)
    ensures front + a == front + b <==> a == b
  {
    assert (front + a)[|front|..] == a && (front + b)[|front|..] == b;
  }
}
