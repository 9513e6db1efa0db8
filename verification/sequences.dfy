/** Order-preserving selections. */
module Sequences {

  /** `a` is `b` with some elements left out. */
  predicate Subsequence<T(==)>(a: seq<T>, b: seq<T>)
    decreases |b|
  {
    if a == [] then true
    else if b == [] then false
    else if a[|a| - 1] == b[|b| - 1] && Subsequence(a[..|a| - 1], b[..|b| - 1]) then true
    else Subsequence(a, b[..|b| - 1])
  }

  /** The elements of `a` stand at these places of `b`, in order. */
  predicate Places<T(==)>(at: seq<nat>, a: seq<T>, b: seq<T>) {
    && |at| == |a|
    && (forall i | 0 <= i < |at| :: at[i] < |b| && a[i] == b[at[i]])
    && (forall i, j | 0 <= i < j < |at| :: at[i] < at[j])
  }

  lemma {:induction false} FindPlaces<T>(a: seq<T>, b: seq<T>) returns (at: seq<nat>)
    requires Subsequence(a, b)
    ensures Places(at, a, b)
    decreases |b|
  {
    if a == [] {
      at := [];
    } else if a[|a| - 1] == b[|b| - 1] && Subsequence(a[..|a| - 1], b[..|b| - 1]) {
      at := FindPlaces(a[..|a| - 1], b[..|b| - 1]);
      at := at + [|b| - 1];
    } else {
      at := FindPlaces(a, b[..|b| - 1]);
    }
  }

  lemma {:induction false} PlacesSuffice<T>(at: seq<nat>, a: seq<T>, b: seq<T>)
    requires Places(at, a, b)
    ensures Subsequence(a, b)
    decreases |b|
  {
    if a != [] {
      var n := |a| - 1;
      if at[n] == |b| - 1 {
        PlacesSuffice(at[..n], a[..n], b[..|b| - 1]);
      } else {
        PlacesSuffice(at, a, b[..|b| - 1]);
      }
    }
  }

  /** A subsequence has its elements at increasing places, and whatever has is one. */
  lemma SubsequenceExact<T>(a: seq<T>, b: seq<T>)
    ensures Subsequence(a, b) <==> exists at: seq<nat> :: Places(at, a, b)
  {
    if Subsequence(a, b) {
      var at := FindPlaces(a, b);
    }
    if at: seq<nat> :| Places(at, a, b) {
      PlacesSuffice(at, a, b);
    }
  }

  lemma SubsequenceSnoc<T>(a: seq<T>, b: seq<T>, x: T)
    requires Subsequence(a, b)
    ensures Subsequence(a, b + [x]) && Subsequence(a + [x], b + [x])
  {
    assert (b + [x])[..|b|] == b && (a + [x])[..|a|] == a;
  }
}
