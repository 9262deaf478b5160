/** Comparison sorting, standing for the slices' `sort_unstable_by`. */
module Sorting {

  ghost predicate TotalOrder<T(!new)>(leq: (T, T) -> bool) {
    && (forall x, y :: leq(x, y) || leq(y, x))
    && (forall x, y, z :: leq(x, y) && leq(y, z) ==> leq(x, z))
  }

  ghost predicate Sorted<T>(s: seq<T>, leq: (T, T) -> bool) {
    forall i, j :: 0 <= i < j < |s| ==> leq(s[i], s[j])
  }

  ghost predicate Permutation<T>(a: seq<T>, b: seq<T>) {
    multiset(a) == multiset(b)
  }

  /** Sorts by insertion.  The loader only relies on the result being a sorted permutation. */
  method Sort<T(!new)>(s: seq<T>, leq: (T, T) -> bool) returns (r: seq<T>)
    requires TotalOrder(leq)
    ensures Sorted(r, leq) && Permutation(r, s) && |r| == |s|
  {
    r := [];
    for n := 0 to |s|
      invariant |r| == n && Sorted(r, leq) && Permutation(r, s[..n])
    {
      r := Insert(r, s[n], leq);
      assert s[..n + 1] == s[..n] + [s[n]];
    }
    assert s[..|s|] == s;
  }

  method Insert<T(!new)>(s: seq<T>, x: T, leq: (T, T) -> bool) returns (r: seq<T>)
    requires TotalOrder(leq) && Sorted(s, leq)
    ensures |r| == |s| + 1 && Sorted(r, leq) && Permutation(r, s + [x])
  {
    var k := |s|;
    while k > 0 && !leq(s[k - 1], x)
      invariant 0 <= k <= |s|
      invariant forall i :: k <= i < |s| ==> leq(x, s[i])
    {
      k := k - 1;
    }
    r := s[..k] + [x] + s[k..];
    InsertPermutes(s, k, x);
    InsertSorted(s, k, x, leq);
  }

  lemma InsertPermutes<T>(s: seq<T>, k: nat, x: T)
    requires k <= |s|
    ensures Permutation(s[..k] + [x] + s[k..], s + [x])
  {
    assert s == s[..k] + s[k..];
  }

  lemma InsertSorted<T(!new)>(s: seq<T>, k: nat, x: T, leq: (T, T) -> bool)
    requires TotalOrder(leq) && Sorted(s, leq) && k <= |s|
    requires k > 0 ==> leq(s[k - 1], x)
    requires forall i :: k <= i < |s| ==> leq(x, s[i])
    ensures Sorted(s[..k] + [x] + s[k..], leq)
  {
    forall i | 0 <= i < k ensures leq(s[i], x) {
      if i < k - 1 { assert leq(s[i], s[k - 1]); }
    }
  }

  lemma {:induction false} PermutationMember<T>(a: seq<T>, b: seq<T>, x: T)
    requires Permutation(a, b)
    ensures x in a <==> x in b
  {
    assert x in a <==> x in multiset(a);
    assert x in b <==> x in multiset(b);
  }

  /** Two sorted permutations of each other coincide when the order identifies no two members. */
  lemma {:induction false} SortedUnique<T(!new)>(a: seq<T>, b: seq<T>, leq: (T, T) -> bool)
    requires TotalOrder(leq) && Sorted(a, leq) && Sorted(b, leq) && Permutation(a, b)
    requires forall x, y :: x in a && y in a && leq(x, y) && leq(y, x) ==> x == y
    ensures a == b
  {
    assert |a| == |multiset(a)| && |b| == |multiset(b)|;
    if a != [] {
      LeastFirst(a, b, leq);
      LeastFirst(b, a, leq);
      PermutationMember(a, b, b[0]);
      RestPermutes(a, b);
      SortedUnique(a[1..], b[1..], leq);
      assert a == [a[0]] + a[1..] && b == [b[0]] + b[1..];
    }
  }

  /** The first of a sorted arrangement is below everything in any other. */
  lemma LeastFirst<T(!new)>(a: seq<T>, b: seq<T>, leq: (T, T) -> bool)
    requires TotalOrder(leq) && Sorted(a, leq) && Permutation(a, b) && a != [] && b != []
    ensures leq(a[0], b[0])
  {
    PermutationMember(a, b, b[0]);
    var i :| 0 <= i < |a| && a[i] == b[0];
    assert leq(a[0], a[0]);
  }

  lemma RestPermutes<T>(a: seq<T>, b: seq<T>)
    requires Permutation(a, b) && a != [] && b != [] && a[0] == b[0]
    ensures Permutation(a[1..], b[1..])
  {
    assert a == [a[0]] + a[1..] && b == [b[0]] + b[1..];
    assert multiset(a[1..]) == multiset(a) - multiset{a[0]};
    assert multiset(b[1..]) == multiset(b) - multiset{b[0]};
  }
}
