/** Address ranges and the equal-size regions they touch.

A four-level hierarchy needs one table for every region of a given coverage that some mapped
address falls in.  `RangeRegions` and `TouchedRegions` say this with sets, address by address; the
counting code of the planner is proved against the cardinality of those sets.
*/
module Regions {
  import opened Outcome
  import opened Words

  /** Half-open address range `[start, start + len)`. */
  datatype Extent = Extent(start: nat, len: nat) {
    function End(): nat { start + len }
    ghost predicate Holds(a: int) { start <= a < End() }
  }

  /** Nonempty ranges that do not wrap, in address order and pairwise disjoint. */
  ghost predicate SortedDisjoint(es: seq<Extent>) {
    && (forall i :: 0 <= i < |es| ==> es[i].len > 0 && es[i].End() < TWO64)
    && (forall i, j :: 0 <= i < j < |es| ==> es[i].End() <= es[j].start)
  }

  /** The integers from `lo` to `hi`. */
  ghost function Span(lo: int, hi: int): set<int> {
    set x {:trigger Within(lo, x, hi)} | lo <= x <= hi && Within(lo, x, hi)
  }

  ghost predicate Within(lo: int, x: int, hi: int) { lo <= x <= hi }

  ghost function RangeRegions(e: Extent, coverage: nat): set<int>
    requires coverage > 0
  {
    set a | e.start <= a < e.start + e.len :: a / coverage
  }

  ghost function TouchedRegions(es: seq<Extent>, coverage: nat): set<int>
    requires coverage > 0
  {
    if es == [] then {}
    else TouchedRegions(es[..|es| - 1], coverage) + RangeRegions(es[|es| - 1], coverage)
  }

  function FirstRegion(e: Extent, coverage: nat): nat
    requires coverage > 0
  {
    e.start / coverage
  }

  function LastRegion(e: Extent, coverage: nat): nat
    requires coverage > 0 && e.len > 0
  {
    (e.End() - 1) / coverage
  }

  lemma {:induction false} SpanSize(lo: int, hi: int)
    requires lo <= hi + 1
    ensures |Span(lo, hi)| == hi - lo + 1
    decreases hi - lo + 1
  {
    if lo <= hi {
      SpanSize(lo, hi - 1);
      SpanSnoc(lo, hi);
    } else {
      assert Span(lo, hi) == {};
    }
  }

  lemma SpanSnoc(lo: int, hi: int)
    requires lo <= hi
    ensures Span(lo, hi) == Span(lo, hi - 1) + {hi} && hi !in Span(lo, hi - 1)
  {
  }

  lemma SpanCons(lo: int, hi: int)
    requires lo <= hi
    ensures Span(lo, hi) == {lo} + Span(lo + 1, hi)
  {
  }

  lemma DisjointSize(a: set<int>, bound: int, lo: int, hi: int)
    requires bound < lo <= hi + 1 && forall x :: x in a ==> x <= bound
    ensures |a + Span(lo, hi)| == |a| + hi - lo + 1
  {
    SpanSize(lo, hi);
    assert a !! Span(lo, hi);
  }

  lemma Absorb(a: set<int>, x: int, b: set<int>)
    requires x in a
    ensures a + ({x} + b) == a + b
  {
  }

  /** Some member of a nonempty set. */
  lemma Member<T>(s: set<T>) returns (x: T)
    requires s != {}
    ensures x in s
  {
    x :| x in s;
  }

  lemma {:induction false} SubsetSize<T>(a: set<T>, b: set<T>)
    requires a <= b
    ensures |a| <= |b|
    ensures |a| == |b| ==> a == b
  {
    assert b == a + (b - a);
    assert |b| == |a| + |b - a|;
  }

  lemma MulOrder(d: int, x: int, y: int)
    requires d > 0 && x <= y
    ensures d * x <= d * y
  {
  }

  lemma DivBounds(a: nat, d: nat)
    requires d > 0
    ensures d * (a / d) <= a < d * (a / d) + d
  {
    assert a == d * (a / d) + a % d;
  }

  lemma DivMonotone(a: nat, b: nat, d: nat)
    requires d > 0 && a <= b
    ensures a / d <= b / d
  {
    var qa, qb := a / d, b / d;
    DivBounds(a, d);
    DivBounds(b, d);
    if qb + 1 <= qa {
      MulOrder(d, qb + 1, qa);
    }
  }

  lemma DivOfMultiple(r: nat, d: nat)
    requires d > 0
    ensures r * d / d == r
  {
    DivModUnique(r * d, d, r, 0);
  }

  lemma {:induction false} RangeRegionsIsSpan(e: Extent, coverage: nat)
    requires coverage > 0 && e.len > 0
    ensures RangeRegions(e, coverage) == Span(FirstRegion(e, coverage), LastRegion(e, coverage))
    ensures FirstRegion(e, coverage) <= LastRegion(e, coverage)
  {
    var lo, hi := FirstRegion(e, coverage), LastRegion(e, coverage);
    DivMonotone(e.start, e.End() - 1, coverage);
    forall r | r in RangeRegions(e, coverage) ensures r in Span(lo, hi) {
      var a :| e.start <= a < e.start + e.len && r == a / coverage;
      DivMonotone(e.start, a, coverage);
      DivMonotone(a, e.End() - 1, coverage);
    }
    forall r | r in Span(lo, hi) ensures r in RangeRegions(e, coverage) {
      if r == lo {
        assert e.start / coverage == r;
      } else {
        RegionStart(e, coverage, r);
        assert r * coverage / coverage == r;
      }
    }
  }

  lemma RegionStart(e: Extent, coverage: nat, r: int)
    requires coverage > 0 && e.len > 0
    requires FirstRegion(e, coverage) < r <= LastRegion(e, coverage)
    ensures e.start <= r * coverage < e.End()
    ensures r * coverage / coverage == r
  {
    var lo, hi := FirstRegion(e, coverage), LastRegion(e, coverage);
    DivBounds(e.start, coverage);
    DivBounds(e.End() - 1, coverage);
    MulOrder(coverage, lo + 1, r);
    MulOrder(coverage, r, hi);
    DivOfMultiple(r, coverage);
  }

  lemma DivShrinks(a: nat, d: nat)
    requires d > 0
    ensures 0 <= a / d <= a
  {
    DivMonotone(a, a * d, d) by { MulOrder(a + 1, 1, d); }
    DivOfMultiple(a, d);
  }

  lemma DivByMore(a: nat, d: nat, e: nat)
    requires 0 < d <= e
    ensures a / e <= a / d
  {
    var q := a / e;
    DivBounds(a, e);
    assert d * q <= e * q by { MulOrder(q + 1, d, e); }
    DivMonotone(q * d, a, d);
    DivOfMultiple(q, d);
  }

  /** A run of consecutive regions, `lo` to `hi`. */
  datatype Run = Run(lo: nat, hi: nat)

  /** Runs in order; two neighbours may share at most one region. */
  ghost predicate Chain(rs: seq<Run>) {
    && (forall i :: 0 <= i < |rs| ==> rs[i].lo <= rs[i].hi)
    && (forall i, j :: 0 <= i < j < |rs| ==> rs[i].hi <= rs[j].lo)
  }

  ghost function Union(rs: seq<Run>): set<int> {
    if rs == [] then {} else Union(rs[..|rs| - 1]) + Span(rs[|rs| - 1].lo, rs[|rs| - 1].hi)
  }

  function RunOf(e: Extent, coverage: nat): Run
    requires coverage > 0 && e.len > 0
  {
    Run(FirstRegion(e, coverage), LastRegion(e, coverage))
  }

  function Runs(es: seq<Extent>, coverage: nat): seq<Run>
    requires coverage > 0 && SortedDisjoint(es)
  {
    seq(|es|, i requires 0 <= i < |es| => RunOf(es[i], coverage))
  }

  lemma RunsChain(es: seq<Extent>, coverage: nat)
    requires coverage > 0 && SortedDisjoint(es)
    ensures Chain(Runs(es, coverage))
    ensures forall i :: 0 <= i < |es| ==> Runs(es, coverage)[i].hi <= (TWO64 - 2) / coverage
  {
    var rs := Runs(es, coverage);
    forall i | 0 <= i < |es| ensures rs[i].lo <= rs[i].hi <= (TWO64 - 2) / coverage {
      RangeRegionsIsSpan(es[i], coverage);
      DivMonotone(es[i].End() - 1, TWO64 - 2, coverage);
    }
    forall i, j | 0 <= i < j < |es| ensures rs[i].hi <= rs[j].lo {
      DivMonotone(es[i].End() - 1, es[j].start, coverage);
    }
  }

  lemma {:induction false} TouchedIsUnion(es: seq<Extent>, coverage: nat)
    requires coverage > 0 && SortedDisjoint(es)
    ensures TouchedRegions(es, coverage) == Union(Runs(es, coverage))
  {
    if es != [] {
      var n := |es| - 1;
      TouchedIsUnion(es[..n], coverage);
      assert Runs(es, coverage)[..n] == Runs(es[..n], coverage);
      RangeRegionsIsSpan(es[n], coverage);
    }
  }

  lemma {:induction false} UnionMember(rs: seq<Run>, x: int)
    ensures x in Union(rs) <==> exists i :: 0 <= i < |rs| && rs[i].lo <= x <= rs[i].hi
  {
    if rs != [] {
      var n := |rs| - 1;
      UnionMember(rs[..n], x);
      assert forall i :: 0 <= i < n ==> rs[..n][i] == rs[i];
    }
  }

  lemma {:induction false} UnionBounds(rs: seq<Run>)
    requires Chain(rs) && rs != []
    ensures rs[|rs| - 1].hi in Union(rs)
    ensures forall x :: x in Union(rs) ==> 0 <= x <= rs[|rs| - 1].hi
  {
    var n := |rs| - 1;
    if n > 0 {
      UnionBounds(rs[..n]);
    }
  }

  lemma UnionSnoc(rs: seq<Run>, k: nat)
    requires k < |rs|
    ensures Union(rs[..k + 1]) == Union(rs[..k]) + Span(rs[k].lo, rs[k].hi)
  {
    assert rs[..k + 1][..k] == rs[..k] && rs[..k + 1][k] == rs[k];
  }

  /** Adding a span that begins at or after the greatest member. */
  lemma GrowSize(before: set<int>, touches: bool, bound: int, first: int, last: int)
    requires first <= last && forall x :: x in before ==> x <= bound
    requires if touches then bound == first && first in before else bound < first
    ensures |before + Span(first, last)| == |before| + last - first + 1 - Bit(touches)
  {
    if touches {
      SpanCons(first, last);
      Absorb(before, first, Span(first + 1, last));
      DisjointSize(before, bound, first + 1, last);
    } else {
      DisjointSize(before, bound, first, last);
    }
  }

  /** Appending one later run adds its length, less a first region already counted. */
  lemma UnionStep(rs: seq<Run>, k: nat)
    requires Chain(rs) && k < |rs|
    ensures Union(rs[..k + 1]) == Union(rs[..k]) + Span(rs[k].lo, rs[k].hi)
    ensures |Union(rs[..k + 1])| == |Union(rs[..k])| + rs[k].hi - rs[k].lo + 1
                                    - Bit(k > 0 && rs[k - 1].hi == rs[k].lo)
  {
    UnionSnoc(rs, k);
    if k == 0 {
      GrowSize(Union(rs[..k]), false, rs[k].lo - 1, rs[k].lo, rs[k].hi);
    } else {
      UnionBounds(rs[..k]);
      GrowSize(Union(rs[..k]), rs[k - 1].hi == rs[k].lo, rs[k - 1].hi, rs[k].lo, rs[k].hi);
    }
  }

  lemma RegionCountFits(s: set<int>, bound: nat)
    requires forall x :: x in s ==> 0 <= x <= bound
    ensures |s| <= bound + 1
  {
    SpanSize(0, bound);
    SubsetSize(s, Span(0, bound));
  }

  lemma {:induction false} TouchedMember(es: seq<Extent>, coverage: nat, r: int)
    requires coverage > 0
    ensures r in TouchedRegions(es, coverage) <==> exists i :: 0 <= i < |es| && r in RangeRegions(es[i], coverage)
  {
    if es != [] {
      var n := |es| - 1;
      TouchedMember(es[..n], coverage, r);
      if r in TouchedRegions(es[..n], coverage) {
        var i :| 0 <= i < n && r in RangeRegions(es[..n][i], coverage);
        assert r in RangeRegions(es[i], coverage);
      }
      if i :| 0 <= i < |es| && r in RangeRegions(es[i], coverage) {
        if i < n { assert r in RangeRegions(es[..n][i], coverage); }
      }
    }
  }
}
