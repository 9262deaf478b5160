/** The planner's region counters (`distinct_regions` and `distinct_regions_with_additions`). */
module RegionCount {
  import opened Outcome
  import opened Words
  import opened Regions

  /** Result of a checked u64 computation; `Overflow` is `PageTableCountOverflow`. */
  datatype Counted = Counted(count: nat) | Overflow

  /** Regions touched by the mappings, by the optional table-identity range and by the temporary address. */
  ghost function AllRegions(es: seq<Extent>, identity: Option<Extent>, temporary: nat, coverage: nat): set<int>
    requires coverage > 0
  {
    TouchedRegions(es, coverage)
    + (if identity.Some? then RangeRegions(identity.value, coverage) else {})
    + {temporary / coverage}
  }

  ghost predicate IdentityFits(identity: Option<Extent>) {
    identity.Some? ==> identity.value.len > 0 && identity.value.End() < TWO64
  }

  /** `distinct_regions`. */
  method DistinctRegions(es: seq<Extent>, coverage: Word) returns (r: Counted)
    requires coverage > 0 && SortedDisjoint(es)
    ensures r == Counted(|TouchedRegions(es, coverage)|) && r.count < TWO64
  {
    RunsChain(es, coverage);
    TouchedIsUnion(es, coverage);
    TouchedBound(es, coverage);
    DivShrinks(TWO64 - 2, coverage);
    r := CountChain(Runs(es, coverage), (TWO64 - 2) / coverage);
  }

  lemma ChainTurn(rs: seq<Run>, k: nat, bound: nat)
    requires Chain(rs) && k < |rs| && bound < TWO64 - 1 && rs[k].hi <= bound
    ensures |Union(rs[..k + 1])| == |Union(rs[..k])| + rs[k].hi - rs[k].lo + 1 - Bit(k > 0 && rs[k - 1].hi == rs[k].lo)
    ensures |Union(rs[..k + 1])| < TWO64
  {
    UnionStep(rs, k);
    UnionBounds(rs[..k + 1]);
    RegionCountFits(Union(rs[..k + 1]), bound);
  }

  /** One pass that remembers the last region of the previous mapping. */
  method CountChain(rs: seq<Run>, ghost bound: nat) returns (r: Counted)
    requires Chain(rs) && bound < TWO64 - 1 && forall k :: 0 <= k < |rs| ==> rs[k].hi <= bound
    ensures r == Counted(|Union(rs)|) && r.count < TWO64
  {
    var count := 0;
    var previousLast: Option<nat> := None;
    var k := 0;
    while k < |rs|
      invariant 0 <= k <= |rs|
      invariant count == |Union(rs[..k])| < TWO64
      invariant previousLast == if k == 0 then None else Some(rs[k - 1].hi)
    {
      var first, last := rs[k].lo, rs[k].hi;
      var added := last - first + 1;
      if previousLast == Some(first) {
        added := added - 1;
      }
      ChainTurn(rs, k, bound);
      if count + added >= TWO64 {
        return Overflow;
      }
      count := count + added;
      previousLast := Some(last);
      k := k + 1;
    }
    assert rs[..k] == rs;
    r := Counted(count);
  }

  /** `covered` is the greatest region of `id` among the touched ones, if there is one. */
  ghost predicate CoveredThrough(touched: set<int>, id: Run, covered: Option<nat>) {
    match covered
    case None => forall x :: x in touched ==> !Within(id.lo, x, id.hi)
    case Some(c) => c in touched && Within(id.lo, c, id.hi)
                    && forall x :: x in touched && Within(id.lo, x, id.hi) ==> x <= c
  }

  function Max(a: int, b: int): int { if a >= b then a else b }
  function Min(a: int, b: int): int { if a <= b then a else b }

  /** The segment that one turn of the identity loop subtracts. */
  function Segment(run: Run, id: Run, covered: Option<nat>): (from: int) {
    var lo := Max(run.lo, id.lo);
    if covered.Some? then Max(covered.value + 1, lo) else lo
  }

  /** One turn of the identity loop: the newly covered regions are exactly the counted segment. */
  lemma CoverStep(touched: set<int>, run: Run, id: Run, covered: Option<nat>)
    requires run.lo <= run.hi && forall x :: x in touched ==> x <= run.lo
    requires CoveredThrough(touched, id, covered)
    ensures Span(id.lo, id.hi) - touched ==
            (Span(id.lo, id.hi) - (touched + Span(run.lo, run.hi)))
            + Span(Segment(run, id, covered), Min(run.hi, id.hi))
    ensures Max(run.lo, id.lo) > Min(run.hi, id.hi) ==>
            CoveredThrough(touched + Span(run.lo, run.hi), id, covered)
  {
  }

  lemma CoverAdvance(touched: set<int>, run: Run, id: Run, covered: Option<nat>)
    requires run.lo <= run.hi && Max(run.lo, id.lo) <= Min(run.hi, id.hi)
    requires CoveredThrough(touched, id, covered)
    ensures var hi := Min(run.hi, id.hi);
            CoveredThrough(touched + Span(run.lo, run.hi), id,
                           Some(if covered.Some? then Max(covered.value, hi) else hi))
  {
  }

  lemma CoverCount(touched: set<int>, run: Run, id: Run, covered: Option<nat>)
    requires run.lo <= run.hi && forall x :: x in touched ==> x <= run.lo
    requires CoveredThrough(touched, id, covered)
    ensures var from, hi := Segment(run, id, covered), Min(run.hi, id.hi);
            |Span(id.lo, id.hi) - touched| ==
            |Span(id.lo, id.hi) - (touched + Span(run.lo, run.hi))| + (if from <= hi then hi - from + 1 else 0)
  {
    var from, hi := Segment(run, id, covered), Min(run.hi, id.hi);
    CoverStep(touched, run, id, covered);
    if from <= hi {
      SpanSize(from, hi);
    } else {
      assert Span(from, hi) == {};
    }
    assert (Span(id.lo, id.hi) - (touched + Span(run.lo, run.hi))) !! Span(from, hi);
  }

  lemma CoverTurn(rs: seq<Run>, k: nat, id: Run, covered: Option<nat>)
    requires Chain(rs) && k < |rs| && CoveredThrough(Union(rs[..k]), id, covered)
    ensures var from, hi := Segment(rs[k], id, covered), Min(rs[k].hi, id.hi);
            && |Span(id.lo, id.hi) - Union(rs[..k])| ==
               |Span(id.lo, id.hi) - Union(rs[..k + 1])| + (if from <= hi then hi - from + 1 else 0)
            && CoveredThrough(Union(rs[..k + 1]), id,
                              if Max(rs[k].lo, id.lo) > hi then covered
                              else Some(if covered.Some? then Max(covered.value, hi) else hi))
  {
    UnionStep(rs, k);
    if k > 0 { UnionBounds(rs[..k]); }
    CoverCount(Union(rs[..k]), rs[k], id, covered);
    if Max(rs[k].lo, id.lo) <= Min(rs[k].hi, id.hi) {
      CoverAdvance(Union(rs[..k]), rs[k], id, covered);
    } else {
      CoverStep(Union(rs[..k]), rs[k], id, covered);
    }
  }

  /** The identity loop: how many regions of the identity range no mapping touches. */
  method AdditionalRegions(es: seq<Extent>, range: Extent, coverage: Word) returns (r: Counted)
    requires coverage > 0 && SortedDisjoint(es) && range.len > 0 && range.End() < TWO64
    ensures r == Counted(|RangeRegions(range, coverage) - TouchedRegions(es, coverage)|)
  {
    RunsChain(es, coverage);
    TouchedIsUnion(es, coverage);
    RangeRegionsIsSpan(range, coverage);
    r := CountUncovered(Runs(es, coverage), RunOf(range, coverage));
  }

  /** What one turn of the identity loop subtracts, and the greatest covered region after it. */
  function Taken(run: Run, id: Run, covered: Option<nat>): nat {
    var from, hi := Segment(run, id, covered), Min(run.hi, id.hi);
    if from <= hi then hi - from + 1 else 0
  }

  function NextCovered(run: Run, id: Run, covered: Option<nat>): Option<nat> {
    var hi := Min(run.hi, id.hi);
    if Max(run.lo, id.lo) > hi then covered else Some(if covered.Some? then Max(covered.value, hi) else hi)
  }

  ghost predicate Counting(rs: seq<Run>, id: Run, k: nat, additional: int, covered: Option<nat>) {
    k <= |rs| && additional == |Span(id.lo, id.hi) - Union(rs[..k])| && CoveredThrough(Union(rs[..k]), id, covered)
  }

  lemma CountingNext(rs: seq<Run>, id: Run, k: nat, additional: int, covered: Option<nat>)
    requires Chain(rs) && k < |rs| && Counting(rs, id, k, additional, covered)
    ensures Counting(rs, id, k + 1, additional - Taken(rs[k], id, covered), NextCovered(rs[k], id, covered))
    ensures Taken(rs[k], id, covered) <= additional
  {
    CoverTurn(rs, k, id, covered);
  }

  lemma CountingStarts(rs: seq<Run>, id: Run)
    requires id.lo <= id.hi
    ensures Counting(rs, id, 0, id.hi - id.lo + 1, None)
  {
    SpanSize(id.lo, id.hi);
    assert Span(id.lo, id.hi) - Union(rs[..0]) == Span(id.lo, id.hi);
  }

  /** The body of the identity loop. */
  method SubtractOverlap(run: Run, id: Run, additional: int, covered: Option<nat>)
    returns (overflow: bool, left: int, next: Option<nat>)
    requires Taken(run, id, covered) <= additional
    ensures !overflow && left == additional - Taken(run, id, covered) && next == NextCovered(run, id, covered)
  {
    overflow, left, next := false, additional, covered;
    var overlapFirst := Max(run.lo, id.lo);
    var overlapLast: nat := Min(run.hi, id.hi);
    if overlapFirst <= overlapLast {
      var from := if covered.Some? then Max(covered.value + 1, overlapFirst) else overlapFirst;
      if from <= overlapLast {
        if additional < overlapLast - from + 1 {
          overflow := true;
          return;
        }
        left := additional - (overlapLast - from + 1);
      }
      next := Some(if covered.Some? then Max(covered.value, overlapLast) else overlapLast);
    }
  }

  method CountUncovered(rs: seq<Run>, id: Run) returns (r: Counted)
    requires Chain(rs) && id.lo <= id.hi
    ensures r == Counted(|Span(id.lo, id.hi) - Union(rs)|)
  {
    var additional := id.hi - id.lo + 1;
    var covered: Option<nat> := None;
    var k := 0;
    CountingStarts(rs, id);
    while k < |rs|
      invariant Counting(rs, id, k, additional, covered)
    {
      CountingNext(rs, id, k, additional, covered);
      var overflow;
      overflow, additional, covered := SubtractOverlap(rs[k], id, additional, covered);
      if overflow {
        return Overflow;
      }
      k := k + 1;
    }
    assert rs[..k] == rs;
    r := Counted(additional);
  }

  /** `distinct_regions_with_additions`: the number of tables of one level. */
  method DistinctRegionsWithAdditions(es: seq<Extent>, identity: Option<Extent>, temporary: Word, coverage: Word)
    returns (r: Counted)
    requires coverage > 0 && SortedDisjoint(es) && IdentityFits(identity) && temporary < TWO64 - 1
    ensures r == Counted(|AllRegions(es, identity, temporary, coverage)|) && r.count < TWO64
  {
    AllRegionsFit(es, identity, temporary, coverage);
    var region := RegionOf(temporary, coverage);
    AllRegionsCount(es, identity, temporary, coverage);
    r := AddContributions(es, identity, region, coverage);
  }

  function RegionOf(address: nat, coverage: nat): (r: nat)
    requires coverage > 0
    ensures r == address / coverage
  {
    address / coverage
  }

  /** Mappings, then the identity range, then the temporary region, each only where new. */
  ghost function Contributions(es: seq<Extent>, identity: Option<Extent>, region: nat, coverage: nat): nat
    requires coverage > 0
  {
    var touched := TouchedRegions(es, coverage);
    var ids := if identity.Some? then RangeRegions(identity.value, coverage) else {};
    |touched| + (if identity.Some? then |ids - touched| else 0) + Bit(region !in touched && region !in ids)
  }

  method AddContributions(es: seq<Extent>, identity: Option<Extent>, region: nat, coverage: Word) returns (r: Counted)
    requires coverage > 0 && SortedDisjoint(es) && IdentityFits(identity)
             && Contributions(es, identity, region, coverage) < TWO64
    ensures r == Counted(Contributions(es, identity, region, coverage))
  {
    var byMapping := AnyMappingTouches(es, region, coverage);
    var byIdentity := identity.Some? && RangeTouches(identity.value, region, coverage);
    r := DistinctRegions(es, coverage);
    if r.Overflow? {
      return;
    }
    var count := r.count;
    if identity.Some? {
      r := AdditionalRegions(es, identity.value, coverage);
      if r.Overflow? {
        return;
      }
      if count + r.count >= TWO64 {
        return Overflow;
      }
      count := count + r.count;
    }
    if !byMapping && !byIdentity {
      if count + 1 >= TWO64 {
        return Overflow;
      }
      count := count + 1;
    }
    r := Counted(count);
  }

  /** The total as the three contributions. */
  lemma AllRegionsCount(es: seq<Extent>, identity: Option<Extent>, temporary: nat, coverage: nat)
    requires coverage > 0
    ensures |AllRegions(es, identity, temporary, coverage)| ==
            Contributions(es, identity, RegionOf(temporary, coverage), coverage)
  {
    var ids := if identity.Some? then RangeRegions(identity.value, coverage) else {};
    UnionCount(TouchedRegions(es, coverage), ids, RegionOf(temporary, coverage));
  }

  lemma UnionCount(touched: set<int>, ids: set<int>, region: int)
    ensures |touched + ids + {region}| == |touched| + |ids - touched| + Bit(region !in touched && region !in ids)
  {
    assert touched + ids == touched + (ids - touched);
    if region in touched + ids {
      assert touched + ids + {region} == touched + ids;
    }
  }

  /** Whether a range touches a region, as the scans test it. */
  predicate RangeTouches(e: Extent, region: nat, coverage: nat)
    requires coverage > 0 && e.len > 0
    ensures RangeTouches(e, region, coverage) <==> region in RangeRegions(e, coverage)
  {
    RangeRegionsIsSpan(e, coverage);
    e.start / coverage <= region && region <= (e.start + e.len - 1) / coverage
  }

  /** The `any` scan over the mappings. */
  method AnyMappingTouches(es: seq<Extent>, region: nat, coverage: Word) returns (found: bool)
    requires coverage > 0 && SortedDisjoint(es)
    ensures found <==> region in TouchedRegions(es, coverage)
  {
    found := false;
    var k := 0;
    while k < |es| && !found
      invariant 0 <= k <= |es|
      invariant found <==> region in TouchedRegions(es[..k], coverage)
    {
      assert es[..k + 1][..k] == es[..k];
      found := RangeTouches(es[k], region, coverage);
      k := k + 1;
    }
    if found {
      TouchedGrows(es, k, coverage);
    } else {
      assert es[..k] == es;
    }
  }

  lemma {:induction false} TouchedGrows(es: seq<Extent>, k: nat, coverage: nat)
    requires coverage > 0 && k <= |es|
    ensures TouchedRegions(es[..k], coverage) <= TouchedRegions(es, coverage)
  {
    if k < |es| {
      var n := |es| - 1;
      TouchedGrows(es[..n], k, coverage);
      assert es[..n][..k] == es[..k];
    } else {
      assert es[..k] == es;
    }
  }

  lemma AllRegionsFit(es: seq<Extent>, identity: Option<Extent>, temporary: nat, coverage: nat)
    requires coverage > 0 && SortedDisjoint(es) && IdentityFits(identity) && temporary < TWO64 - 1
    ensures |AllRegions(es, identity, temporary, coverage)| <= (TWO64 - 2) / coverage + 1 < TWO64
  {
    TouchedBound(es, coverage);
    DivMonotone(temporary, TWO64 - 2, coverage);
    DivShrinks(TWO64 - 2, coverage);
    if identity.Some? { RangeBound(identity.value, coverage); }
    var ids := if identity.Some? then RangeRegions(identity.value, coverage) else {};
    UnionFits(TouchedRegions(es, coverage), ids, temporary / coverage, (TWO64 - 2) / coverage);
  }

  lemma UnionFits(touched: set<int>, ids: set<int>, region: int, bound: nat)
    requires forall x :: x in touched ==> 0 <= x <= bound
    requires forall x :: x in ids ==> 0 <= x <= bound
    requires 0 <= region <= bound
    ensures |touched + ids + {region}| <= bound + 1
  {
    RegionCountFits(touched + ids + {region}, bound);
  }

  lemma TouchedBound(es: seq<Extent>, coverage: nat)
    requires coverage > 0 && SortedDisjoint(es)
    ensures forall x :: x in TouchedRegions(es, coverage) ==> 0 <= x <= (TWO64 - 2) / coverage
  {
    RunsChain(es, coverage);
    TouchedIsUnion(es, coverage);
    if es != [] { UnionBounds(Runs(es, coverage)); }
  }

  lemma RangeBound(e: Extent, coverage: nat)
    requires coverage > 0 && e.len > 0 && e.End() < TWO64
    ensures forall x :: x in RangeRegions(e, coverage) ==> 0 <= x <= (TWO64 - 2) / coverage
  {
    RangeRegionsIsSpan(e, coverage);
    DivMonotone(e.End() - 1, TWO64 - 2, coverage);
  }

  /** More identity pages never need fewer regions. */
  lemma AllRegionsMonotone(es: seq<Extent>, a: Option<Extent>, b: Option<Extent>, temporary: nat, coverage: nat)
    requires coverage > 0
    requires a.Some? ==> b.Some? && a.value.start == b.value.start && a.value.len <= b.value.len
    ensures AllRegions(es, a, temporary, coverage) <= AllRegions(es, b, temporary, coverage)
    ensures |AllRegions(es, a, temporary, coverage)| <= |AllRegions(es, b, temporary, coverage)|
  {
    SubsetSize(AllRegions(es, a, temporary, coverage), AllRegions(es, b, temporary, coverage));
  }
}
