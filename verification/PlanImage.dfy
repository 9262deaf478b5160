/** The pages, leaves and tables that a mapping list stands for. */
module PlanImage {
  import opened Outcome
  import opened Words
  import opened Regions
  import opened RegionCount
  import opened TransitionTypes
  import opened MappingSet
  import opened Transition
  import opened PageEntry
  import opened PageTree
  import opened PageWalk
  import opened UefiPageTables

  /** A mapping of whole 4 KiB pages inside one canonical half. */
  ghost predicate Placed(m: Mapping) { MappingOk(m, 4096) && m.byteLen > 0 }

  ghost predicate AllPlaced(ms: seq<Mapping>) {
    (forall i :: 0 <= i < |ms| ==> Placed(ms[i]))
    && forall i, j {:trigger Apart(ms[i], ms[j])} :: 0 <= i < j < |ms| ==> Apart(ms[i], ms[j])
  }

  ghost predicate Apart(a: Mapping, b: Mapping) {
    a.VirtualEnd() <= b.virtualStart || b.VirtualEnd() <= a.virtualStart
  }

  function FirstPage(m: Mapping): nat { PageNumber(m.virtualStart) }
  function PageTotal(m: Mapping): nat { m.byteLen / 4096 }
  ghost function Pages(m: Mapping): set<nat> { PageRange(FirstPage(m), PageTotal(m)) }

  lemma OneHalfRange(m: Mapping)
    requires Placed(m)
    ensures m.VirtualEnd() <= CANONICAL_LOW_END || m.virtualStart >= CANONICAL_HIGH_START
  {
  }

  /** The page of a covered address, counted from the start of the mapping. */
  lemma PageOfAddress(m: Mapping, a: nat)
    requires Placed(m) && m.Covers(a)
    ensures Canonical(a) && PageNumber(a) in Pages(m)
    ensures PageNumber(a) == FirstPage(m) + (a - m.virtualStart) / 4096
    ensures a % 4096 == (a - m.virtualStart) % 4096
  {
    OneHalfRange(m);
    var offset: nat := a - m.virtualStart;
    var k := offset / 4096;
    OffsetInPages(m, offset, k);
    PageOfBase(m, a, m.virtualStart + k * 4096, k);
  }

  lemma PageOfBase(m: Mapping, a: nat, base: nat, k: nat)
    requires Placed(m) && m.Covers(a) && k < PageTotal(m) && base == m.virtualStart + k * 4096 && a - a % 4096 == base
    ensures Canonical(a) && PageNumber(a) == FirstPage(m) + k && PageNumber(a) in Pages(m)
  {
    OneHalfRange(m);
    ConsecutivePages(m.virtualStart, m.byteLen, k);
    CanonicalRoundTrip(a);
  }

  /** A page offset inside a mapping. */
  lemma OffsetInPages(m: Mapping, offset: nat, k: nat)
    requires Placed(m) && offset < m.byteLen && k == offset / 4096
    ensures k < PageTotal(m)
    ensures var a := m.virtualStart + offset; a % 4096 == offset % 4096 && a - a % 4096 == m.virtualStart + k * 4096
  {
    var first, low := m.virtualStart / 4096, offset % 4096;
    assert m.virtualStart == 4096 * first && m.byteLen == 4096 * PageTotal(m);
    DivModUnique(m.virtualStart + offset, 4096, first + k, low);
  }

  lemma AddressOfPage(m: Mapping, q: nat)
    requires Placed(m) && q in Pages(m)
    ensures var a := m.virtualStart + (q - FirstPage(m)) * 4096;
            m.Covers(a) && PageNumber(a) == q && a % 4096 == 0
  {
    OneHalfRange(m);
    ConsecutivePages(m.virtualStart, m.byteLen, q - FirstPage(m));
  }

  lemma CanonicalOfPage(m: Mapping, q: nat)
    requires Placed(m) && q in Pages(m)
    ensures CanonicalAddress(q) == m.virtualStart + (q - FirstPage(m)) * 4096 && m.Covers(CanonicalAddress(q))
  {
    AddressOfPage(m, q);
    var x := m.virtualStart + (q - FirstPage(m)) * 4096;
    PageOfAddress(m, x);
    CanonicalRoundTrip(x);
  }

  /** A page number has one canonical page address, so disjoint ranges have disjoint pages. */
  lemma ApartPages(a: Mapping, b: Mapping)
    requires Placed(a) && Placed(b) && Apart(a, b)
    ensures Pages(a) !! Pages(b)
  {
    forall q | q in Pages(a) && q in Pages(b) ensures false {
      CanonicalOfPage(a, q);
      CanonicalOfPage(b, q);
    }
  }

  // ---- Pages of a list -------------------------------------------------------------------

  ghost function PagesOf(ms: seq<Mapping>): set<nat> {
    if ms == [] then {} else PagesOf(ms[..|ms| - 1]) + Pages(ms[|ms| - 1])
  }

  lemma {:induction false} PagesOfMember(ms: seq<Mapping>, q: nat)
    ensures q in PagesOf(ms) <==> exists i :: 0 <= i < |ms| && q in Pages(ms[i])
  {
    if ms != [] {
      var n := |ms| - 1;
      PagesOfMember(ms[..n], q);
      if q in PagesOf(ms[..n]) {
        var i :| 0 <= i < n && q in Pages(ms[..n][i]);
        assert q in Pages(ms[i]);
      }
      if i :| 0 <= i < |ms| && q in Pages(ms[i]) {
        if i < n { assert ms[..n][i] == ms[i]; }
      }
    }
  }

  lemma {:induction false} PagesOfGrow(ms: seq<Mapping>, k: nat)
    requires k <= |ms|
    ensures PagesOf(ms[..k]) <= PagesOf(ms)
  {
    if k < |ms| {
      PagesOfGrow(ms[..|ms| - 1], k);
      assert ms[..|ms| - 1][..k] == ms[..k];
    } else {
      assert ms[..k] == ms;
    }
  }

  lemma PagesApart(all: seq<Mapping>, i: nat)
    requires AllPlaced(all) && i < |all|
    ensures PagesOf(all[..i]) !! Pages(all[i])
  {
    forall q | q in PagesOf(all[..i]) && q in Pages(all[i]) ensures false {
      PagesOfMember(all[..i], q);
      var k :| 0 <= k < i && q in Pages(all[..i][k]);
      assert Apart(all[k], all[i]);
      ApartPages(all[k], all[i]);
    }
  }

  ghost function LeavesOfMapping(m: Mapping): map<nat, Word>
    requires Placed(m)
  {
    RangeLeaves(FirstPage(m), PageTotal(m), m.physicalStart, m.permissions)
  }

  /** The leaf words of a mapping list. */
  ghost function LeavesOf(ms: seq<Mapping>): map<nat, Word>
    requires AllPlaced(ms)
  {
    if ms == [] then map[]
    else
      PrefixPlaced(ms, |ms| - 1);
      LeavesOf(ms[..|ms| - 1]) + LeavesOfMapping(ms[|ms| - 1])
  }

  lemma PrefixPlaced(ms: seq<Mapping>, k: nat)
    requires AllPlaced(ms) && k <= |ms|
    ensures AllPlaced(ms[..k])
  {
    forall i, j | 0 <= i < j < k ensures Apart(ms[..k][i], ms[..k][j]) {
      assert Apart(ms[i], ms[j]);
    }
  }

  lemma {:induction false} LeavesOfDomain(ms: seq<Mapping>)
    requires AllPlaced(ms)
    ensures LeavesOf(ms).Keys == PagesOf(ms)
  {
    if ms != [] {
      PrefixPlaced(ms, |ms| - 1);
      LeavesOfDomain(ms[..|ms| - 1]);
      assert LeavesOfMapping(ms[|ms| - 1]).Keys == Pages(ms[|ms| - 1]);
    }
  }

  /** A page covered by one mapping has that mapping's leaf. */
  lemma {:induction false} LeafOfPage(ms: seq<Mapping>, i: nat, q: nat)
    requires AllPlaced(ms) && i < |ms| && q in Pages(ms[i])
    ensures q in LeavesOf(ms) && q >= FirstPage(ms[i]) && IsPresent(LeavesOf(ms)[q])
    ensures ms[i].physicalStart + 4096 * (q - FirstPage(ms[i])) < TWO64
    ensures LeavesOf(ms)[q] == LeafEntry(ms[i].physicalStart + 4096 * (q - FirstPage(ms[i])), ms[i].permissions)
  {
    var n := |ms| - 1;
    PrefixPlaced(ms, n);
    if i < n {
      LeafOfPage(ms[..n], i, q);
      assert Apart(ms[i], ms[n]);
      ApartPages(ms[i], ms[n]);
    }
  }

  lemma {:induction false} NoLeafOutside(ms: seq<Mapping>, q: nat)
    requires AllPlaced(ms) && q !in PagesOf(ms)
    ensures q !in LeavesOf(ms)
  {
    LeavesOfDomain(ms);
  }

  // ---- What the plan promises about an address -------------------------------------------

  /** Translation that a mapping list promises: its own range shifted, or nothing. */
  ghost function PlanTranslation(ms: seq<Mapping>, a: nat): Option<Translation> {
    if ms == [] then None
    else
      var m := ms[|ms| - 1];
      if m.Covers(a)
      then Some(Translation(m.physicalStart + (a - m.virtualStart), m.permissions.writable, m.permissions.executable))
      else PlanTranslation(ms[..|ms| - 1], a)
  }

  lemma {:induction false} PlanTranslationNone(ms: seq<Mapping>, a: nat)
    requires forall i :: 0 <= i < |ms| ==> !ms[i].Covers(a)
    ensures PlanTranslation(ms, a).None?
  {
    if ms != [] { PlanTranslationNone(ms[..|ms| - 1], a); }
  }

  lemma {:induction false} PlanTranslationSome(ms: seq<Mapping>, i: nat, a: nat)
    requires AllPlaced(ms) && i < |ms| && ms[i].Covers(a)
    ensures PlanTranslation(ms, a)
         == Some(Translation(ms[i].physicalStart + (a - ms[i].virtualStart), ms[i].permissions.writable,
                             ms[i].permissions.executable))
  {
    var n := |ms| - 1;
    if i < n {
      PrefixPlaced(ms, n);
      PlanTranslationSome(ms[..n], i, a);
      assert Apart(ms[i], ms[n]);
    }
  }

  /** Every physical page of the list fits the width. */
  ghost predicate Encodable(ms: seq<Mapping>, limit: nat) {
    forall i :: 0 <= i < |ms| ==> OneEncodable(ms[i], limit)
  }

  ghost predicate OneEncodable(m: Mapping, limit: nat) { m.physicalStart > 0 && m.PhysicalEnd() <= limit }

  /** The leaf words of a list translate every canonical address as the list promises,
      for each mapping whose physical pages fit the width. */
  lemma LeavesTranslate(ms: seq<Mapping>, bits: nat, a: nat)
    requires AllPlaced(ms) && GoodWidth(bits) && Canonical(a)
    requires forall i :: 0 <= i < |ms| && ms[i].Covers(a) ==> ms[i].PhysicalEnd() <= Limit(bits)
    ensures Limit(bits) > 0
    ensures var leaves, q := LeavesOf(ms), PageNumber(a);
            LeafTranslation(if q in leaves then leaves[q] else 0, a % 4096, Limit(bits)) == PlanTranslation(ms, a)
  {
    var q := PageNumber(a);
    LimitFacts(bits);
    if i :| 0 <= i < |ms| && ms[i].Covers(a) {
      CoveredTranslation(ms, i, bits, a, q, a % 4096);
    } else {
      PlanTranslationNone(ms, a);
      NotCoveredPage(ms, a);
      NoLeafOutside(ms, q);
    }
  }

  /** The leaf word translates an offset to the given result. */
  ghost predicate Yields(e: Word, low: nat, limit: nat, t: Option<Translation>) { LeafTranslation(e, low, limit) == t }

  lemma CoveredTranslation(ms: seq<Mapping>, i: nat, bits: nat, a: nat, q: nat, low: nat)
    requires AllPlaced(ms) && GoodWidth(bits) && i < |ms| && ms[i].Covers(a) && q == PageNumber(a) && low == a % 4096
    ensures Limit(bits) > 0 && q in LeavesOf(ms)
    ensures ms[i].physicalStart + (a - ms[i].virtualStart) - low < Limit(bits) <==>
            Yields(LeavesOf(ms)[q], low, Limit(bits), PlanTranslation(ms, a))
  {
    var offset: nat := a - ms[i].virtualStart;
    OffsetFacts(ms[i], a, q, offset, low);
    OffsetTranslation(ms, i, q, offset, low, bits);
    PlanAtOffset(ms, i, a, offset);
  }

  lemma PlanAtOffset(ms: seq<Mapping>, i: nat, a: nat, offset: nat)
    requires AllPlaced(ms) && i < |ms| && ms[i].Covers(a) && offset == a - ms[i].virtualStart
    ensures PlanTranslation(ms, a)
            == Some(Translation(ms[i].physicalStart + offset, ms[i].permissions.writable, ms[i].permissions.executable))
  {
    PlanTranslationSome(ms, i, a);
  }

  lemma OffsetTranslation(ms: seq<Mapping>, i: nat, q: nat, offset: nat, low: nat, bits: nat)
    requires AllPlaced(ms) && GoodWidth(bits) && i < |ms| && q in Pages(ms[i]) && offset % 4096 == low
    requires 4096 * (q - FirstPage(ms[i])) == offset - low && (ms[i].physicalStart + offset - low) % 4096 == 0
    requires ms[i].physicalStart + offset < TWO64
    ensures Limit(bits) > 0 && q in LeavesOf(ms)
    ensures ms[i].physicalStart + offset - low < Limit(bits) <==>
            Yields(LeavesOf(ms)[q], low, Limit(bits),
                   Some(Translation(ms[i].physicalStart + offset, ms[i].permissions.writable,
                                    ms[i].permissions.executable)))
  {
    LeafAtOffset(ms, i, q, offset, low);
    LeafOfOffset(ms[i].physicalStart, offset, low, ms[i].permissions, bits);
  }

  lemma OffsetFacts(m: Mapping, a: nat, q: nat, offset: nat, low: nat)
    requires Placed(m) && m.Covers(a) && q == PageNumber(a) && offset == a - m.virtualStart && low == a % 4096
    ensures q in Pages(m) && 4096 * (q - FirstPage(m)) == offset - low && (m.physicalStart + offset - low) % 4096 == 0
    ensures offset % 4096 == low && m.physicalStart + offset < TWO64
  {
    PageOfAddress(m, a);
    PageBase(offset, low, m.physicalStart);
  }

  lemma LeafAtOffset(ms: seq<Mapping>, i: nat, q: nat, offset: nat, low: nat)
    requires AllPlaced(ms) && i < |ms| && q in Pages(ms[i])
    requires 4096 * (q - FirstPage(ms[i])) == offset - low && (ms[i].physicalStart + offset - low) % 4096 == 0
    ensures q in LeavesOf(ms) && ms[i].physicalStart + offset - low < TWO64
    ensures LeavesOf(ms)[q] == PageLeaf(ms[i].physicalStart + offset - low, ms[i].permissions)
  {
    LeafOfPage(ms, i, q);
  }

  /** The leaf of the page at an offset translates back to that offset, if the page fits the width. */
  lemma LeafOfOffset(physical: nat, offset: nat, low: nat, permissions: Permissions, bits: nat)
    requires GoodWidth(bits) && physical % 4096 == 0 && offset % 4096 == low && physical + offset < TWO64
    ensures Limit(bits) > 0 && (physical + offset - low) % 4096 == 0
    ensures physical + offset - low < Limit(bits) <==>
            LeafTranslation(PageLeaf(physical + offset - low, permissions), low, Limit(bits))
            == Some(Translation(physical + offset, permissions.writable, permissions.executable))
  {
    PageBase(offset, low, physical);
    LeafRoundTrip(physical + offset - low, permissions, low, bits);
  }

  lemma PageBase(offset: nat, low: nat, physical: nat)
    requires offset % 4096 == low && physical % 4096 == 0
    ensures 4096 * (offset / 4096) == offset - low && (physical + offset - low) % 4096 == 0
  {
    assert physical + offset - low == 4096 * (physical / 4096 + offset / 4096);
    DivModUnique(physical + offset - low, 4096, physical / 4096 + offset / 4096, 0);
  }

  /** An uncovered canonical address lies on a page without a leaf. */
  lemma NotCoveredPage(ms: seq<Mapping>, a: nat)
    requires AllPlaced(ms) && Canonical(a) && forall i :: 0 <= i < |ms| ==> !ms[i].Covers(a)
    ensures PageNumber(a) !in PagesOf(ms)
  {
    var q := PageNumber(a);
    PagesOfMember(ms, q);
    if i :| 0 <= i < |ms| && q in Pages(ms[i]) {
      var m := ms[i];
      CanonicalOfPage(m, q);
      CanonicalRoundTrip(a);
      WholePage(m, CanonicalAddress(q), a);
    }
  }

  lemma WholePage(m: Mapping, x: nat, a: nat)
    requires Placed(m) && m.Covers(x) && x % 4096 == 0 && a - a % 4096 == x
    ensures m.Covers(a)
  {
  }
}
