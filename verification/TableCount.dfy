/** The planner's table count is the number of tables the encoder links.

The planner counts regions of full 64-bit addresses; the encoder links tables by 48-bit page number.
On canonical addresses the two numberings are in bijection, level by level.
*/
module TableCount {
  import opened Outcome
  import opened Words
  import opened Regions
  import opened RegionCount
  import opened TransitionTypes
  import opened MappingSet
  import opened Transition
  import opened PageEntry
  import opened PageTree
  import opened UefiPageTables
  import opened PlanImage

  /** Bytes covered by one table of a level. */
  function Coverage(level: nat): nat
    requires 1 <= level <= 3
  {
    if level == 1 then 0x20_0000 else if level == 2 then 0x4000_0000 else 0x80_0000_0000
  }

  /** The table region of an address is its full-width region, cut to 48 bits. */
  lemma RegionOfAddress(a: nat, level: nat)
    requires 1 <= level <= 3
    ensures Region(PageNumber(a), level) == a / Coverage(level) % LevelRegions(level)
  {
    var low := a % 0x1_0000_0000_0000;
    DivDiv(low, 4096, 512);
    DivDiv(low, 4096, 0x4_0000);
    DivDiv(low, 4096, 0x800_0000);
    DigitOf(a, Coverage(level), LevelRegions(level));
  }

  /** Full-width regions that contain canonical addresses. */
  ghost predicate CanonicalRegion(r: int, level: nat)
    requires 1 <= level <= 3
  {
    var m := LevelRegions(level);
    0 <= r < m / 2 || 0x1_0000 * m - m / 2 <= r < 0x1_0000 * m
  }

  lemma AddressInCanonicalRegion(a: nat, level: nat)
    requires 1 <= level <= 3 && Canonical(a)
    ensures CanonicalRegion(a / Coverage(level), level)
  {
  }

  lemma CutInjective(r: int, s: int, level: nat)
    requires 1 <= level <= 3 && CanonicalRegion(r, level) && CanonicalRegion(s, level)
    requires r % LevelRegions(level) == s % LevelRegions(level)
    ensures r == s
  {
    var m := LevelRegions(level);
    CutValue(r, m, m / 2);
    CutValue(s, m, m / 2);
  }

  /** Cutting keeps a lower-half region and takes the sign extension off an upper-half one. */
  lemma CutValue(r: int, m: nat, half: nat)
    requires m == 2 * half > 0 && (0 <= r < half || 0x1_0000 * m - half <= r < 0x1_0000 * m)
    ensures r % m == if r < half then r else r - 0xffff * m
    ensures r >= half ==> half <= r % m
  {
    if r < half {
      DivModUnique(r, m, 0, r);
    } else {
      DivModUnique(r, m, 0xffff, r - 0xffff * m);
    }
  }

  ghost function Cut(regions: set<int>, level: nat): set<int>
    requires 1 <= level <= 3
  {
    set r | r in regions :: r % LevelRegions(level)
  }

  lemma {:induction false} CutSize(regions: set<int>, level: nat)
    requires 1 <= level <= 3 && forall r :: r in regions ==> CanonicalRegion(r, level)
    ensures |Cut(regions, level)| == |regions|
    decreases regions
  {
    if regions == {} {
      assert Cut(regions, level) == {};
    } else {
      var r := Member(regions);
      var rest := regions - {r};
      CutSize(rest, level);
      assert regions == rest + {r};
      CutInsert(rest, r, level);
      CutFresh(rest, r, level);
    }
  }

  lemma CutInsert(rest: set<int>, r: int, level: nat)
    requires 1 <= level <= 3
    ensures Cut(rest + {r}, level) == Cut(rest, level) + {r % LevelRegions(level)}
  {
  }

  lemma CutFresh(rest: set<int>, r: int, level: nat)
    requires 1 <= level <= 3 && CanonicalRegion(r, level) && r !in rest
             && forall s :: s in rest ==> CanonicalRegion(s, level)
    ensures r % LevelRegions(level) !in Cut(rest, level)
  {
    forall s | s in rest ensures s % LevelRegions(level) != r % LevelRegions(level) {
      if s % LevelRegions(level) == r % LevelRegions(level) {
        CutInjective(r, s, level);
      }
    }
  }

  /** The table regions of a level that a set of pages needs. */
  ghost function Image(need: set<nat>, level: nat): set<int> { set q | q in need :: Region(q, level) }

  lemma KeysOfSize(need: set<nat>)
    ensures |KeysOf(need)| == 1 + |Image(need, 1)| + |Image(need, 2)| + |Image(need, 3)|
  {
    var tagged := Tagged(Image(need, 1), 1) + Tagged(Image(need, 2), 2) + Tagged(Image(need, 3), 3);
    forall x | x in KeysOf(need) ensures x in {(4, 0)} + tagged {
      if x != (4, 0) {
        var q, level: nat :| q in need && 1 <= level <= 3 && x == (level, Region(q, level));
        assert Region(q, level) in Image(need, level);
        assert level == 1 || level == 2 || level == 3;
      }
    }
    forall x | x in tagged ensures x in KeysOf(need) {
      assert x.1 in Image(need, x.0);
      var q :| q in need && Region(q, x.0) == x.1;
      assert x == (x.0, Region(q, x.0));
    }
    assert KeysOf(need) == {(4, 0)} + tagged;
    TaggedSize(Image(need, 1), 1);
    TaggedSize(Image(need, 2), 2);
    TaggedSize(Image(need, 3), 3);
    assert Tagged(Image(need, 1), 1) !! Tagged(Image(need, 2), 2);
    assert (Tagged(Image(need, 1), 1) + Tagged(Image(need, 2), 2)) !! Tagged(Image(need, 3), 3);
    assert {(4, 0)} !! tagged;
  }

  ghost function Tagged(xs: set<int>, level: nat): set<(nat, nat)> { set x | x in xs && x >= 0 :: (level, x) }

  lemma {:induction false} TaggedSize(xs: set<int>, level: nat)
    requires forall x :: x in xs ==> x >= 0
    ensures |Tagged(xs, level)| == |xs|
    decreases xs
  {
    if xs == {} {
      assert Tagged(xs, level) == {};
    } else {
      var x := Member(xs);
      TaggedSize(xs - {x}, level);
      assert Tagged(xs, level) == Tagged(xs - {x}, level) + {(level, x)};
    }
  }

  // ---- Planner regions and encoder tables ------------------------------------------------

  /** A region touched by a mapping is cut to the region of one of its pages, and conversely. */
  lemma MappingImage(m: Mapping, level: nat)
    requires Placed(m) && 1 <= level <= 3
    ensures Image(Pages(m), level) == Cut(RangeRegions(m.VirtualExtent(), Coverage(level)), level)
    ensures forall r :: r in RangeRegions(m.VirtualExtent(), Coverage(level)) ==> CanonicalRegion(r, level)
  {
    var regions := RangeRegions(m.VirtualExtent(), Coverage(level));
    forall r | r in regions
      ensures CanonicalRegion(r, level) && r % LevelRegions(level) in Image(Pages(m), level)
    {
      var a: int :| m.virtualStart <= a < m.virtualStart + m.byteLen && r == a / Coverage(level);
      PageOfAddress(m, a);
      RegionOfAddress(a, level);
      AddressInCanonicalRegion(a, level);
    }
    forall x | x in Image(Pages(m), level) ensures x in Cut(regions, level) {
      var q :| q in Pages(m) && x == Region(q, level);
      AddressOfPage(m, q);
      var a := m.virtualStart + (q - FirstPage(m)) * 4096;
      RegionOfAddress(a, level);
      assert a / Coverage(level) in regions;
    }
  }

  lemma CutUnion(a: set<int>, b: set<int>, level: nat)
    requires 1 <= level <= 3
    ensures Cut(a + b, level) == Cut(a, level) + Cut(b, level)
  {
  }

  lemma ImageUnion(a: set<nat>, b: set<nat>, level: nat)
    ensures Image(a + b, level) == Image(a, level) + Image(b, level)
  {
  }

  lemma {:induction false} ListImage(ms: seq<Mapping>, level: nat)
    requires (forall i :: 0 <= i < |ms| ==> Placed(ms[i])) && 1 <= level <= 3
    ensures Image(PagesOf(ms), level) == Cut(TouchedRegions(Extents(ms), Coverage(level)), level)
    ensures forall r :: r in TouchedRegions(Extents(ms), Coverage(level)) ==> CanonicalRegion(r, level)
  {
    if ms != [] {
      var n := |ms| - 1;
      ListImage(ms[..n], level);
      assert Extents(ms)[..n] == Extents(ms[..n]);
      MappingImage(ms[n], level);
      ImageUnion(PagesOf(ms[..n]), Pages(ms[n]), level);
      CutUnion(TouchedRegions(Extents(ms[..n]), Coverage(level)),
               RangeRegions(ms[n].VirtualExtent(), Coverage(level)), level);
    }
  }

  /** Pages the encoder visits for a plan: those of every mapping and the temporary one. */
  ghost function NeedOf(ms: seq<Mapping>, abi: Abi): set<nat> { PagesOf(ms) + {PageNumber(abi.temporary)} }

  lemma LevelCount(ms: seq<Mapping>, identity: Mapping, abi: Abi, level: nat)
    requires (forall i :: 0 <= i < |ms| ==> Placed(ms[i])) && Placed(identity) && GoodAbi(abi) && 1 <= level <= 3
    ensures |Image(NeedOf(ms + [identity], abi), level)|
         == |AllRegions(Extents(ms), Some(identity.VirtualExtent()), abi.temporary, Coverage(level))|
  {
    var cov, all := Coverage(level), ms + [identity];
    var touched, ids := TouchedRegions(Extents(ms), cov), RangeRegions(identity.VirtualExtent(), cov);
    var region := abi.temporary / cov;
    assert all[..|ms|] == ms;
    assert PagesOf(all) == PagesOf(ms) + Pages(identity);
    ListImage(ms, level);
    MappingImage(identity, level);
    RegionOfAddress(abi.temporary, level);
    AddressInCanonicalRegion(abi.temporary, level);
    ImageUnion(PagesOf(ms), Pages(identity), level);
    ImageUnion(PagesOf(all), {PageNumber(abi.temporary)}, level);
    CutUnion(touched, ids, level);
    CutUnion(touched + ids, {region}, level);
    assert Image({PageNumber(abi.temporary)}, level) == Cut({region}, level);
    CutSize(touched + ids + {region}, level);
  }

  /** The planner's arithmetic count equals the number of tables, root included. */
  lemma CountAgrees(ms: seq<Mapping>, identity: Mapping, abi: Abi)
    requires (forall i :: 0 <= i < |ms| ==> Placed(ms[i])) && Placed(identity) && GoodAbi(abi)
    ensures |KeysOf(NeedOf(ms + [identity], abi))| == RequiredPages(ms, Some(identity.VirtualExtent()), abi, 4096)
  {
    KeysOfSize(NeedOf(ms + [identity], abi));
    LevelCount(ms, identity, abi, 1);
    LevelCount(ms, identity, abi, 2);
    LevelCount(ms, identity, abi, 3);
  }
}
