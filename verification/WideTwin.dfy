/** A plan whose physical pages do not fit the width of the tables can share its leaf words with a plan that does. */
module WideTwin {
  import opened Words
  import opened Regions
  import opened RegionCount
  import opened Outcome
  import opened TransitionTypes
  import opened MappingSet
  import opened Transition
  import opened PageEntry
  import opened PageTree
  import opened PageWalk
  import opened UefiPageTables
  import opened PlanImage
  import opened Population
  import opened Attestation

  /** The same virtual range, 2^63 further up in physical memory and executable. */
  function Twin(m: Mapping): Mapping
    requires m.physicalStart < TWO63
  {
    m.(physicalStart := m.physicalStart + TWO63, permissions := Permissions(false, true))
  }

  /** The execute-disable bit of one is an address bit of the other. */
  lemma TwinLeaf(physical: nat)
    requires physical < TWO63
    ensures LeafEntry(physical + TWO63, Permissions(false, true)) == LeafEntry(physical, READ_ONLY_NX)
  {
  }

  ghost predicate Twinnable(plan: TransitionPlan, i: nat) {
    && i < |plan.mappings| && plan.mappings[i].permissions == READ_ONLY_NX && plan.preflight.framebufferPixels.None?
    && (forall j :: 0 <= j < |plan.mappings| ==> plan.mappings[j].PhysicalEnd() < TWO63)
  }

  function TwinMappings(ms: seq<Mapping>, i: nat): seq<Mapping>
    requires i < |ms| && ms[i].physicalStart < TWO63
  {
    ms[i := Twin(ms[i])]
  }

  function TwinPlan(plan: TransitionPlan, i: nat): TransitionPlan
    requires i < |plan.mappings| && plan.mappings[i].physicalStart < TWO63
  {
    var ms := TwinMappings(plan.mappings, i);
    plan.(mappings := ms, preflight := plan.preflight.(mappings := ms))
  }

  /** Counting looks at virtual addresses only. */
  lemma SameExtents(ms: seq<Mapping>, i: nat)
    requires i < |ms| && ms[i].physicalStart < TWO63
    ensures Extents(TwinMappings(ms, i)) == Extents(ms)
  {
  }

  lemma TwinAligned(m: Mapping)
    requires MappingOk(m, 4096) && m.PhysicalEnd() < TWO63 && m.permissions == READ_ONLY_NX
    ensures MappingOk(Twin(m), 4096)
  {
    var q := m.physicalStart / 4096;
    assert m.physicalStart == 4096 * q;
    DivModUnique(m.physicalStart + TWO63, 4096, q + 0x8_0000_0000_0000, 0);
  }

  lemma TwinMappingsReady(ms: seq<Mapping>, i: nat, abi: Abi)
    requires MappingsReady(ms, abi, 4096) && i < |ms| && ms[i].permissions == READ_ONLY_NX
    requires forall j :: 0 <= j < |ms| ==> ms[j].PhysicalEnd() < TWO63
    ensures MappingsReady(TwinMappings(ms, i), abi, 4096)
  {
    TwinAligned(ms[i]);
  }

  /** Every table count is that of the twin. */
  lemma SameCounts(ms: seq<Mapping>, i: nat, abi: Abi, start: nat, n: nat)
    requires i < |ms| && ms[i].physicalStart < TWO63
    ensures RequiredPages(TwinMappings(ms, i), None, abi, 4096) == RequiredPages(ms, None, abi, 4096)
    ensures LeastSelfCovering(TwinMappings(ms, i), start, n, abi, 4096) <==> LeastSelfCovering(ms, start, n, abi, 4096)
  {
    SameExtents(ms, i);
    assert forall m: nat ::
             SelfCovering(TwinMappings(ms, i), start, m, abi, 4096) == SelfCovering(ms, start, m, abi, 4096);
  }

  lemma TwinApart(plan: TransitionPlan, abi: Abi, i: nat)
    requires GoodAbi(abi) && PlanReady(plan, abi) && plan.granule == 4096 && Twinnable(plan, i)
    ensures IdentityOk(plan.tableIdentity, TwinMappings(plan.mappings, i))
    ensures forall j :: 0 <= j < |plan.mappings| ==> !StorageAliases(plan.storage, TwinMappings(plan.mappings, i)[j])
  {
    var twins := TwinMappings(plan.mappings, i);
    forall j | 0 <= j < |twins|
      ensures !IdentityCollides(plan.tableIdentity, twins[j]) && !StorageAliases(plan.storage, twins[j])
    {
      assert !IdentityCollides(plan.tableIdentity, plan.mappings[j]) && !StorageAliases(plan.storage, plan.mappings[j]);
      if j == i {
        StorageLow(plan, abi);
      }
    }
  }

  /** The storage of a plan lies in the lower half, because its tables map themselves there. */
  lemma StorageLow(plan: TransitionPlan, abi: Abi)
    requires GoodAbi(abi) && PlanReady(plan, abi) && plan.granule == 4096
    ensures plan.storage.physicalStart < CANONICAL_LOW_END && plan.storage.physicalStart + plan.storage.byteLen <= TWO63
  {
    assert plan.tableIdentity.VirtualEnd() <= CANONICAL_LOW_END
           && plan.tableIdentity.virtualStart == plan.storage.physicalStart;
    assert plan.storage.byteLen == abi.maxTableFrames * 4096 < 0x1000_0000_0000;
  }

  /** The twin of a ready plan is ready. */
  lemma TwinReady(plan: TransitionPlan, abi: Abi, i: nat)
    requires GoodAbi(abi) && PlanReady(plan, abi) && plan.granule == 4096 && Twinnable(plan, i)
    ensures PlanReady(TwinPlan(plan, i), abi)
  {
    TwinMappingsReady(plan.mappings, i, abi);
    SameCounts(plan.mappings, i, abi, plan.storage.physicalStart, plan.usedPages);
    TwinApart(plan, abi, i);
  }

  // ---- The same tables -------------------------------------------------------------------

  lemma TwinPages(all: seq<Mapping>, i: nat)
    requires i < |all| && all[i].physicalStart < TWO63
    ensures PagesOf(TwinMappings(all, i)) == PagesOf(all)
  {
    var twins := TwinMappings(all, i);
    forall q: nat ensures q in PagesOf(twins) <==> q in PagesOf(all) {
      PagesOfMember(twins, q);
      PagesOfMember(all, q);
      assert forall j :: 0 <= j < |all| ==> Pages(twins[j]) == Pages(all[j]);
    }
  }

  lemma TwinLeafAt(all: seq<Mapping>, i: nat, q: nat)
    requires i < |all| && all[i].PhysicalEnd() < TWO63 && all[i].permissions == READ_ONLY_NX
    requires AllPlaced(all) && AllPlaced(TwinMappings(all, i)) && q in LeavesOf(all)
    ensures q in LeavesOf(TwinMappings(all, i)) && LeavesOf(TwinMappings(all, i))[q] == LeavesOf(all)[q]
  {
    var twins := TwinMappings(all, i);
    LeavesOfDomain(all);
    PagesOfMember(all, q);
    var j :| 0 <= j < |all| && q in Pages(all[j]);
    assert Pages(twins[j]) == Pages(all[j]);
    LeafOfPage(all, j, q);
    LeafOfPage(twins, j, q);
    if j == i {
      PageBelow(all[i], q);
      TwinLeaf(all[i].physicalStart + 4096 * (q - FirstPage(all[i])));
    }
  }

  /** A page of a mapping lies below the end of its physical range. */
  lemma PageBelow(m: Mapping, q: nat)
    requires Placed(m) && q in Pages(m)
    ensures FirstPage(m) <= q && m.physicalStart + 4096 * (q - FirstPage(m)) < m.PhysicalEnd()
  {
    assert m.byteLen == 4096 * PageTotal(m);
  }

  lemma TwinLeaves(all: seq<Mapping>, i: nat)
    requires i < |all| && all[i].PhysicalEnd() < TWO63 && all[i].permissions == READ_ONLY_NX
    requires AllPlaced(all) && AllPlaced(TwinMappings(all, i))
    ensures LeavesOf(TwinMappings(all, i)) == LeavesOf(all)
  {
    var twins := TwinMappings(all, i);
    TwinPages(all, i);
    LeavesOfDomain(all);
    LeavesOfDomain(twins);
    forall q | q in LeavesOf(all) ensures LeavesOf(twins)[q] == LeavesOf(all)[q] {
      TwinLeafAt(all, i, q);
    }
  }

  lemma TwinMappingsOfPlan(plan: TransitionPlan, i: nat)
    requires i < |plan.mappings| && plan.mappings[i].physicalStart < TWO63
    ensures AllMappings(TwinPlan(plan, i)) == TwinMappings(AllMappings(plan), i)
  {
  }

  /** A table that holds the plan holds its twin. */
  lemma TwinIsAttestable(table: UefiPageTable, plan: TransitionPlan, abi: Abi, nodes: seq<Node>, i: nat)
    requires GoodAbi(abi) && PlanReady(plan, abi) && plan.granule == 4096 && Twinnable(plan, i)
    requires Attestable(table, plan, abi, nodes)
    ensures Attestable(table, TwinPlan(plan, i), abi, nodes)
  {
    TwinReady(plan, abi, i);
    PlanPlaced(plan, abi);
    PlanPlaced(TwinPlan(plan, i), abi);
    TwinMappingsOfPlan(plan, i);
    TwinLeaves(AllMappings(plan), i);
  }

  /** The two plans promise different things about the mapping's first address. */
  lemma TwinDiffers(plan: TransitionPlan, abi: Abi, i: nat)
    requires GoodAbi(abi) && PlanReady(plan, abi) && plan.granule == 4096 && Twinnable(plan, i)
    ensures var a := plan.mappings[i].virtualStart;
            Promised(AllMappings(plan), a) != Promised(AllMappings(TwinPlan(plan, i)), a)
  {
    var all, a := AllMappings(plan), plan.mappings[i].virtualStart;
    TwinReady(plan, abi, i);
    PlanPlaced(plan, abi);
    PlanPlaced(TwinPlan(plan, i), abi);
    TwinMappingsOfPlan(plan, i);
    PlanTranslationSome(all, i, a);
    PlanTranslationSome(TwinMappings(all, i), i, a);
    PageOfAddress(all[i], a);
  }

  /** Tables populated from a plan are attested against its twin as well, and translate by the plan, not by the twin. */
  method AttestTwin(plan: TransitionPlan, i: nat, table: UefiPageTable, abi: Abi)
    returns (r: Result<Evidence, PageTableError>)
    requires GoodAbi(abi) && PlanReady(plan, abi) && plan.granule == 4096 && Twinnable(plan, i)
    requires table.Fresh() && table.pages.Length == abi.maxTableFrames
             && table.physicalStart == plan.storage.physicalStart
    requires Encodable(AllMappings(plan), Limit(table.bits))
    modifies table
    modifies table.pages
    ensures PlanReady(TwinPlan(plan, i), abi) && r.Ok?
    ensures var a := plan.mappings[i].virtualStart;
            && Translate(table.Placement(), table.pages[..], table.nextFree, a) == Promised(AllMappings(plan), a)
            && Translate(table.Placement(), table.pages[..], table.nextFree, a)
               != Promised(AllMappings(TwinPlan(plan, i)), a)
  {
    var populated := PopulatePageTable(plan, table, abi);
    PopulatedIsAttestable(table, plan, abi);
    IndexPath(abi.temporary);
    TwinOutcome(table, plan, abi, table.nodes, i);
    r := AttestHolding(table, TwinPlan(plan, i), abi, table.nodes);
  }

  lemma TwinOutcome(table: UefiPageTable, plan: TransitionPlan, abi: Abi, nodes: seq<Node>, i: nat)
    requires GoodAbi(abi) && PlanReady(plan, abi) && plan.granule == 4096 && Twinnable(plan, i)
    requires GoodWidth(table.bits) && table.Placement().Ok() && table.pages.Length == abi.maxTableFrames
    requires Attestable(table, plan, abi, nodes) && Encodable(AllMappings(plan), Limit(table.bits))
    ensures PlanReady(TwinPlan(plan, i), abi) && Attestable(table, TwinPlan(plan, i), abi, nodes)
    ensures var a := plan.mappings[i].virtualStart;
            && Translate(table.Placement(), table.pages[..], table.nextFree, a) == Promised(AllMappings(plan), a)
            && Translate(table.Placement(), table.pages[..], table.nextFree, a)
               != Promised(AllMappings(TwinPlan(plan, i)), a)
  {
    var a := plan.mappings[i].virtualStart;
    TwinReady(plan, abi, i);
    TwinDiffers(plan, abi, i);
    TwinIsAttestable(table, plan, abi, nodes, i);
    EncodableFits(plan, table.bits, a);
    CertifiedTranslates(table.Placement(), table.pages[..], nodes, AllMappings(plan), table.bits, a);
  }

  /** A table that holds the plan is attested. */
  method AttestHolding(table: UefiPageTable, plan: TransitionPlan, abi: Abi, ghost nodes: seq<Node>)
    returns (r: Result<Evidence, PageTableError>)
    requires GoodAbi(abi) && PlanReady(plan, abi) && plan.granule == 4096
    requires GoodWidth(table.bits) && table.Placement().Ok() && table.pages.Length == abi.maxTableFrames
    requires table.temporary.Some? ==>
               |table.temporary.value.pageIndices| == 4 && |table.temporary.value.reservation.indices| == 4
    requires table.physicalStart == plan.storage.physicalStart && Attestable(table, plan, abi, nodes)
    ensures r.Ok?
  {
    r := Attest(table, plan, abi);
    assert Attestable(table, plan, abi, nodes);
  }


  // ---- An instance -----------------------------------------------------------------------

  const SMALL_ABI: Abi := Abi(16, 4, CANONICAL_HIGH_START, IndexesFor(CANONICAL_HIGH_START))
  const SMALL_POLICY: Policy := Policy(4096, 1, 4096, 4096, 16, 8)
  const ONE_PAGE: seq<Mapping> := [Mapping(BootInfo, 4096, 4096, 4096, READ_ONLY_NX, RetainedUntilReplacement)]
  const STORAGE: RetainedRange := RetainedRange(0x10_0000, 0x1_0000, RetainedUntilReplacement)

  /** One page at 4096 and seven tables at 1 MiB. */
  const SMALL_PLAN: TransitionPlan :=
    TransitionPlan(ONE_PAGE, TableIdentity(0x10_0000, 7 * 4096), STORAGE, 7, 4096,
                   PreflightPlan(ONE_PAGE, [], SMALL_POLICY, 7, 16, None, 0, 4096, 0, 0))

  lemma LowRegions(e: Extent, coverage: nat)
    requires coverage > 0 && e.End() <= coverage
    ensures RangeRegions(e, coverage) == if e.len == 0 then {} else {0}
  {
    forall a | e.start <= a < e.End() ensures a / coverage == 0 {
      DivModUnique(a, coverage, 0, a);
    }
    if e.len > 0 {
      assert e.start / coverage in RangeRegions(e, coverage);
    }
  }

  /** At every level the page, the tables and the temporary address touch two regions. */
  lemma TwoRegions(identity: Option<Extent>, coverage: nat)
    requires 0x20_0000 <= coverage <= SLOT && (identity.Some? ==> identity.value.End() <= 0x20_0000)
    ensures |AllRegions(Extents(ONE_PAGE), identity, SMALL_ABI.temporary, coverage)| == 2
  {
    var es, high := Extents(ONE_PAGE), SMALL_ABI.temporary / coverage;
    assert es == [Extent(4096, 4096)] && es[..0] == [];
    LowRegions(es[0], coverage);
    assert TouchedRegions(es, coverage) == TouchedRegions(es[..0], coverage) + {0} == {0};
    if identity.Some? {
      LowRegions(identity.value, coverage);
    }
    HighRegion(coverage);
    assert AllRegions(es, identity, SMALL_ABI.temporary, coverage) == {0, high};
  }

  lemma HighRegion(coverage: nat)
    requires 0 < coverage <= SLOT
    ensures SMALL_ABI.temporary / coverage > 0
  {
  }

  lemma SevenPages(identity: Option<Extent>)
    requires identity.Some? ==> identity.value.End() <= 0x20_0000
    ensures RequiredPages(ONE_PAGE, identity, SMALL_ABI, 4096) == 7
  {
    TwoRegions(identity, 4096 * 512);
    TwoRegions(identity, 4096 * 512 * 512);
    TwoRegions(identity, 4096 * 512 * 512 * 512);
  }

  lemma SmallCount()
    ensures LeastSelfCovering(ONE_PAGE, 0x10_0000, 7, SMALL_ABI, 4096)
    ensures RequiredPages(ONE_PAGE, None, SMALL_ABI, 4096) == 7
  {
    SevenPages(None);
    forall n: nat | n <= 7 ensures SelfCovering(ONE_PAGE, 0x10_0000, n, SMALL_ABI, 4096) == 7 {
      SevenPages(Some(Extent(0x10_0000, n * 4096)));
    }
  }

  lemma SmallMapping()
    ensures GoodAbi(SMALL_ABI) && MappingsReady(ONE_PAGE, SMALL_ABI, 4096)
  {
    assert MappingOk(ONE_PAGE[0], 4096) && !TouchesSlot(ONE_PAGE[0], SMALL_ABI);
  }

  lemma SmallPreflight()
    ensures PreflightReady(SMALL_PLAN.preflight, SMALL_ABI)
  {
    SmallCount();
    SmallMapping();
  }

  lemma SmallStorage()
    ensures StorageReady(SMALL_PLAN.preflight, STORAGE) && IdentityOk(SMALL_PLAN.tableIdentity, ONE_PAGE)
  {
    assert !StorageAliases(STORAGE, ONE_PAGE[0]) && !IdentityCollides(SMALL_PLAN.tableIdentity, ONE_PAGE[0]);
  }

  lemma SmallEncodable(bits: nat)
    requires GoodWidth(bits) && bits >= 21
    ensures Encodable(AllMappings(SMALL_PLAN), Limit(bits))
  {
    PowersOfTwo();
    Pow2Monotone(21, bits);
    var all := AllMappings(SMALL_PLAN);
    assert |all| == 2 && all[0] == ONE_PAGE[0] && all[1] == SMALL_PLAN.tableIdentity;
  }

  /** A ready plan that has a twin, and that every table of width 21 or more can hold. */
  lemma SmallPlanReady()
    ensures GoodAbi(SMALL_ABI) && PlanReady(SMALL_PLAN, SMALL_ABI) && SMALL_PLAN.granule == 4096
            && Twinnable(SMALL_PLAN, 0)
    ensures forall bits :: GoodWidth(bits) && bits >= 21 ==> Encodable(AllMappings(SMALL_PLAN), Limit(bits))
  {
    SmallCount();
    SmallMapping();
    SmallPreflight();
    SmallStorage();
    forall bits | GoodWidth(bits) && bits >= 21 ensures Encodable(AllMappings(SMALL_PLAN), Limit(bits)) {
      SmallEncodable(bits);
    }
  }
}
