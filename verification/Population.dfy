/** Applying a finalized plan to a fresh page table (`populate_page_table`). */
module Population {
  import opened Words
  import opened Regions
  import opened RegionCount
  import opened Outcome
  import opened TransitionTypes
  import opened MappingSet
  import opened Transition
  import opened PageEntry
  import opened PageTree
  import opened PageWalk
  import opened UefiPageTables
  import opened PlanImage
  import opened TableCount

  datatype PopulationError =
    | PageZero(error: PageTableError)
    | TemporaryMapping(error: PageTableError)
    | MappingFailed(kind: MappingKind, error: PageTableError)

  function AllMappings(plan: TransitionPlan): seq<Mapping> { plan.mappings + [plan.tableIdentity] }

  function TemporaryReservation(abi: Abi): Reservation { Reservation(abi.temporary, abi.temporaryIndices) }

  /** The mappings of a 4 KiB plan, its table identity included, are placed and disjoint. */
  lemma PlanPlaced(plan: TransitionPlan, abi: Abi)
    requires GoodAbi(abi) && PlanReady(plan, abi) && plan.granule == 4096
    ensures AllPlaced(AllMappings(plan))
  {
    var all, n := AllMappings(plan), |plan.mappings|;
    assert Placed(plan.tableIdentity) by { IdentityPlaced(plan, abi); }
    forall i | 0 <= i < |all| ensures Placed(all[i]) {
      if i < n { assert all[i] == plan.mappings[i]; }
    }
    forall i, j | 0 <= i < j < |all| ensures Apart(all[i], all[j]) {
      if j == n { assert !IdentityCollides(plan.tableIdentity, plan.mappings[i]); }
    }
  }

  lemma IdentityPlaced(plan: TransitionPlan, abi: Abi)
    requires GoodAbi(abi) && PlanReady(plan, abi) && plan.granule == 4096
    ensures Placed(plan.tableIdentity)
  {
    var n, m := plan.usedPages, plan.tableIdentity;
    assert m.byteLen == 4096 * n;
    DivModUnique(4096 * n, 4096, n, 0);
    IdentityStart(plan, abi);
    IdentityFitsHalf(m);
  }

  lemma IdentityFitsHalf(m: Mapping)
    requires 0 < m.virtualStart == m.physicalStart && m.byteLen > 0 && m.VirtualEnd() <= CANONICAL_LOW_END
    ensures OneHalf(m) && m.PhysicalEnd() < TWO64 && m.VirtualEnd() < TWO64
  {
  }

  lemma IdentityStart(plan: TransitionPlan, abi: Abi)
    requires GoodAbi(abi) && PlanReady(plan, abi) && plan.granule == 4096
    ensures var m := plan.tableIdentity;
            m.virtualStart == m.physicalStart == plan.storage.physicalStart && m.virtualStart % 4096 == 0
              && m.virtualStart != 0
  {
  }

  /** The number of tables the whole plan needs is the planned count. */
  lemma PlanCount(plan: TransitionPlan, abi: Abi)
    requires GoodAbi(abi) && PlanReady(plan, abi) && plan.granule == 4096
    ensures |KeysOf(NeedOf(AllMappings(plan), abi))| == plan.usedPages <= abi.maxTableFrames
  {
    PlanPlaced(plan, abi);
    var all := AllMappings(plan);
    assert forall i :: 0 <= i < |plan.mappings| ==> plan.mappings[i] == all[i];
    assert plan.tableIdentity == all[|plan.mappings|];
    CountAgrees(plan.mappings, plan.tableIdentity, abi);
    assert plan.tableIdentity.VirtualExtent() == Extent(plan.storage.physicalStart, plan.usedPages * plan.granule);
  }

  /** Clear of the slot reserved for the temporary mapping. */
  ghost predicate ClearOfSlot(m: Mapping, abi: Abi) { !TouchesSlot(m, abi) }

  lemma PlanClearOfSlot(plan: TransitionPlan, abi: Abi, i: nat)
    requires GoodAbi(abi) && PlanReady(plan, abi) && i < |AllMappings(plan)|
    ensures ClearOfSlot(AllMappings(plan)[i], abi)
  {
    if i < |plan.mappings| {
      assert AllMappings(plan)[i] == plan.mappings[i];
    } else {
      assert SlotStart(abi) >= CANONICAL_LOW_END;
    }
  }

  ghost predicate Reserved(temporary: Option<TemporaryPath>, abi: Abi) {
    temporary.Some? && temporary.value.reservation == TemporaryReservation(abi)
  }

  /** The encoder's argument checks accept a placed mapping exactly when its pages are encodable. */
  lemma ChecksPass(m: Mapping, temporary: Option<TemporaryPath>, abi: Abi, limit: nat)
    requires Placed(m) && ClearOfSlot(m, abi) && Reserved(temporary, abi) && limit % 4096 == 0
    ensures MapPagesCheck(temporary, limit, m.virtualStart, m.physicalStart, m.byteLen).Ok? <==> OneEncodable(m, limit)
  {
    OneHalfRange(m);
    LastPageFits(m.PhysicalEnd(), limit);
    LastPageAligned(m);
  }

  lemma LastPageFits(end: nat, limit: nat)
    requires end % 4096 == 0 && limit % 4096 == 0
    ensures end - 4096 < limit <==> end <= limit
  {
  }

  lemma LastPageAligned(m: Mapping)
    requires Placed(m)
    ensures m.byteLen >= 4096 && (m.physicalStart + m.byteLen - 4096) % 4096 == 0 && m.PhysicalEnd() % 4096 == 0
  {
  }

  lemma {:induction false} FreeRange(leaves: map<nat, Word>, first: nat, count: nat)
    requires PageRange(first, count) !! leaves.Keys
    ensures RangeFree(leaves, first, count)
  {
    if count > 0 {
      assert first + count - 1 in PageRange(first, count);
      FreeRange(leaves, first, count - 1);
    }
  }

  /** One mapping of a plan always succeeds and adds exactly its own pages and leaves. */
  lemma MappingStep(r: Checked, all: seq<Mapping>, i: nat, abi: Abi, capacity: nat,
                    need: set<nat>, need': set<nat>, leaves: map<nat, Word>, leaves': map<nat, Word>)
    requires AllPlaced(all) && i < |all| && |KeysOf(NeedOf(all, abi))| <= capacity
    requires AllPlaced(all[..i]) && need == NeedOf(all[..i], abi) && leaves == LeavesOf(all[..i])
    requires MapRangeOutcome(r, all[i].virtualStart, all[i].physicalStart, all[i].byteLen / 4096, all[i].permissions,
                             capacity, need, need', leaves, leaves')
    ensures r.Ok? && AllPlaced(all[..i + 1]) && need' == NeedOf(all[..i + 1], abi) && leaves' == LeavesOf(all[..i + 1])
  {
    NextFree(all, i);
    NextNeed(all, i, abi, capacity);
  }

  /** The pages of the next mapping have no leaf yet, and its leaves are what the list gains. */
  lemma NextFree(all: seq<Mapping>, i: nat)
    requires AllPlaced(all) && i < |all|
    ensures AllPlaced(all[..i]) && AllPlaced(all[..i + 1]) && Placed(all[i])
    ensures RangeFree(LeavesOf(all[..i]), FirstPage(all[i]), PageTotal(all[i]))
    ensures LeavesOf(all[..i + 1]) == LeavesOf(all[..i]) + LeavesOfMapping(all[i])
  {
    PrefixPlaced(all, i);
    PrefixPlaced(all, i + 1);
    assert all[..i + 1][..i] == all[..i] && all[..i + 1][i] == all[i];
    PagesApart(all, i);
    LeavesOfDomain(all[..i]);
    FreeRange(LeavesOf(all[..i]), FirstPage(all[i]), PageTotal(all[i]));
  }

  lemma NextNeed(all: seq<Mapping>, i: nat, abi: Abi, capacity: nat)
    requires i < |all| && |KeysOf(NeedOf(all, abi))| <= capacity
    ensures NeedOf(all[..i], abi) + Pages(all[i]) == NeedOf(all[..i + 1], abi)
    ensures |KeysOf(NeedOf(all[..i], abi) + Pages(all[i]))| <= capacity
  {
    assert all[..i + 1][..i] == all[..i] && all[..i + 1][i] == all[i];
    assert NeedOf(all[..i], abi) + Pages(all[i]) == NeedOf(all[..i + 1], abi);
    PagesOfGrow(all, i + 1);
    KeysOfMonotone(NeedOf(all[..i + 1], abi), NeedOf(all, abi));
  }

  /** What the table holds after the first `i` mappings of a plan. */
  ghost predicate Filled(table: UefiPageTable, all: seq<Mapping>, i: nat, abi: Abi)
    requires AllPlaced(all) && i <= |all|
    reads table, table.pages
  {
    PrefixPlaced(all, i);
    && table.Valid() && table.Exact() && table.pageZeroGuarded && Reserved(table.temporary, abi)
    && table.need == NeedOf(all[..i], abi) && table.leaves == LeavesOf(all[..i])
  }

  /** A mapping list that a table of the given capacity has room for. */
  ghost predicate RoomFor(all: seq<Mapping>, abi: Abi, capacity: nat) {
    && AllPlaced(all) && (forall i :: 0 <= i < |all| ==> ClearOfSlot(all[i], abi))
    && |KeysOf(NeedOf(all, abi))| <= capacity
  }

  lemma PlanHasRoom(plan: TransitionPlan, abi: Abi)
    requires GoodAbi(abi) && PlanReady(plan, abi) && plan.granule == 4096
    ensures RoomFor(AllMappings(plan), abi, abi.maxTableFrames)
  {
    PlanPlaced(plan, abi);
    PlanCount(plan, abi);
    forall i | 0 <= i < |AllMappings(plan)| ensures ClearOfSlot(AllMappings(plan)[i], abi) {
      PlanClearOfSlot(plan, abi, i);
    }
  }

  /** Maps the next mapping of a plan. */
  method MapNext(table: UefiPageTable, ghost all: seq<Mapping>, ghost i: nat, m: Mapping, ghost abi: Abi)
    returns (r: Checked)
    requires RoomFor(all, abi, table.pages.Length) && i < |all| && m == all[i] && Filled(table, all, i, abi)
    modifies table`nextFree, table`nodes, table`leaves, table`need, table.pages
    ensures r.Ok? <==> OneEncodable(m, Limit(table.bits))
    ensures r.Ok? ==> Filled(table, all, i + 1, abi)
    ensures table.Valid()
  {
    LimitFacts(table.bits);
    PrefixPlaced(all, i);
    assert Placed(m) && ClearOfSlot(m, abi);
    ChecksPass(m, table.temporary, abi, Limit(table.bits));
    ghost var need, leaves := table.need, table.leaves;
    r := table.Map(m);
    if MapPagesCheck(table.temporary, Limit(table.bits), m.virtualStart, m.physicalStart, m.byteLen).Ok? {
      MappingStep(r, all, i, abi, table.pages.Length, need, table.need, leaves, table.leaves);
    }
  }

  /** Guards page zero and reserves the temporary path on a fresh table. */
  method Prepare(table: UefiPageTable, granule: Word, abi: Abi) returns (r: Result<(), PopulationError>)
    requires GoodAbi(abi) && table.Fresh() && table.pages.Length == abi.maxTableFrames
    modifies table
    modifies table.pages
    ensures r.Ok? <==> granule == 4096
    ensures r.Ok? ==> table.Valid() && table.Exact() && table.pageZeroGuarded && Reserved(table.temporary, abi)
                      && table.need == {PageNumber(abi.temporary)} && table.leaves == map[]
    ensures table.Valid()
  {
    var check := table.LeavePageZeroUnmapped(granule);
    if check.Err? { return Err(PageZero(check.error)); }
    check := ReserveFirst(table, abi);
    match check {
      case Err(e) => return Err(TemporaryMapping(e));
      case Ok(_) => return Ok(());
    }
  }

  /** On a table that maps nothing yet, the temporary path is always reserved. */
  method ReserveFirst(table: UefiPageTable, abi: Abi) returns (r: Checked)
    requires GoodAbi(abi) && table.Valid() && table.Exact() && table.pages.Length == abi.maxTableFrames
             && ZeroPage(table.pages[0])
    requires table.pageZeroGuarded && table.temporary.None? && table.need == {} && table.leaves == map[]
    modifies table`nextFree, table`nodes, table`temporary, table`need, table.pages
    ensures r.Ok? && table.Valid() && table.Exact() && Reserved(table.temporary, abi)
    ensures table.need == {PageNumber(abi.temporary)} && table.leaves == map[]
  {
    ghost var pn := PageNumber(abi.temporary);
    FirstReservation(table, abi);
    r := table.ReserveTemporaryMapping(TemporaryReservation(abi));
    assert pn !in table.leaves;
  }

  /** Nothing that can refuse a reservation applies to a table without leaves. */
  lemma FirstReservation(table: UefiPageTable, abi: Abi)
    requires GoodAbi(abi) && table.pages.Length == abi.maxTableFrames && ZeroPage(table.pages[0])
             && table.pageZeroGuarded
    ensures table.ReservationOk(TemporaryReservation(abi))
    ensures table.pages[0][IndexesFor(abi.temporary)[0]] == 0
    ensures |KeysOf({} + {PageNumber(abi.temporary)})| <= table.pages.Length
            && {} + {PageNumber(abi.temporary)} == {PageNumber(abi.temporary)}
  {
    SingleNeed(PageNumber(abi.temporary));
    IndexPath(abi.temporary);
  }

  /** The temporary path alone needs four tables. */
  lemma SingleNeed(pn: nat)
    ensures |KeysOf({pn})| <= 4 && {} + {pn} == {pn}
  {
    var k := KeysOf({pn});
    assert k <= {(4, 0), (1, Region(pn, 1)), (2, Region(pn, 2)), (3, Region(pn, 3))};
    SubsetSize(k, {(4, 0), (1, Region(pn, 1)), (2, Region(pn, 2)), (3, Region(pn, 3))});
  }

  /** `populate_page_table`: a finalized 4 KiB plan is applied exactly when its physical pages are
      encodable, and it then uses exactly the planned number of tables. */
  method PopulatePageTable(plan: TransitionPlan, table: UefiPageTable, abi: Abi)
    returns (r: Result<(), PopulationError>)
    requires GoodAbi(abi) && PlanReady(plan, abi)
    requires table.Fresh() && table.pages.Length == abi.maxTableFrames
    modifies table
    modifies table.pages
    ensures table.Valid()
    ensures r.Ok? <==> plan.granule == 4096 && Encodable(AllMappings(plan), Limit(table.bits))
    ensures r.Ok? ==> table.nextFree == plan.usedPages && AllPlaced(AllMappings(plan))
                      && Filled(table, AllMappings(plan), |AllMappings(plan)|, abi)
  {
    ghost var all := AllMappings(plan);
    var prepared := Prepare(table, plan.granule, abi);
    if prepared.Err? { return Err(prepared.error); }
    PlanHasRoom(plan, abi);
    StartFilled(all, abi);
    r := MapAll(table, plan.mappings, plan.tableIdentity, abi);
    if r.Ok? { PlanTables(plan, table.nodes, abi); }
  }

  ghost predicate EncodableUpTo(all: seq<Mapping>, n: nat, limit: nat) {
    n <= |all| && forall k :: 0 <= k < n ==> OneEncodable(all[k], limit)
  }

  lemma EncodableNext(all: seq<Mapping>, n: nat, limit: nat)
    requires EncodableUpTo(all, n, limit) && n < |all|
    ensures OneEncodable(all[n], limit) <==> EncodableUpTo(all, n + 1, limit)
    ensures !OneEncodable(all[n], limit) ==> !Encodable(all, limit)
    ensures n + 1 == |all| && EncodableUpTo(all, n + 1, limit) ==> Encodable(all, limit)
  {
  }

  /** The mapping loop, then the table identity range. */
  method MapAll(table: UefiPageTable, ms: seq<Mapping>, identity: Mapping, ghost abi: Abi)
    returns (r: Result<(), PopulationError>)
    requires RoomFor(ms + [identity], abi, table.pages.Length) && Filled(table, ms + [identity], 0, abi)
    modifies table`nextFree, table`nodes, table`leaves, table`need, table.pages
    ensures table.Valid()
    ensures r.Ok? <==> Encodable(ms + [identity], Limit(table.bits))
    ensures r.Ok? ==> Filled(table, ms + [identity], |ms| + 1, abi)
  {
    ghost var all, limit := ms + [identity], Limit(table.bits);
    for i := 0 to |ms|
      invariant Filled(table, all, i, abi)
      invariant EncodableUpTo(all, i, limit)
    {
      var check := MapNext(table, all, i, ms[i], abi);
      EncodableNext(all, i, limit);
      if check.Err? {
        return Err(MappingFailed(ms[i].kind, check.error));
      }
    }
    var check := MapNext(table, all, |ms|, identity, abi);
    EncodableNext(all, |ms|, limit);
    if check.Err? {
      return Err(MappingFailed(identity.kind, check.error));
    }
    r := Ok(());
  }

  /** A table holding exactly the plan's regions has the planned number of tables. */
  lemma PlanTables(plan: TransitionPlan, nodes: seq<Node>, abi: Abi)
    requires GoodAbi(abi) && PlanReady(plan, abi) && plan.granule == 4096 && NodesOk(nodes)
    requires Keys(nodes) == KeysOf(NeedOf(AllMappings(plan)[..|AllMappings(plan)|], abi))
    ensures |nodes| == plan.usedPages
  {
    PlanCount(plan, abi);
    assert AllMappings(plan)[..|AllMappings(plan)|] == AllMappings(plan);
    KeysSize(nodes);
  }

  lemma StartFilled(all: seq<Mapping>, abi: Abi)
    requires AllPlaced(all)
    ensures AllPlaced(all[..0]) && LeavesOf(all[..0]) == map[]
    ensures NeedOf(all[..0], abi) == {PageNumber(abi.temporary)}
  {
    assert all[..0] == [];
  }

  /** Everything a populated table translates: the plan and nothing else. */
  lemma PopulatedTranslates(l: Layout, mem: seq<Page>, nodes: seq<Node>, leaves: map<nat, Word>, all: seq<Mapping>,
                            bits: nat, address: Word)
    requires GoodWidth(bits) && l.Ok() && l.limit == Limit(bits) && |mem| == l.capacity
    requires Tree(mem, nodes, l.base) && LeavesAgree(mem, nodes, leaves)
    requires AllPlaced(all) && Encodable(all, Limit(bits)) && leaves == LeavesOf(all)
    ensures Translate(l, mem, |nodes|, address) == if Canonical(address) then PlanTranslation(all, address) else None
  {
    TranslateTree(l, mem, nodes, address);
    if Canonical(address) {
      LeavesTranslate(all, bits, address);
      assert LeafAt(mem, nodes, PageNumber(address)) ==
             if PageNumber(address) in leaves then leaves[PageNumber(address)] else 0;
    }
  }

  /** No planned translation is writable and executable, page zero and the temporary page have none. */
  lemma PlanIsHardened(plan: TransitionPlan, abi: Abi, address: nat)
    requires GoodAbi(abi) && PlanReady(plan, abi) && plan.granule == 4096
    ensures var t := PlanTranslation(AllMappings(plan), address);
            && (t.Some? ==> !(t.value.writable && t.value.executable))
            && (address < 4096 || abi.temporary <= address < abi.temporary + 4096 ==> t.None?)
  {
    var all := AllMappings(plan);
    PlanHasRoom(plan, abi);
    if i :| 0 <= i < |all| && all[i].Covers(address) {
      PlanTranslationSome(all, i, address);
      HardenedMapping(all[i], abi, address);
    } else {
      PlanTranslationNone(all, address);
    }
  }

  /** The kernel finds its page tables at their own addresses and can write them, but not run them. */
  lemma TablesAreWritable(plan: TransitionPlan, abi: Abi, address: nat)
    requires GoodAbi(abi) && PlanReady(plan, abi) && plan.granule == 4096
    requires plan.storage.physicalStart <= address < plan.storage.physicalStart + 4096 * plan.usedPages
    ensures PlanTranslation(AllMappings(plan), address) == Some(Translation(address, true, false))
  {
    IdentityRange(plan, abi);
    TableTranslates(plan, address);
  }

  lemma TableTranslates(plan: TransitionPlan, address: nat)
    requires var m := plan.tableIdentity;
             m.virtualStart == m.physicalStart && m.permissions == Permissions(true, false) && m.Covers(address)
    ensures PlanTranslation(AllMappings(plan), address) == Some(Translation(address, true, false))
  {
    LastTranslates(plan.mappings, plan.tableIdentity, address);
  }

  lemma IdentityRange(plan: TransitionPlan, abi: Abi)
    requires PlanReady(plan, abi) && plan.granule == 4096
    ensures var m := plan.tableIdentity;
            && m.virtualStart == m.physicalStart == plan.storage.physicalStart && m.byteLen == 4096 * plan.usedPages
            && m.permissions == Permissions(true, false)
  {
  }

  lemma LastTranslates(ms: seq<Mapping>, m: Mapping, address: nat)
    requires m.Covers(address)
    ensures PlanTranslation(ms + [m], address) ==
            Some(Translation(m.physicalStart + (address - m.virtualStart), m.permissions.writable,
                             m.permissions.executable))
  {
    assert (ms + [m])[|ms|] == m;
  }

  lemma HardenedMapping(m: Mapping, abi: Abi, address: nat)
    requires GoodAbi(abi) && Placed(m) && ClearOfSlot(m, abi) && m.Covers(address)
    ensures !(m.permissions.writable && m.permissions.executable)
    ensures address >= 4096 && !(abi.temporary <= address < abi.temporary + 4096)
  {
    TemporaryPageInSlot(abi.temporary);
  }

  lemma TemporaryPageInSlot(temporary: nat)
    requires temporary % 4096 == 0
    ensures temporary - temporary % SLOT + SLOT >= temporary + 4096
  {
    ModMod(temporary, 4096, SLOT / 4096);
  }
}
