/** The whole way from the planner's input to an attested page table. */
module Handover {
  import opened Outcome
  import opened Words
  import opened TransitionTypes
  import opened MappingSet
  import opened HandoffImage
  import opened Transition
  import opened PageEntry
  import opened PageTree
  import opened PageWalk
  import opened UefiPageTables
  import opened PlanImage
  import opened Population
  import opened Attestation

  /** What the kernel may find at an address: what the input asks for, or a page table at its own address. */
  ghost predicate Finds(input: PreflightInput, start: nat, used: nat, v: nat, t: Translation)
    requires input.policy.mappingGranule > 0
  {
    || (exists kind :: Wants(input, kind, v, t.physicalAddress, Permissions(t.writable, t.executable)))
    || (start <= v < start + 4096 * used && t == Translation(v, true, false))
  }

  /** In disjoint mappings, translation is being taken somewhere by some mapping. */
  lemma TranslationExact(ms: seq<Mapping>, v: nat, t: Translation)
    requires AllPlaced(ms)
    ensures PlanTranslation(ms, v) == Some(t) <==>
            exists kind :: Mapped(ms, kind, v, t.physicalAddress, Permissions(t.writable, t.executable))
  {
    var permissions := Permissions(t.writable, t.executable);
    if i :| 0 <= i < |ms| && ms[i].Covers(v) {
      PlanTranslationSome(ms, i, v);
      if PlanTranslation(ms, v) == Some(t) {
        assert Takes(ms[i], ms[i].kind, v, t.physicalAddress, permissions);
        assert Mapped(ms, ms[i].kind, v, t.physicalAddress, permissions);
      }
      if kind :| Mapped(ms, kind, v, t.physicalAddress, permissions) {
        var m :| m in ms && Takes(m, kind, v, t.physicalAddress, permissions);
        var k :| 0 <= k < |ms| && ms[k] == m;
        OnlyCover(ms, i, v);
      }
    } else {
      PlanTranslationNone(ms, v);
    }
  }

  /** One more mapping at its own address adds exactly its own range. */
  lemma OneMoreMapping(input: PreflightInput, ms: seq<Mapping>, m: Mapping, v: nat, t: Translation)
    requires AllPlaced(ms + [m]) && m.virtualStart == m.physicalStart && m.permissions == Permissions(true, false)
    requires input.policy.mappingGranule > 0 && MapsExactly(input, ms)
    ensures PlanTranslation(ms + [m], v) == Some(t) <==>
            || (exists kind :: Wants(input, kind, v, t.physicalAddress, Permissions(t.writable, t.executable)))
            || (m.Covers(v) && t == Translation(v, true, false))
  {
    var all, permissions := ms + [m], Permissions(t.writable, t.executable);
    TranslationExact(all, v, t);
    forall kind
      ensures Mapped(all, kind, v, t.physicalAddress, permissions) <==>
              || Wants(input, kind, v, t.physicalAddress, permissions)
              || Takes(m, kind, v, t.physicalAddress, permissions)
    {
      assert Mapped(ms, kind, v, t.physicalAddress, permissions) <==>
             Wants(input, kind, v, t.physicalAddress, permissions);
      MappedSnoc(ms, m, kind, v, t.physicalAddress, permissions);
    }
    if m.Covers(v) && t == Translation(v, true, false) {
      assert Mapped(all, m.kind, v, t.physicalAddress, permissions);
    }
  }

  lemma MappedSnoc(ms: seq<Mapping>, m: Mapping, kind: MappingKind, v: nat, p: int, permissions: Permissions)
    ensures Mapped(ms + [m], kind, v, p, permissions) <==>
            Mapped(ms, kind, v, p, permissions) || Takes(m, kind, v, p, permissions)
  {
    assert m in ms + [m];
    assert forall x :: x in ms + [m] <==> x in ms || x == m;
  }

  /** A finalised plan translates an address exactly as the input asks for, and its own tables as writable data. */
  lemma PlanMeans(input: PreflightInput, plan: TransitionPlan, abi: Abi, v: nat, t: Translation)
    requires GoodAbi(abi) && PlanReady(plan, abi) && plan.granule == 4096
    requires input.policy.mappingGranule > 0 && MapsExactly(input, plan.mappings)
    ensures PlanTranslation(AllMappings(plan), v) == Some(t) <==>
            Finds(input, plan.storage.physicalStart, plan.usedPages, v, t)
  {
    PlanPlaced(plan, abi);
    OneMoreMapping(input, plan.mappings, plan.tableIdentity, v, t);
  }

  datatype Stop =
    | Planning(error: TransitionError)
    | Finalizing(error: TransitionError)
    | Opening(fault: PageTableError)
    | Populating(failure: PopulationError)
    | Attesting

  /** The table gives the kernel exactly what the input asks for, and the evidence describes that table. */
  ghost predicate Delivers(abi: Abi, input: PreflightInput, plan: TransitionPlan, table: UefiPageTable, e: Evidence)
    requires GoodWidth(table.bits) && table.pages.Length > 0 && table.Placement().limit > 0
    reads table, table.pages
  {
    && input.policy.mappingGranule > 0
    && HandsOver(input, plan.preflight) && plan.preflight.mappings == plan.mappings
    && CopiesInput(input.kernelSegments, plan.preflight.materializations, plan.mappings)
    && Evident(table, plan, abi, e)
    && forall address: Word, t {:trigger Finds(input, e.root, e.used, address, t)} ::
         Translate(table.Placement(), table.pages[..], table.nextFree, address) == Some(t) <==>
         Finds(input, e.root, e.used, address, t)
  }

  lemma PlanDeliversAll(abi: Abi, input: PreflightInput, plan: TransitionPlan, table: UefiPageTable, e: Evidence)
    requires GoodWidth(table.bits) && table.pages.Length > 0 && table.Placement().limit > 0
    requires GoodAbi(abi) && PlanReady(plan, abi) && plan.granule == 4096
    requires input.policy.mappingGranule > 0 && MapsExactly(input, plan.mappings) && HandsOver(input, plan.preflight)
    requires CopiesInput(input.kernelSegments, plan.preflight.materializations, plan.mappings)
    requires Evident(table, plan, abi, e) && forall address: Word :: TranslatesPlan(table, plan, address)
    ensures Delivers(abi, input, plan, table, e)
  {
    var all := AllMappings(plan);
    PlanPlaced(plan, abi);
    forall address: Word, t
      ensures Translate(table.Placement(), table.pages[..], table.nextFree, address) == Some(t) <==>
              Finds(input, e.root, e.used, address, t)
    {
      assert TranslatesPlan(table, plan, address);
      PlanMeans(input, plan, abi, address, t);
      if !Canonical(address) { OnlyCanonical(all, address); }
    }
  }

  /** Nothing is planned off the canonical range. */
  lemma OnlyCanonical(all: seq<Mapping>, address: nat)
    requires AllPlaced(all) && !Canonical(address)
    ensures PlanTranslation(all, address).None?
  {
    forall i | 0 <= i < |all| ensures !all[i].Covers(address) {
      if all[i].Covers(address) { PageOfAddress(all[i], address); }
    }
    PlanTranslationNone(all, address);
  }

  /** What the preflight promises about a plan for this input. */
  ghost predicate PlannedFor(abi: Abi, input: PreflightInput, plan: PreflightPlan) {
    && PreflightReady(plan, abi) && input.policy.mappingGranule > 0 && MapsExactly(input, plan.mappings)
    && HandsOver(input, plan) && CopiesInput(input.kernelSegments, plan.materializations, plan.mappings)
  }

  /** Preflight, finalization, encoding and attestation, as the loader runs them after leaving the firmware. */
  method PrepareTransition(abi: Abi, minBits: nat, maxBits: nat, input: PreflightInput, mappingSlots: nat,
                           materializationSlots: nat, storage: RetainedRange, bits: nat, pages: array<Page>)
    returns (r: Result<(TransitionPlan, Evidence), Stop>, table: UefiPageTable?)
    requires GoodAbi(abi) && GoodWidth(minBits) && GoodWidth(maxBits)
    modifies pages
    ensures r.Ok? ==> table != null && fresh(table) && table.Valid() && table.pages == pages && table.bits == bits
    ensures r.Ok? ==> Delivers(abi, input, r.value.0, table, r.value.1) && r.value.0.storage == storage
    ensures r.Err? && r.error.Planning? <==> !Preflightable(abi, input, mappingSlots, materializationSlots)
    ensures r.Err? ==> !r.error.Attesting?
  {
    var preflight := PreflightTransition(abi, input, mappingSlots, materializationSlots);
    if preflight.Err? { return Err(Planning(preflight.error)), null; }
    var plan := FinalizeTransition(preflight.value, storage, abi);
    if plan.Err? { return Err(Finalizing(plan.error)), null; }
    r, table := EncodePlan(abi, minBits, maxBits, input, plan.value, bits, pages);
  }

  /** The second half: a new table on the plan's storage, populated and attested. */
  method EncodePlan(abi: Abi, minBits: nat, maxBits: nat, ghost input: PreflightInput, plan: TransitionPlan, bits: nat,
                    pages: array<Page>)
    returns (r: Result<(TransitionPlan, Evidence), Stop>, table: UefiPageTable?)
    requires GoodAbi(abi) && GoodWidth(minBits) && GoodWidth(maxBits) && PlanReady(plan, abi)
    requires PlannedFor(abi, input, plan.preflight)
    modifies pages
    ensures r.Ok? ==> table != null && fresh(table) && table.Valid() && table.pages == pages && table.bits == bits
    ensures r.Ok? ==> r.value.0 == plan && Delivers(abi, input, plan, table, r.value.1)
    ensures r.Err? ==> r.error.Opening? || r.error.Populating?
  {
    var start := plan.storage.physicalStart;
    var created := UefiPageTable.Create(start, bits, pages, abi.maxTableFrames, minBits, maxBits);
    if created.Err? { return Err(Opening(created.error)), null; }
    table := created.value;
    var populated, evidence := PopulateAndAttest(plan, table, abi);
    if populated.Err? { return Err(Populating(populated.error)), table; }
    if evidence.None? { return Err(Attesting), table; }
    PlanDeliversAll(abi, input, plan, table, evidence.value);
    r := Ok((plan, evidence.value));
  }
}
