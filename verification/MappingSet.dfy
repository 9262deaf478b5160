/** Validation of the sorted transition mapping set (`validate_mapping_set` and the temporary-slot check). */
module MappingSet {
  import opened Words
  import opened Regions
  import opened Outcome
  import opened TransitionTypes

  type Check = Result<(), TransitionError>

  predicate Aligned(m: Mapping, granule: nat)
    requires granule > 0
  {
    m.physicalStart % granule == 0 && m.virtualStart % granule == 0 && m.byteLen % granule == 0
  }

  ghost predicate OneHalf(m: Mapping) {
    CanonicalHalf(m.virtualStart).Some? && m.VirtualEnd() > 0
    && CanonicalHalf(m.VirtualEnd() - 1) == CanonicalHalf(m.virtualStart)
  }

  /** What each single mapping of a plan satisfies. */
  ghost predicate MappingOk(m: Mapping, granule: nat)
    requires granule > 0
  {
    && m.virtualStart != 0
    && !(m.permissions.writable && m.permissions.executable)
    && Aligned(m, granule)
    && m.PhysicalEnd() < TWO64 && m.VirtualEnd() < TWO64
    && OneHalf(m)
  }

  ghost predicate VirtuallyDisjoint(ms: seq<Mapping>) {
    forall i, j :: 0 <= i < j < |ms| ==> ms[i].VirtualEnd() <= ms[j].virtualStart
  }

  predicate PhysicalOverlap(a: Mapping, b: Mapping) {
    Overlap(a.physicalStart, a.PhysicalEnd(), b.physicalStart, b.PhysicalEnd())
  }

  ghost predicate PhysicallyDisjoint(ms: seq<Mapping>) {
    forall i, j :: 0 <= i < j < |ms| ==> !PhysicalOverlap(ms[i], ms[j])
  }

  /** The whole granules around the pixels, or `None` when the range is empty or wraps. */
  function ExcludedPixels(fb: PhysicalRange, granule: nat): Option<Extent>
    requires granule > 0
  {
    if fb.byteLen == 0 || fb.physicalStart + fb.byteLen >= TWO64 then None
    else
      var start := AlignDown(fb.physicalStart, granule);
      match AlignUp(fb.physicalStart + fb.byteLen, granule)
      case None => None
      case Some(end) => Some(Extent(start, end - start))
  }

  predicate MapsPixels(m: Mapping, excluded: Extent) {
    Overlap(m.physicalStart, m.PhysicalEnd(), excluded.start, excluded.End())
  }

  ghost predicate PixelsUnmapped(ms: seq<Mapping>, fb: Option<PhysicalRange>, granule: nat)
    requires granule > 0
  {
    fb.Some? ==> ExcludedPixels(fb.value, granule).Some?
                 && forall i :: 0 <= i < |ms| ==> !MapsPixels(ms[i], ExcludedPixels(fb.value, granule).value)
  }

  ghost predicate SetOk(ms: seq<Mapping>, fb: Option<PhysicalRange>, granule: nat)
    requires granule > 0
  {
    && (forall i :: 0 <= i < |ms| ==> MappingOk(ms[i], granule))
    && VirtuallyDisjoint(ms) && PhysicallyDisjoint(ms) && PixelsUnmapped(ms, fb, granule)
  }

  ghost predicate SortedByStart(ms: seq<Mapping>) {
    forall i, j :: 0 <= i < j < |ms| ==> ms[i].virtualStart <= ms[j].virtualStart
  }

  /** An error names a mapping, or a pair, that really breaks the rule it reports. */
  ghost predicate Justified(e: TransitionError, ms: seq<Mapping>, fb: Option<PhysicalRange>, granule: nat)
    requires granule > 0
  {
    match e
    case PageZeroWouldBeMapped(k) => exists m :: m in ms && m.kind == k && m.virtualStart == 0
    case WritableExecutable(k) => exists m :: m in ms && m.kind == k && m.permissions == Permissions(true, true)
    case PhysicalPagesUnaligned(k) => exists m :: m in ms && m.kind == k && !Aligned(m, granule)
    case RangeOverflow(k) => exists m :: m in ms && m.kind == k && (m.PhysicalEnd() >= TWO64 || m.VirtualEnd() >= TWO64)
    case NonCanonicalVirtualRange(k) => exists m :: m in ms && m.kind == k && !OneHalf(m)
    case VirtualOverlap(a, b) =>
      exists i, j :: 0 <= i < j < |ms| && ms[i].kind == a && ms[j].kind == b && ms[i].VirtualEnd() > ms[j].virtualStart
    case PhysicalAlias(a, b) =>
      exists i, j :: 0 <= i < j < |ms| && ms[i].kind == a && ms[j].kind == b && PhysicalOverlap(ms[i], ms[j])
    case InvalidFramebufferRange => fb.Some? && ExcludedPixels(fb.value, granule).None?
    case FramebufferPixelsWouldBeMapped(k) =>
      fb.Some? && ExcludedPixels(fb.value, granule).Some?
      && exists m :: m in ms && m.kind == k && MapsPixels(m, ExcludedPixels(fb.value, granule).value)
    case _ => false
  }

  function CheckMapping(m: Mapping, granule: nat): (r: Check)
    requires granule > 0
    ensures r.Ok? <==> MappingOk(m, granule)
  {
    if m.virtualStart == 0 then Err(PageZeroWouldBeMapped(m.kind))
    else if m.permissions.writable && m.permissions.executable then Err(WritableExecutable(m.kind))
    else if !Aligned(m, granule) then Err(PhysicalPagesUnaligned(m.kind))
    else if m.PhysicalEnd() >= TWO64 || m.VirtualEnd() >= TWO64 then Err(RangeOverflow(m.kind))
    else if CanonicalHalf(m.virtualStart).None? || CanonicalHalf(m.virtualStart) != CanonicalHalf(m.VirtualEnd() - 1)
    then Err(NonCanonicalVirtualRange(m.kind))
    else Ok(())
  }

  /** Neighbours that do not overlap are enough: in a sorted list no two mappings overlap. */
  lemma NeighboursSuffice(ms: seq<Mapping>)
    requires SortedByStart(ms)
    requires forall k :: 0 < k < |ms| ==> ms[k - 1].VirtualEnd() <= ms[k].virtualStart
    ensures VirtuallyDisjoint(ms)
  {
    forall i, j | 0 <= i < j < |ms| ensures ms[i].VirtualEnd() <= ms[j].virtualStart {
      assert ms[i + 1 - 1].VirtualEnd() <= ms[i + 1].virtualStart;
      if i + 1 < j { assert ms[i + 1].virtualStart <= ms[j].virtualStart; }
    }
  }

  method ValidateMappingSet(ms: seq<Mapping>, fb: Option<PhysicalRange>, granule: Word) returns (r: Check)
    requires granule > 0 && SortedByStart(ms)
    ensures r.Ok? <==> SetOk(ms, fb, granule)
    ensures r.Err? ==> Justified(r.error, ms, fb, granule)
  {
    for k := 0 to |ms|
      invariant forall i :: 0 <= i < k ==> MappingOk(ms[i], granule)
    {
      r := CheckMapping(ms[k], granule);
      if r.Err? { return; }
    }
    r := NeighboursApart(ms, fb, granule);
    if r.Err? { return; }
    r := NoPhysicalAlias(ms, fb, granule);
    if r.Err? { return; }
    if fb.Some? {
      var excluded := ExcludedPixels(fb.value, granule);
      if excluded.None? { return Err(InvalidFramebufferRange); }
      for k := 0 to |ms|
        invariant forall i :: 0 <= i < k ==> !MapsPixels(ms[i], excluded.value)
      {
        if MapsPixels(ms[k], excluded.value) { return Err(FramebufferPixelsWouldBeMapped(ms[k].kind)); }
      }
    }
    r := Ok(());
  }

  method NeighboursApart(ms: seq<Mapping>, ghost fb: Option<PhysicalRange>, ghost granule: nat) returns (r: Check)
    requires granule > 0 && SortedByStart(ms)
    ensures r.Ok? <==> VirtuallyDisjoint(ms)
    ensures r.Err? ==> Justified(r.error, ms, fb, granule)
  {
    var k := 1;
    while k < |ms|
      invariant 1 <= k
      invariant forall i :: 0 < i < k && i < |ms| ==> ms[i - 1].VirtualEnd() <= ms[i].virtualStart
    {
      if ms[k - 1].VirtualEnd() > ms[k].virtualStart {
        return Err(VirtualOverlap(ms[k - 1].kind, ms[k].kind));
      }
      k := k + 1;
    }
    NeighboursSuffice(ms);
    r := Ok(());
  }

  method NoPhysicalAlias(ms: seq<Mapping>, ghost fb: Option<PhysicalRange>, ghost granule: nat) returns (r: Check)
    requires granule > 0
    ensures r.Ok? <==> PhysicallyDisjoint(ms)
    ensures r.Err? ==> Justified(r.error, ms, fb, granule)
  {
    for p := 0 to |ms|
      invariant forall i, j :: 0 <= i < p && i < j < |ms| ==> !PhysicalOverlap(ms[i], ms[j])
    {
      for q := p + 1 to |ms|
        invariant forall j :: p < j < q ==> !PhysicalOverlap(ms[p], ms[j])
      {
        if PhysicalOverlap(ms[p], ms[q]) {
          return Err(PhysicalAlias(ms[p].kind, ms[q].kind));
        }
      }
    }
    r := Ok(());
  }

  /** First byte of the root slot reserved for the temporary mapping. */
  function SlotStart(abi: Abi): nat { abi.temporary - abi.temporary % SLOT }

  predicate TouchesSlot(m: Mapping, abi: Abi) {
    Overlap(m.virtualStart, m.VirtualEnd(), SlotStart(abi), SlotStart(abi) + SLOT)
  }

  ghost predicate SlotFree(ms: seq<Mapping>, abi: Abi) {
    forall i :: 0 <= i < |ms| ==> !TouchesSlot(ms[i], abi)
  }

  method RejectTemporaryCollision(ms: seq<Mapping>, abi: Abi) returns (r: Check)
    requires forall i :: 0 <= i < |ms| ==> ms[i].VirtualEnd() < TWO64
    ensures r.Ok? <==> SlotFree(ms, abi)
    ensures r.Err? ==> exists m :: m in ms && TouchesSlot(m, abi) && r.error == TemporaryMappingConflict(m.kind)
  {
    for k := 0 to |ms|
      invariant forall i :: 0 <= i < k ==> !TouchesSlot(ms[i], abi)
    {
      if TouchesSlot(ms[k], abi) { return Err(TemporaryMappingConflict(ms[k].kind)); }
    }
    r := Ok(());
  }
}
