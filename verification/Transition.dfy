/** Planning of the loader-owned transition address space: preflight and page-table sizing. */
module Transition {
  import opened Words
  import opened Regions
  import opened RegionCount
  import opened Outcome
  import opened Sorting
  import opened TransitionTypes
  import opened MappingSet
  import opened HandoffImage

  // ---- Candidate mappings -----------------------------------------------------------------

  function ValidateRetained(range: RetainedRange, kind: MappingKind): (r: Check)
    ensures r.Ok? <==> range.byteLen != 0 && range.lifetime.RetainedUntilReplacement?
                       && range.physicalStart + range.byteLen < TWO64
  {
    if range.byteLen == 0 then Err(EmptyRange(kind))
    else if range.lifetime != RetainedUntilReplacement then Err(AllocationNotRetained(kind))
    else if range.physicalStart + range.byteLen >= TWO64 then Err(RangeOverflow(kind))
    else Ok(())
  }

  /** `push_identity`: the whole granules around a retained range, mapped at their own address. */
  function IdentityMapping(kind: MappingKind, range: RetainedRange, permissions: Permissions, granule: Word)
    : (r: Result<Mapping, TransitionError>)
    requires granule > 0
    ensures r.Ok? ==> r.value.kind == kind && r.value.permissions == permissions
                      && r.value.virtualStart == r.value.physicalStart && r.value.byteLen > 0
                      && r.value.virtualStart <= range.physicalStart
                      && range.physicalStart + range.byteLen <= r.value.VirtualEnd()
                      && r.value.virtualStart > range.physicalStart - granule
                      && r.value.VirtualEnd() < range.physicalStart + range.byteLen + granule
  {
    var _ :- ValidateRetained(range, kind);
    var start := AlignDown(range.physicalStart, granule);
    match AlignUp(range.physicalStart + range.byteLen, granule)
    case None => Err(MappingRoundOverflow(kind))
    case Some(end) => Ok(Mapping(kind, start, start, end - start, permissions, range.lifetime))
  }

  /** `push_validated_rsdp`: the retained pages must be exactly the pages of the record. */
  function RsdpMapping(rsdp: RsdpInput, policy: Policy): (r: Result<Mapping, TransitionError>)
    requires policy.mappingGranule > 0
    ensures r.Ok? ==> r.value.kind == RequiredAcpiRsdp && r.value.permissions == READ_ONLY_NX
                      && r.value.virtualStart == r.value.physicalStart == rsdp.retainedAllocation.physicalStart
                      && r.value.byteLen == rsdp.retainedAllocation.byteLen > 0
                      && r.value.virtualStart <= rsdp.recordPhysicalStart
                      && rsdp.recordPhysicalStart + rsdp.recordByteLen <= r.value.VirtualEnd()
  {
    var _ :- ValidateRetained(rsdp.retainedAllocation, RequiredAcpiRsdp);
    if rsdp.recordByteLen == 0 then Err(InvalidRsdpRecord)
    else if rsdp.recordPhysicalStart + rsdp.recordByteLen >= TWO64 then Err(RsdpRecordRangeOverflow)
    else
      var start := AlignDown(rsdp.recordPhysicalStart, policy.mappingGranule);
      match AlignUp(rsdp.recordPhysicalStart + rsdp.recordByteLen, policy.mappingGranule)
      case None => Err(RsdpRecordRangeOverflow)
      case Some(end) =>
        var pages := (end - start) / policy.mappingGranule;
        if pages > policy.rsdpMaxIntersectingPages
        then Err(RsdpMappingPageLimitExceeded(pages, policy.rsdpMaxIntersectingPages))
        else if rsdp.retainedAllocation.physicalStart != start || rsdp.retainedAllocation.byteLen != end - start
        then Err(RsdpRetainedAllocationMismatch)
        else Ok(Mapping(RequiredAcpiRsdp, start, start, end - start, READ_ONLY_NX, rsdp.retainedAllocation.lifetime))
  }

  /** `validate_kernel_segment`. */
  function ValidateKernelSegment(k: KernelSegmentPages, granule: Word, imageLen: Word): (r: Check)
    requires granule > 0
    ensures r.Ok? ==> k.pages.physicalStart % granule == 0 && k.pages.byteLen == k.segment.mappingByteLen > 0
                      && !(k.segment.permissions.write && k.segment.permissions.execute)
  {
    var s := k.segment;
    var i := s.programHeaderIndex;
    if s.memorySize == 0 || s.fileSize > s.memorySize || !IsPowerOfTwo(s.alignment) || s.alignment < granule
    then Err(InvalidKernelSegment(i))
    else if s.fileOffset + s.fileSize >= TWO64 || s.fileOffset + s.fileSize > imageLen
    then Err(KernelSourceOutsideImage(i))
    else
      var _ :- ValidateRetained(k.pages, KernelSegment(i));
      if k.pages.physicalStart % granule != 0 then Err(PhysicalPagesUnaligned(KernelSegment(i)))
      else
        var start := AlignDown(s.virtualAddress, granule);
        var offset := s.virtualAddress - start;
        if offset + s.memorySize >= TWO64 then Err(RangeOverflow(KernelSegment(i)))
        else
          match AlignUp(offset + s.memorySize, granule)
          case None => Err(MappingRoundOverflow(KernelSegment(i)))
          case Some(required) =>
            if s.mappingVirtualAddress != start || s.mappingByteLen != required || s.segmentPageOffset != offset
            then Err(InvalidKernelSegment(i))
            else if k.pages.byteLen != s.mappingByteLen then Err(KernelPageLengthMismatch(i))
            else if s.permissions.write && s.permissions.execute then Err(WritableExecutable(KernelSegment(i)))
            else Ok(())
  }

  function KernelMapping(k: KernelSegmentPages): Mapping {
    Mapping(KernelSegment(k.segment.programHeaderIndex), k.pages.physicalStart, k.segment.mappingVirtualAddress,
            k.segment.mappingByteLen, Permissions(k.segment.permissions.write, k.segment.permissions.execute),
            k.pages.lifetime)
  }

  /** Where a kernel segment's file bytes go, or the overflow that forbids it. */
  function Materialize(k: KernelSegmentPages): Result<KernelMaterialization, TransitionError> {
    var kind := KernelSegment(k.segment.programHeaderIndex);
    var destination := k.pages.physicalStart + k.segment.segmentPageOffset;
    if destination >= TWO64 || destination + k.segment.fileSize >= TWO64 then Err(RangeOverflow(kind))
    else Ok(KernelMaterialization(k.segment.programHeaderIndex, k.pages, k.segment.fileOffset,
                                  k.segment.fileSize, destination))
  }

  lemma AlignDownExact(value: nat, g: nat)
    requires g > 0
    ensures AlignDown(value, g) <= value < AlignDown(value, g) + g && AlignDown(value, g) % g == 0
    ensures AlignDown(value, g) == g * (value / g)
  {
    DivModUnique(g * (value / g), g, value / g, 0);
  }

  /** A segment whose mapping is the smallest aligned range around its memory, on pages of that length. */
  ghost predicate Backed(k: KernelSegmentPages, g: Word, imageLen: Word)
    requires g > 0
  {
    var s := k.segment;
    && 0 < s.memorySize && s.fileSize <= s.memorySize && s.fileOffset + s.fileSize <= imageLen
    && IsPowerOfTwo(s.alignment) && s.alignment >= g && !(s.permissions.write && s.permissions.execute)
    && s.mappingVirtualAddress % g == 0 && s.mappingByteLen % g == 0
    && s.mappingVirtualAddress <= s.virtualAddress < s.mappingVirtualAddress + g
    && s.segmentPageOffset == s.virtualAddress - s.mappingVirtualAddress
    && s.segmentPageOffset + s.memorySize <= s.mappingByteLen < s.segmentPageOffset + s.memorySize + g <= TWO64
    && k.pages.lifetime.RetainedUntilReplacement? && k.pages.physicalStart % g == 0
    && k.pages.byteLen == s.mappingByteLen && k.pages.physicalStart + k.pages.byteLen < TWO64
  }

  /** `AlignDown` gives the one multiple at most a granule below. */
  lemma DownExact(x: nat, g: nat, d: nat)
    requires g > 0
    ensures d == AlignDown(x, g) <==> d % g == 0 && d <= x < d + g
  {
    AlignDownExact(x, g);
    if d % g == 0 && d <= x < d + g {
      assert d == g * (d / g);
      DivModUnique(x, g, d / g, x - d);
    }
  }

  lemma UpExact(x: nat, g: nat, u: nat)
    requires g > 0
    ensures AlignUp(x, g) == Some(u) <==> u % g == 0 && x <= u < x + g <= TWO64
  {
    DownExact(x + (g - 1), g, u);
  }

  /** The planner accepts exactly the segments that are backed. */
  lemma KernelSegmentExact(k: KernelSegmentPages, g: Word, imageLen: Word)
    requires g > 0
    ensures ValidateKernelSegment(k, g, imageLen).Ok? <==> Backed(k, g, imageLen)
  {
    var s := k.segment;
    var start := AlignDown(s.virtualAddress, g);
    var inside := s.virtualAddress - start + s.memorySize;
    DownExact(s.virtualAddress, g, s.mappingVirtualAddress);
    UpExact(inside, g, s.mappingByteLen);
  }

  /** Rounding both ends outwards gives exactly the surrounding range. */
  lemma SurroundsExact(m: Mapping, start: nat, end: nat, g: Word)
    requires g > 0
    ensures Surrounds(m, start, end, g) <==>
            m.virtualStart == m.physicalStart && m.virtualStart == AlignDown(start, g)
              && AlignUp(end, g) == Some(m.VirtualEnd())
  {
    DownExact(start, g, m.virtualStart);
    UpExact(end, g, m.VirtualEnd());
  }

  /** A retained range is mapped at its own address by exactly its surrounding granules. */
  lemma IdentityExact(kind: MappingKind, range: RetainedRange, permissions: Permissions, g: Word, m: Mapping)
    requires g > 0
    ensures IdentityMapping(kind, range, permissions, g) == Ok(m) <==>
            && ValidateRetained(range, kind).Ok? && m.kind == kind && m.permissions == permissions
            && m.lifetime == range.lifetime
            && Surrounds(m, range.physicalStart, range.physicalStart + range.byteLen, g)
  {
    var end := range.physicalStart + range.byteLen;
    SurroundsExact(m, range.physicalStart, end, g);
    IdentityIs(kind, range, permissions, g, AlignDown(range.physicalStart, g), end);
  }

  lemma IdentityIs(kind: MappingKind, range: RetainedRange, permissions: Permissions, g: Word, start: nat, end: nat)
    requires g > 0 && start == AlignDown(range.physicalStart, g) && end == range.physicalStart + range.byteLen
    ensures IdentityMapping(kind, range, permissions, g).Ok? <==>
            ValidateRetained(range, kind).Ok? && AlignUp(end, g).Some?
    ensures IdentityMapping(kind, range, permissions, g).Ok? ==>
            AlignUp(end, g).value >= start
            && IdentityMapping(kind, range, permissions, g).value
               == Mapping(kind, start, start, AlignUp(end, g).value - start, permissions, range.lifetime)
  {
  }

  /** The pages of an ACPI root pointer are accepted exactly when they are the granules around its record, and few
      enough. */
  lemma RsdpExact(rsdp: RsdpInput, policy: Policy, m: Mapping)
    requires policy.mappingGranule > 0
    ensures var pages, start := rsdp.retainedAllocation, rsdp.recordPhysicalStart;
            RsdpMapping(rsdp, policy) == Ok(m) <==>
            && ValidateRetained(pages, RequiredAcpiRsdp).Ok? && rsdp.recordByteLen != 0
            && start + rsdp.recordByteLen < TWO64
            && m.kind == RequiredAcpiRsdp && m.permissions == READ_ONLY_NX && m.lifetime == pages.lifetime
            && m.physicalStart == pages.physicalStart && m.byteLen == pages.byteLen
            && m.byteLen / policy.mappingGranule <= policy.rsdpMaxIntersectingPages
            && Surrounds(m, start, start + rsdp.recordByteLen, policy.mappingGranule)
  {
    SurroundsExact(m, rsdp.recordPhysicalStart, rsdp.recordPhysicalStart + rsdp.recordByteLen, policy.mappingGranule);
  }

  /** The copy of a backed segment stays inside its pages, so it cannot overflow. */
  lemma MaterializeFits(k: KernelSegmentPages, g: Word, imageLen: Word)
    requires g > 0 && ValidateKernelSegment(k, g, imageLen).Ok?
    ensures Materialize(k).Ok?
    ensures var m := Materialize(k).value;
            k.pages.physicalStart <= m.copyDestination
              && m.copyDestination + m.fileSize <= k.pages.physicalStart + k.pages.byteLen
  {
    KernelSegmentExact(k, g, imageLen);
  }

  /** The identity ranges of one handoff, in the order the planner pushes them. */
  datatype IdentityRequest =
    | Plain(kind: MappingKind, range: RetainedRange, permissions: Permissions)
    | Rsdp(rsdp: RsdpInput)
    | Stack(range: RetainedRange)

  function OptionalRequest(kind: MappingKind, range: Option<RetainedRange>): seq<IdentityRequest> {
    if range.Some? then [Plain(kind, range.value, READ_ONLY_NX)] else []
  }

  function IdentityRequests(id: IdentityInputs): seq<IdentityRequest> {
    [Plain(BootInfo, id.bootInfo, READ_ONLY_NX),
     Plain(MemoryMapTable, id.memoryMapTable, READ_ONLY_NX),
     Plain(ModuleTable, id.moduleTable, READ_ONLY_NX)]
    + seq(|id.moduleData|, i requires 0 <= i < |id.moduleData| => Plain(ModuleData(i), id.moduleData[i], READ_ONLY_NX))
    + OptionalRequest(CommandLine, id.commandLine)
    + OptionalRequest(Entropy, id.entropy)
    + (if id.validatedRsdp.Some? then [Rsdp(id.validatedRsdp.value)] else [])
    + [Plain(HandoffStub, id.handoffStub, Permissions(false, true)), Stack(id.transitionStack)]
  }

  function RequestMapping(q: IdentityRequest, policy: Policy): (r: Result<Mapping, TransitionError>)
    requires policy.mappingGranule > 0 && policy.transitionStackAlignment > 0
    ensures r.Ok? ==> r.value.byteLen > 0
  {
    match q
    case Plain(kind, range, permissions) => IdentityMapping(kind, range, permissions, policy.mappingGranule)
    case Rsdp(rsdp) => RsdpMapping(rsdp, policy)
    case Stack(range) =>
      if range.byteLen != policy.transitionStackSize || range.physicalStart % policy.transitionStackAlignment != 0
         || ValidateRetained(range, TransitionStack).Err?
      then Err(InvalidTransitionStack)
      else IdentityMapping(TransitionStack, range, WRITABLE_NX, policy.mappingGranule)
  }

  ghost predicate KernelMappingsOf(ks: seq<KernelSegmentPages>, ms: seq<Mapping>) {
    |ms| == |ks| && forall i :: 0 <= i < |ks| ==> ms[i] == KernelMapping(ks[i])
  }

  ghost predicate RequestMappingsOf(qs: seq<IdentityRequest>, policy: Policy, ms: seq<Mapping>)
    requires policy.mappingGranule > 0 && policy.transitionStackAlignment > 0
  {
    |ms| == |qs| && forall i :: 0 <= i < |qs| ==> RequestMapping(qs[i], policy) == Ok(ms[i])
  }

  // ---- What the candidates map -----------------------------------------------------------

  ghost predicate IsRequest(id: IdentityInputs, q: IdentityRequest) {
    match q
    case Plain(kind, range, permissions) =>
      && (kind.BootInfo? || kind.MemoryMapTable? || kind.ModuleTable? || kind.ModuleData? || kind.CommandLine?
          || kind.Entropy? || kind.HandoffStub?)
      && Handed(id, kind) == Some(HandedRange(range.physicalStart, range.byteLen, permissions))
      && Allocated(id, kind) == Some(range)
    case Rsdp(rsdp) => id.validatedRsdp == Some(rsdp)
    case Stack(range) => range == id.transitionStack
  }

  function KindOf(q: IdentityRequest): MappingKind {
    match q
    case Plain(kind, _, _) => kind
    case Rsdp(_) => RequiredAcpiRsdp
    case Stack(_) => TransitionStack
  }

  lemma RequestsAreHanded(id: IdentityInputs, q: IdentityRequest)
    requires q in IdentityRequests(id)
    ensures IsRequest(id, q)
  {
  }

  lemma HandedIsRequested(id: IdentityInputs, kind: MappingKind) returns (q: IdentityRequest)
    requires Handed(id, kind).Some?
    ensures q in IdentityRequests(id) && KindOf(q) == kind
  {
    var qs := IdentityRequests(id);
    match kind {
      case BootInfo => q := qs[0];
      case MemoryMapTable => q := qs[1];
      case ModuleTable => q := qs[2];
      case ModuleData(i) => q := qs[3 + i];
      case CommandLine => q := Plain(CommandLine, id.commandLine.value, READ_ONLY_NX);
      case Entropy => q := Plain(Entropy, id.entropy.value, READ_ONLY_NX);
      case RequiredAcpiRsdp => q := Rsdp(id.validatedRsdp.value);
      case HandoffStub => q := qs[|qs| - 2];
      case TransitionStack => q := qs[|qs| - 1];
    }
  }

  /** A request is granted as exactly the mapping of the range handed under its kind. */
  lemma RequestExact(id: IdentityInputs, policy: Policy, q: IdentityRequest, m: Mapping)
    requires policy.mappingGranule > 0 && policy.transitionStackAlignment > 0 && q in IdentityRequests(id)
    ensures RequestMapping(q, policy) == Ok(m) <==> m.kind == KindOf(q) && MapsHanded(id, policy, m)
  {
    RequestsAreHanded(id, q);
    match q {
      case Plain(kind, range, permissions) => IdentityExact(kind, range, permissions, policy.mappingGranule, m);
      case Rsdp(rsdp) => RsdpExact(rsdp, policy, m);
      case Stack(range) => IdentityExact(TransitionStack, range, WRITABLE_NX, policy.mappingGranule, m);
    }
  }

  lemma RequestCount(id: IdentityInputs)
    ensures |IdentityRequests(id)| == HandedCount(id)
  {
  }

  lemma RequestTakes(id: IdentityInputs, policy: Policy, q: IdentityRequest, m: Mapping, v: nat, p: int,
                     permissions: Permissions)
    requires policy.mappingGranule > 0 && policy.transitionStackAlignment > 0
    requires q in IdentityRequests(id) && RequestMapping(q, policy) == Ok(m)
    ensures m.kind == KindOf(q) && Handed(id, m.kind).Some?
    ensures var h := Handed(id, m.kind).value;
            Takes(m, m.kind, v, p, permissions) <==>
            p == v && permissions == h.permissions && Near(v, h.start, h.len, policy.mappingGranule)
  {
    RequestExact(id, policy, q, m);
    var h := Handed(id, m.kind).value;
    HullIsNear(m.virtualStart, m.VirtualEnd(), h.start, h.len, policy.mappingGranule, v);
  }

  lemma AlignedEnd(a: nat, b: nat, g: nat)
    requires g > 0 && a % g == 0 && b % g == 0
    ensures (a + b) % g == 0
  {
    var x, y := a / g, b / g;
    assert a + b == g * (x + y);
    DivModUnique(a + b, g, x + y, 0);
  }

  lemma KernelTakes(k: KernelSegmentPages, g: Word, imageLen: Word, kind: MappingKind, v: nat, p: int,
                    permissions: Permissions)
    requires g > 0 && Backed(k, g, imageLen)
    ensures Takes(KernelMapping(k), kind, v, p, permissions) <==> SegmentTakes(k, g, kind, v, p, permissions)
  {
    var s := k.segment;
    DownExact(s.virtualAddress, g, s.mappingVirtualAddress);
    AlignedEnd(s.mappingVirtualAddress, s.mappingByteLen, g);
    HullIsNear(s.mappingVirtualAddress, s.mappingVirtualAddress + s.mappingByteLen, s.virtualAddress,
               s.memorySize, g, v);
  }

  /** The candidates map exactly what the input asks for, so every arrangement of them does. */
  lemma ArrangementMaps(input: PreflightInput, ms: seq<Mapping>)
    requires input.policy.mappingGranule > 0 && input.policy.transitionStackAlignment > 0
    requires MapsInput(input, ms) && SegmentsBacked(input)
    ensures MapsExactly(input, ms)
  {
    var qs := IdentityRequests(input.identity);
    var kernel, identity :| KernelMappingsOf(input.kernelSegments, kernel)
                            && RequestMappingsOf(qs, input.policy, identity) && Permutation(ms, kernel + identity);
    forall kind, v: nat, p: int, permissions
      ensures Mapped(ms, kind, v, p, permissions) <==> Wants(input, kind, v, p, permissions)
    {
      MappedByPart(ms, kernel, identity, kind, v, p, permissions);
      KernelPart(input, kernel, kind, v, p, permissions);
      IdentityPart(input, identity, kind, v, p, permissions);
    }
  }

  lemma MappedByPart(ms: seq<Mapping>, kernel: seq<Mapping>, identity: seq<Mapping>, kind: MappingKind, v: nat, p: int,
                     permissions: Permissions)
    requires Permutation(ms, kernel + identity)
    ensures Mapped(ms, kind, v, p, permissions) <==>
            Mapped(kernel, kind, v, p, permissions) || Mapped(identity, kind, v, p, permissions)
  {
    forall m ensures m in ms <==> m in kernel || m in identity {
      if m in ms { PermutationMember(ms, kernel + identity, m); }
      if m in kernel || m in identity { PermutationMember(kernel + identity, ms, m); }
    }
  }

  lemma KernelPart(input: PreflightInput, kernel: seq<Mapping>, kind: MappingKind, v: nat, p: int,
                   permissions: Permissions)
    requires input.policy.mappingGranule > 0 && SegmentsBacked(input)
    requires KernelMappingsOf(input.kernelSegments, kernel)
    ensures Mapped(kernel, kind, v, p, permissions) <==>
            exists k :: k in input.kernelSegments
                        && SegmentTakes(k, input.policy.mappingGranule, kind, v, p, permissions)
  {
    var ks, g := input.kernelSegments, input.policy.mappingGranule;
    forall i | 0 <= i < |ks|
      ensures Takes(kernel[i], kind, v, p, permissions) <==> SegmentTakes(ks[i], g, kind, v, p, permissions)
    {
      assert ks[i] in ks;
      KernelTakes(ks[i], g, input.kernelImageByteLen, kind, v, p, permissions);
    }
    if Mapped(kernel, kind, v, p, permissions) {
      var m :| m in kernel && Takes(m, kind, v, p, permissions);
      var i :| 0 <= i < |kernel| && kernel[i] == m;
      assert ks[i] in ks && SegmentTakes(ks[i], g, kind, v, p, permissions);
    }
    if k :| k in ks && SegmentTakes(k, g, kind, v, p, permissions) {
      var i :| 0 <= i < |ks| && ks[i] == k;
      assert kernel[i] in kernel;
    }
  }

  lemma IdentityPart(input: PreflightInput, identity: seq<Mapping>, kind: MappingKind, v: nat, p: int,
                     permissions: Permissions)
    requires input.policy.mappingGranule > 0 && input.policy.transitionStackAlignment > 0
    requires RequestMappingsOf(IdentityRequests(input.identity), input.policy, identity)
    ensures Mapped(identity, kind, v, p, permissions) <==>
            p == v && Handed(input.identity, kind).Some?
            && var h := Handed(input.identity, kind).value;
               permissions == h.permissions && Near(v, h.start, h.len, input.policy.mappingGranule)
  {
    var id, qs := input.identity, IdentityRequests(input.identity);
    if Mapped(identity, kind, v, p, permissions) {
      var m :| m in identity && Takes(m, kind, v, p, permissions);
      var i :| 0 <= i < |identity| && identity[i] == m;
      RequestTakes(id, input.policy, qs[i], m, v, p, permissions);
    }
    if p == v && Handed(id, kind).Some? && permissions == Handed(id, kind).value.permissions
       && Near(v, Handed(id, kind).value.start, Handed(id, kind).value.len, input.policy.mappingGranule)
    {
      var q := HandedIsRequested(id, kind);
      var i :| 0 <= i < |qs| && qs[i] == q;
      RequestTakes(id, input.policy, q, identity[i], v, p, permissions);
      assert identity[i] in identity;
    }
  }

  /** Bytes of a range are near it. */
  lemma InsideIsNear(v: nat, start: nat, len: nat, g: nat)
    requires g > 0 && start <= v < start + len
    ensures Near(v, start, len, g)
  {
    assert SameGranule(v, v, g);
  }

  lemma HandedIsMapped(input: PreflightInput, ms: seq<Mapping>, kind: MappingKind, v: nat)
    requires input.policy.mappingGranule > 0 && MapsExactly(input, ms) && Handed(input.identity, kind).Some?
    requires var h := Handed(input.identity, kind).value; h.start <= v < h.start + h.len
    ensures Mapped(ms, kind, v, v, Handed(input.identity, kind).value.permissions)
  {
    var h := Handed(input.identity, kind).value;
    InsideIsNear(v, h.start, h.len, input.policy.mappingGranule);
    assert Wants(input, kind, v, v, h.permissions);
  }

  /** A byte of a segment's memory is mapped to the corresponding byte of its pages. */
  lemma SegmentByteMapped(input: PreflightInput, ms: seq<Mapping>, k: KernelSegmentPages, b: nat)
    requires input.policy.mappingGranule > 0 && MapsExactly(input, ms) && k in input.kernelSegments
    requires Backed(k, input.policy.mappingGranule, input.kernelImageByteLen) && b < k.segment.memorySize
    ensures Mapped(ms, KernelSegment(k.segment.programHeaderIndex), k.segment.virtualAddress + b,
                   k.pages.physicalStart + k.segment.segmentPageOffset + b,
                   Permissions(k.segment.permissions.write, k.segment.permissions.execute))
  {
    var s, g := k.segment, input.policy.mappingGranule;
    var v, p := s.virtualAddress + b, k.pages.physicalStart + s.segmentPageOffset + b;
    DownExact(s.virtualAddress, g, s.mappingVirtualAddress);
    InsideIsNear(v, s.virtualAddress, s.memorySize, g);
    assert SegmentTakes(k, g, KernelSegment(s.programHeaderIndex), v, p,
                        Permissions(s.permissions.write, s.permissions.execute));
    assert Wants(input, KernelSegment(s.programHeaderIndex), v, p,
                 Permissions(s.permissions.write, s.permissions.execute));
  }

  lemma CopiesMatch(input: PreflightInput, ms: seq<Mapping>, copies: seq<KernelMaterialization>)
    requires input.policy.mappingGranule > 0 && MapsExactly(input, ms) && SegmentsBacked(input)
    requires CopiesOf(input.kernelSegments, copies)
    ensures CopiesInput(input.kernelSegments, copies, ms)
  {
    forall i | 0 <= i < |copies| ensures CopiesSegment(input.kernelSegments[i], copies[i], ms) {
      var k := input.kernelSegments[i];
      assert k in input.kernelSegments;
      forall b: nat | b < k.segment.fileSize ensures CopiedByte(k.segment, copies[i], ms, b) {
        SegmentByteMapped(input, ms, k, b);
      }
    }
  }

  ghost predicate CopiesOf(ks: seq<KernelSegmentPages>, copies: seq<KernelMaterialization>) {
    |copies| == |ks| && forall i :: 0 <= i < |ks| ==> Materialize(ks[i]) == Ok(copies[i])
  }

  /** Every mapped byte stays allocated. */
  ghost predicate AllRetained(ms: seq<Mapping>) {
    forall m :: m in ms ==> m.lifetime == RetainedUntilReplacement
  }

  lemma ArrangementRetained(input: PreflightInput, ms: seq<Mapping>)
    requires input.policy.mappingGranule > 0 && input.policy.transitionStackAlignment > 0
    requires MapsInput(input, ms) && SegmentsBacked(input)
    ensures AllRetained(ms) && input.identity.bootInfo.byteLen > 0
  {
    var ks, qs := input.kernelSegments, IdentityRequests(input.identity);
    var kernel, identity :| KernelMappingsOf(ks, kernel) && RequestMappingsOf(qs, input.policy, identity)
                            && Permutation(ms, kernel + identity);
    assert qs[0] in qs && RequestMapping(qs[0], input.policy) == Ok(identity[0]);
    RequestExact(input.identity, input.policy, qs[0], identity[0]);
    forall m | m in ms ensures m.lifetime == RetainedUntilReplacement {
      PermutationMember(ms, kernel + identity, m);
      if i :| 0 <= i < |kernel| && kernel[i] == m {
        assert ks[i] in ks;
      } else {
        var i :| 0 <= i < |identity| && identity[i] == m;
        RequestExact(input.identity, input.policy, qs[i], m);
      }
    }
  }

  /** The plan's values are copied from the input. */
  predicate CarriesInput(input: PreflightInput, plan: PreflightPlan) {
    && plan.policy == input.policy && plan.framebufferPixels == input.identity.framebufferPixels
    && plan.kernelEntry == input.kernelEntry && plan.bootInfoPointer == input.identity.bootInfo.physicalStart
    && plan.handoffStubEntry == input.identity.handoffStubEntry
    && plan.stackPointer == input.identity.transitionStack.physicalStart + input.identity.transitionStack.byteLen
  }

  lemma PixelsAreKept(fb: Option<PhysicalRange>, ms: seq<Mapping>, g: Word)
    requires g > 0 && PixelsUnmapped(ms, fb, g)
    ensures PixelsKept(fb, ms, g)
  {
    if fb.Some? {
      var start, len := fb.value.physicalStart, fb.value.byteLen;
      var hull := ExcludedPixels(fb.value, g).value;
      DownExact(start, g, hull.start);
      UpExact(start + len, g, hull.End());
      forall kind, v: nat, p: nat, permissions | Mapped(ms, kind, v, p, permissions) ensures !Near(p, start, len, g) {
        var m :| m in ms && Takes(m, kind, v, p, permissions);
        assert !MapsPixels(m, hull);
        HullIsNear(hull.start, hull.End(), start, len, g, p);
      }
    }
  }

  /** The handed values are mapped for their use. */
  lemma HandoffIsMapped(input: PreflightInput, plan: PreflightPlan)
    requires input.policy.mappingGranule > 0 && MapsExactly(input, plan.mappings) && SegmentsBacked(input)
    requires input.policy.bootInfoAlignment > 0 && input.policy.stackPointerAlignment > 0 && HandoffOk(input)
    requires input.identity.bootInfo.byteLen > 0 && MappingsHardened(plan.mappings) && CarriesInput(input, plan)
    ensures HandsOver(input, plan)
  {
    HandedIsMapped(input, plan.mappings, BootInfo, plan.bootInfoPointer);
    HandedIsMapped(input, plan.mappings, HandoffStub, plan.handoffStubEntry);
    forall v: nat | input.identity.transitionStack.physicalStart <= v < plan.stackPointer
      ensures StackByte(plan.mappings, v)
    {
      HandedIsMapped(input, plan.mappings, TransitionStack, v);
    }
    EntryIsMapped(input, plan.mappings);
  }

  ghost predicate MappingsHardened(ms: seq<Mapping>) {
    forall m :: m in ms ==> !(m.permissions.writable && m.permissions.executable)
  }

  lemma EntryIsMapped(input: PreflightInput, ms: seq<Mapping>)
    requires input.policy.mappingGranule > 0 && MapsExactly(input, ms) && SegmentsBacked(input) && MappingsHardened(ms)
    requires exists k :: k in input.kernelSegments && EntersCode(k, input.kernelEntry)
    ensures exists i, p :: Mapped(ms, KernelSegment(i), input.kernelEntry, p, Permissions(false, true))
  {
    var k :| k in input.kernelSegments && EntersCode(k, input.kernelEntry);
    var s, b := k.segment, input.kernelEntry - k.segment.virtualAddress;
    SegmentByteMapped(input, ms, k, b);
    var p := k.pages.physicalStart + s.segmentPageOffset + b;
    assert Mapped(ms, KernelSegment(s.programHeaderIndex), input.kernelEntry, p, Permissions(false, true));
  }

  // ---- Table count -----------------------------------------------------------------------

  /** Tables of a four-level hierarchy covering the mappings, an identity range and the temporary path. */
  ghost function RequiredPages(ms: seq<Mapping>, identity: Option<Extent>, abi: Abi, granule: nat): nat
    requires granule > 0
  {
    1 + |AllRegions(Extents(ms), identity, abi.temporary, granule * 512)|
    + |AllRegions(Extents(ms), identity, abi.temporary, granule * 512 * 512)|
    + |AllRegions(Extents(ms), identity, abi.temporary, granule * 512 * 512 * 512)|
  }

  predicate CoverageFits(granule: nat) { granule * 512 * 512 * 512 < TWO64 }

  /** `required_page_table_pages`. */
  method RequiredPageTablePages(ms: seq<Mapping>, identity: Option<Extent>, abi: Abi, granule: Word)
    returns (r: Result<nat, TransitionError>)
    requires granule > 0 && SortedDisjoint(Extents(ms)) && IdentityFits(identity) && abi.temporary < TWO64 - 1
    ensures r == if CoverageFits(granule)
                 then Ok(RequiredPages(ms, identity, abi, granule)) else Err(PageTableCountOverflow)
  {
    if !CoverageFits(granule) {
      return Err(PageTableCountOverflow);
    }
    r := SumLevels(Extents(ms), identity, abi.temporary, granule * 512, granule * 512 * 512, granule * 512 * 512 * 512);
  }

  /** The root and the tables of three coverages. */
  method SumLevels(es: seq<Extent>, identity: Option<Extent>, temporary: Word, low: Word, middle: Word, high: Word)
    returns (r: Result<nat, TransitionError>)
    requires SortedDisjoint(es) && IdentityFits(identity) && temporary < TWO64 - 1 && 512 <= low && 512 <= middle
             && 512 <= high
    ensures r == Ok(1 + |AllRegions(es, identity, temporary, low)| + |AllRegions(es, identity, temporary, middle)|
                    + |AllRegions(es, identity, temporary, high)|)
  {
    LevelFits(es, identity, temporary, low);
    LevelFits(es, identity, temporary, middle);
    LevelFits(es, identity, temporary, high);
    var pts := DistinctRegionsWithAdditions(es, identity, temporary, low);
    var pds := DistinctRegionsWithAdditions(es, identity, temporary, middle);
    var pdpts := DistinctRegionsWithAdditions(es, identity, temporary, high);
    if pts.Overflow? || pds.Overflow? || pdpts.Overflow? || 1 + pts.count + pds.count + pdpts.count >= TWO64 {
      return Err(PageTableCountOverflow);
    }
    r := Ok(1 + pts.count + pds.count + pdpts.count);
  }

  /** Tables cover at least 512 bytes each, so the four levels together stay far below 2^64. */
  lemma LevelFits(es: seq<Extent>, identity: Option<Extent>, temporary: nat, coverage: nat)
    requires coverage >= 512 && SortedDisjoint(es) && IdentityFits(identity) && temporary < TWO64 - 1
    ensures |AllRegions(es, identity, temporary, coverage)| < 0x100_0000_0000_0000
  {
    AllRegionsFit(es, identity, temporary, coverage);
    DivByMore(TWO64 - 2, 512, coverage);
  }

  /** The count with `n` table pages identity-mapped from `start`; its fixed points are self-covering. */
  ghost function SelfCovering(ms: seq<Mapping>, start: nat, n: nat, abi: Abi, granule: nat): nat
    requires granule > 0
  {
    RequiredPages(ms, Some(Extent(start, n * granule)), abi, granule)
  }

  lemma RequiredMonotone(ms: seq<Mapping>, a: Option<Extent>, b: Option<Extent>, abi: Abi, granule: nat)
    requires granule > 0
    requires a.Some? ==> b.Some? && a.value.start == b.value.start && a.value.len <= b.value.len
    ensures RequiredPages(ms, a, abi, granule) <= RequiredPages(ms, b, abi, granule)
  {
    var es := Extents(ms);
    AllRegionsMonotone(es, a, b, abi.temporary, granule * 512);
    AllRegionsMonotone(es, a, b, abi.temporary, granule * 512 * 512);
    AllRegionsMonotone(es, a, b, abi.temporary, granule * 512 * 512 * 512);
  }

  lemma SelfCoveringMonotone(ms: seq<Mapping>, start: nat, m: nat, n: nat, abi: Abi, granule: nat)
    requires granule > 0 && m <= n
    ensures SelfCovering(ms, start, m, abi, granule) <= SelfCovering(ms, start, n, abi, granule)
  {
    MulOrder(granule, m, n);
    RequiredMonotone(ms, Some(Extent(start, m * granule)), Some(Extent(start, n * granule)), abi, granule);
  }

  /** The temporary path alone needs one table of each level besides the root. */
  lemma RequiredAtLeastFour(ms: seq<Mapping>, identity: Option<Extent>, abi: Abi, granule: nat)
    requires granule > 0
    ensures RequiredPages(ms, identity, abi, granule) >= 4
  {
    AtLeastOne(Extents(ms), identity, abi.temporary, granule * 512);
    AtLeastOne(Extents(ms), identity, abi.temporary, granule * 512 * 512);
    AtLeastOne(Extents(ms), identity, abi.temporary, granule * 512 * 512 * 512);
  }

  lemma AtLeastOne(es: seq<Extent>, identity: Option<Extent>, temporary: nat, coverage: nat)
    requires coverage > 0
    ensures |AllRegions(es, identity, temporary, coverage)| >= 1
  {
    SubsetSize({temporary / coverage}, AllRegions(es, identity, temporary, coverage));
  }

  // ---- Preflight -------------------------------------------------------------------------

  predicate PolicyOk(policy: Policy, abi: Abi)
    ensures PolicyOk(policy, abi) ==>
            policy.mappingGranule > 0 && policy.transitionStackAlignment > 0
            && policy.stackPointerAlignment > 0 && policy.bootInfoAlignment > 0
  {
    && IsPowerOfTwo(policy.mappingGranule)
    && policy.rsdpMaxIntersectingPages != 0
    && policy.transitionStackSize != 0
    && policy.transitionStackSize % policy.mappingGranule == 0
    && IsPowerOfTwo(policy.transitionStackAlignment)
    && policy.transitionStackAlignment >= policy.mappingGranule
    && IsPowerOfTwo(policy.stackPointerAlignment)
    && IsPowerOfTwo(policy.bootInfoAlignment)
    && abi.minTableFrames == |abi.temporaryIndices|
    && abi.minTableFrames <= abi.maxTableFrames
    && abi.temporaryIndices == IndexesFor(abi.temporary)
  }

  /** The policies with which a transition can be planned. */
  ghost predicate SoundPolicy(policy: Policy, abi: Abi) {
    && IsPower(policy.mappingGranule) && IsPower(policy.transitionStackAlignment)
    && IsPower(policy.stackPointerAlignment) && IsPower(policy.bootInfoAlignment)
    && policy.rsdpMaxIntersectingPages > 0
    && (exists pages: nat :: pages > 0 && policy.transitionStackSize == Times(pages, policy.mappingGranule))
    && policy.mappingGranule <= policy.transitionStackAlignment
    && abi.minTableFrames == 4 <= abi.maxTableFrames
    && |abi.temporaryIndices| == 4
    && (forall d :: 0 <= d < 4 ==> abi.temporaryIndices[d] == abi.temporary / Pow2(39 - 9 * d) % 512)
  }

  ghost predicate IsPower(x: nat) { exists k: nat :: x == Pow2(k) }

  function Times(a: nat, b: nat): nat { a * b }

  lemma {:induction false} PowerExact(x: nat)
    ensures IsPowerOfTwo(x) <==> IsPower(x)
  {
    if x == 1 {
      assert x == Pow2(0);
    } else if x > 1 && x % 2 == 0 {
      PowerExact(x / 2);
      if IsPower(x / 2) {
        var k: nat :| x / 2 == Pow2(k);
        assert x == Pow2(k + 1);
      }
      if IsPower(x) {
        var k: nat :| x == Pow2(k);
        assert k > 0 && x / 2 == Pow2(k - 1);
      }
    } else {
      forall k: nat ensures Pow2(k) == 1 || Pow2(k) % 2 == 0 {
      }
    }
  }

  lemma PolicyExact(policy: Policy, abi: Abi)
    ensures PolicyOk(policy, abi) <==> SoundPolicy(policy, abi)
  {
    PowerExact(policy.mappingGranule);
    PowerExact(policy.transitionStackAlignment);
    PowerExact(policy.stackPointerAlignment);
    PowerExact(policy.bootInfoAlignment);
    if policy.mappingGranule > 0 { MultipleExact(policy.transitionStackSize, policy.mappingGranule); }
    IndicesExact(abi);
  }

  lemma MultipleExact(size: nat, g: nat)
    requires g > 0
    ensures size != 0 && size % g == 0 <==> exists pages: nat :: pages > 0 && size == Times(pages, g)
  {
    if size != 0 && size % g == 0 {
      assert size == Times(size / g, g) && size / g > 0;
    }
    if pages: nat :| pages > 0 && size == Times(pages, g) {
      MultipleAligned(pages, g);
      MulOrder(g, 1, pages);
    }
  }

  lemma IndicesExact(abi: Abi)
    ensures abi.temporaryIndices == IndexesFor(abi.temporary) <==>
            |abi.temporaryIndices| == 4
            && forall d :: 0 <= d < 4 ==> abi.temporaryIndices[d] == abi.temporary / Pow2(39 - 9 * d) % 512
  {
    PowersOfTwo();
  }

  function KindOrder(kind: MappingKind): (nat, nat) {
    match kind
    case KernelSegment(i) => (0, i)
    case BootInfo => (1, 0)
    case MemoryMapTable => (2, 0)
    case ModuleTable => (3, 0)
    case ModuleData(i) => (4, i)
    case CommandLine => (5, 0)
    case Entropy => (6, 0)
    case RequiredAcpiRsdp => (7, 0)
    case HandoffStub => (8, 0)
    case TransitionStack => (9, 0)
    case TransitionTableIdentity => (10, 0)
  }

  predicate PairLeq(a: (nat, nat), b: (nat, nat)) { a.0 < b.0 || (a.0 == b.0 && a.1 <= b.1) }

  /** Virtual start, then physical start, then kind. */
  predicate MappingLeq(a: Mapping, b: Mapping) {
    a.virtualStart < b.virtualStart
    || (a.virtualStart == b.virtualStart
        && (a.physicalStart < b.physicalStart
            || (a.physicalStart == b.physicalStart && PairLeq(KindOrder(a.kind), KindOrder(b.kind)))))
  }

  lemma MappingLeqTotal()
    ensures TotalOrder(MappingLeq)
  {
  }

  predicate EntryExecutable(k: KernelSegmentPages, entry: Word) {
    var s := k.segment;
    s.virtualAddress + s.memorySize < TWO64 && s.permissions.execute
    && s.virtualAddress <= entry < s.virtualAddress + s.memorySize
  }

  /** A mapping list the page-table encoder can be given. */
  ghost predicate MappingsReady(ms: seq<Mapping>, abi: Abi, granule: nat)
    requires granule > 0
  {
    && (forall i :: 0 <= i < |ms| ==> ms[i].byteLen > 0 && MappingOk(ms[i], granule))
    && VirtuallyDisjoint(ms) && PhysicallyDisjoint(ms) && SlotFree(ms, abi)
  }

  lemma ReadySorted(ms: seq<Mapping>, abi: Abi, granule: nat)
    requires granule > 0 && MappingsReady(ms, abi, granule)
    ensures SortedDisjoint(Extents(ms))
  {
  }

  ghost predicate PreflightReady(p: PreflightPlan, abi: Abi) {
    && p.policy.mappingGranule > 0 && CoverageFits(p.policy.mappingGranule)
    && MappingsReady(p.mappings, abi, p.policy.mappingGranule)
    && PixelsUnmapped(p.mappings, p.framebufferPixels, p.policy.mappingGranule)
    && p.capacityPages == abi.maxTableFrames
    && p.minimumPages == RequiredPages(p.mappings, None, abi, p.policy.mappingGranule) <= p.capacityPages
  }

  /** The plan maps exactly the kernel segments and the requested identity ranges. */
  ghost predicate MapsInput(input: PreflightInput, ms: seq<Mapping>)
    requires input.policy.mappingGranule > 0 && input.policy.transitionStackAlignment > 0
  {
    exists kernel, identity ::
      && KernelMappingsOf(input.kernelSegments, kernel)
      && RequestMappingsOf(IdentityRequests(input.identity), input.policy, identity)
      && Permutation(ms, kernel + identity)
  }

  /** What an accepted preflight maps: the input's mappings in the one order that keeps them disjoint. */
  ghost predicate Arranged(abi: Abi, input: PreflightInput, ms: seq<Mapping>)
    requires input.policy.mappingGranule > 0 && input.policy.transitionStackAlignment > 0
  {
    MapsInput(input, ms) && MappingsReady(ms, abi, input.policy.mappingGranule)
    && PixelsUnmapped(ms, input.identity.framebufferPixels, input.policy.mappingGranule)
  }

  ghost predicate SegmentsBacked(input: PreflightInput)
    requires input.policy.mappingGranule > 0
  {
    forall k :: k in input.kernelSegments ==> Backed(k, input.policy.mappingGranule, input.kernelImageByteLen)
  }

  ghost predicate SlotsSuffice(input: PreflightInput, mappingSlots: nat, materializationSlots: nat) {
    var required := |input.kernelSegments| + HandedCount(input.identity);
    required < TWO64 && required <= mappingSlots && |input.kernelSegments| <= materializationSlots
  }

  ghost predicate Collectable(abi: Abi, input: PreflightInput, mappingSlots: nat, materializationSlots: nat)
    requires input.policy.mappingGranule > 0 && input.policy.transitionStackAlignment > 0
  {
    SlotsSuffice(input, mappingSlots, materializationSlots) && SegmentsBacked(input) && Arrangeable(abi, input)
  }

  ghost predicate Arrangeable(abi: Abi, input: PreflightInput)
    requires input.policy.mappingGranule > 0 && input.policy.transitionStackAlignment > 0
  {
    exists ms :: Arranged(abi, input, ms)
  }

  /** The arrangement needs no more tables than there is capacity for. */
  ghost predicate RoomEnough(abi: Abi, input: PreflightInput)
    requires input.policy.mappingGranule > 0 && input.policy.transitionStackAlignment > 0
  {
    exists ms :: Arranged(abi, input, ms)
                 && RequiredPages(ms, None, abi, input.policy.mappingGranule) <= abi.maxTableFrames
  }

  lemma RoomOfArrangement(abi: Abi, input: PreflightInput, ms: seq<Mapping>)
    requires input.policy.mappingGranule > 0 && input.policy.transitionStackAlignment > 0 && Arranged(abi, input, ms)
    ensures RoomEnough(abi, input) <==> RequiredPages(ms, None, abi, input.policy.mappingGranule) <= abi.maxTableFrames
  {
    if RoomEnough(abi, input) {
      var other :| Arranged(abi, input, other)
                   && RequiredPages(other, None, abi, input.policy.mappingGranule) <= abi.maxTableFrames;
      ArrangedOnce(abi, input, ms, other);
    }
  }

  /** The values that enter the kernel: its entry is code, the records and the stack are aligned, the stub entry is
      in the stub. */
  ghost predicate HandoffOk(input: PreflightInput)
    requires input.policy.bootInfoAlignment > 0 && input.policy.stackPointerAlignment > 0
  {
    var stack, stub := input.identity.transitionStack, input.identity.handoffStub;
    && (exists k :: k in input.kernelSegments && EntersCode(k, input.kernelEntry))
    && input.identity.bootInfo.physicalStart % input.policy.bootInfoAlignment == 0
    && stack.physicalStart + stack.byteLen < TWO64
    && (stack.physicalStart + stack.byteLen) % input.policy.stackPointerAlignment == 0
    && stub.physicalStart <= input.identity.handoffStubEntry < stub.physicalStart + stub.byteLen < TWO64
  }

  /** The inputs the preflight accepts. */
  ghost predicate Preflightable(abi: Abi, input: PreflightInput, mappingSlots: nat, materializationSlots: nat) {
    && PolicyOk(input.policy, abi) && Collectable(abi, input, mappingSlots, materializationSlots)
    && CoverageFits(input.policy.mappingGranule) && RoomEnough(abi, input) && HandoffOk(input)
  }

  /** Disjoint mappings have one sorted arrangement, so the sorted candidates are it. */
  lemma SortedIsArranged(abi: Abi, input: PreflightInput, sorted: seq<Mapping>, ms: seq<Mapping>)
    requires input.policy.mappingGranule > 0 && input.policy.transitionStackAlignment > 0
    requires MapsInput(input, sorted) && Sorted(sorted, MappingLeq) && Arranged(abi, input, ms)
    ensures sorted == ms
  {
    MappingLeqTotal();
    SamePermutation(input, ms, sorted);
    StartsAscend(ms, abi, input.policy.mappingGranule);
    SortedUnique(ms, sorted, MappingLeq);
  }

  lemma ArrangedOnce(abi: Abi, input: PreflightInput, a: seq<Mapping>, b: seq<Mapping>)
    requires input.policy.mappingGranule > 0 && input.policy.transitionStackAlignment > 0
    requires Arranged(abi, input, a) && Arranged(abi, input, b)
    ensures a == b
  {
    StartsAscend(a, abi, input.policy.mappingGranule);
    SortedIsArranged(abi, input, a, b);
  }

  lemma StartsAscend(ms: seq<Mapping>, abi: Abi, granule: nat)
    requires granule > 0 && MappingsReady(ms, abi, granule)
    ensures Sorted(ms, MappingLeq)
    ensures forall x, y :: x in ms && y in ms && MappingLeq(x, y) && MappingLeq(y, x) ==> x == y
  {
    assert forall i, j :: 0 <= i < j < |ms| ==> ms[i].virtualStart < ms[j].virtualStart;
  }

  lemma SamePermutation(input: PreflightInput, a: seq<Mapping>, b: seq<Mapping>)
    requires input.policy.mappingGranule > 0 && input.policy.transitionStackAlignment > 0
    requires MapsInput(input, a) && MapsInput(input, b)
    ensures Permutation(a, b)
  {
    var qs := IdentityRequests(input.identity);
    var k, i :| KernelMappingsOf(input.kernelSegments, k) && RequestMappingsOf(qs, input.policy, i)
                && Permutation(a, k + i);
    var l, j :| KernelMappingsOf(input.kernelSegments, l) && RequestMappingsOf(qs, input.policy, j)
                && Permutation(b, l + j);
    assert k == l;
    assert i == j;
  }

  method KernelCandidates(ks: seq<KernelSegmentPages>, granule: Word, imageLen: Word)
    returns (r: Check, ms: seq<Mapping>, copies: seq<KernelMaterialization>)
    requires granule > 0
    ensures r.Ok? ==> KernelMappingsOf(ks, ms) && |copies| == |ks|
    ensures r.Ok? ==> forall i :: 0 <= i < |ks| ==> ValidateKernelSegment(ks[i], granule, imageLen).Ok?
                                                    && Materialize(ks[i]) == Ok(copies[i])
    ensures r.Ok? <==> forall k :: k in ks ==> Backed(k, granule, imageLen)
    ensures r.Err? ==> exists i :: 0 <= i < |ks| && r == ValidateKernelSegment(ks[i], granule, imageLen)
  {
    ms, copies := [], [];
    for i := 0 to |ks|
      invariant |ms| == |copies| == i
      invariant forall j :: 0 <= j < i ==> ms[j] == KernelMapping(ks[j]) && Materialize(ks[j]) == Ok(copies[j])
      invariant forall j ::
                  0 <= j < i ==> ValidateKernelSegment(ks[j], granule, imageLen).Ok? && Backed(ks[j], granule, imageLen)
    {
      r := ValidateKernelSegment(ks[i], granule, imageLen);
      KernelSegmentExact(ks[i], granule, imageLen);
      if r.Err? { return; }
      MaterializeFits(ks[i], granule, imageLen);
      ms := ms + [KernelMapping(ks[i])];
      var copy := Materialize(ks[i]);
      copies := copies + [copy.value];
    }
    r := Ok(());
  }

  method IdentityCandidates(qs: seq<IdentityRequest>, policy: Policy) returns (r: Check, ms: seq<Mapping>)
    requires policy.mappingGranule > 0 && policy.transitionStackAlignment > 0
    ensures r.Ok? ==> RequestMappingsOf(qs, policy, ms)
    ensures r.Err? ==> exists i :: 0 <= i < |qs| && RequestMapping(qs[i], policy) == Err(r.error)
                                   && forall j :: 0 <= j < i ==> RequestMapping(qs[j], policy).Ok?
  {
    ms := [];
    for i := 0 to |qs|
      invariant |ms| == i && forall j :: 0 <= j < i ==> RequestMapping(qs[j], policy) == Ok(ms[j])
    {
      var m := RequestMapping(qs[i], policy);
      if m.Err? { return Err(m.error), ms; }
      ms := ms + [m.value];
    }
    r := Ok(());
  }

  /** The first half of the preflight: push, sort and validate the mappings. */
  method CollectMappings(abi: Abi, input: PreflightInput, mappingSlots: nat, materializationSlots: nat)
    returns (check: Check, mappings: seq<Mapping>, copies: seq<KernelMaterialization>)
    requires PolicyOk(input.policy, abi)
    ensures check.Ok? <==> Collectable(abi, input, mappingSlots, materializationSlots)
    ensures check.Ok? ==> Arranged(abi, input, mappings)
    ensures check.Ok? ==> |mappings| <= mappingSlots && |copies| <= materializationSlots
    ensures check.Ok? ==> CopiesOf(input.kernelSegments, copies)
  {
    mappings, copies := [], [];
    var policy := input.policy;
    var requests := IdentityRequests(input.identity);
    var required := |input.kernelSegments| + |requests|;
    RequestCount(input.identity);
    if required >= TWO64 { check := Err(MappingCountOverflow); return; }
    if required > mappingSlots { check := Err(OutputTooSmall(required, mappingSlots)); return; }
    if |input.kernelSegments| > materializationSlots {
      check := Err(OutputTooSmall(|input.kernelSegments|, materializationSlots));
      return;
    }
    var kernel, identity;
    check, kernel, copies := KernelCandidates(input.kernelSegments, policy.mappingGranule, input.kernelImageByteLen);
    if check.Err? { return; }
    check, identity := IdentityCandidates(requests, policy);
    if check.Err? { return; }
    check, mappings := Arrange(abi, input, kernel, identity);
  }

  /** Sorts the candidates and validates them as a set. */
  method Arrange(abi: Abi, input: PreflightInput, kernel: seq<Mapping>, identity: seq<Mapping>)
    returns (check: Check, mappings: seq<Mapping>)
    requires PolicyOk(input.policy, abi) && KernelMappingsOf(input.kernelSegments, kernel)
    requires RequestMappingsOf(IdentityRequests(input.identity), input.policy, identity) && SegmentsBacked(input)
    ensures |mappings| == |kernel| + |identity|
    ensures check.Ok? <==> Arrangeable(abi, input)
    ensures check.Ok? ==> Arranged(abi, input, mappings)
  {
    MappingLeqTotal();
    mappings := Sort(kernel + identity, MappingLeq);
    SortedKeepsLengths(input, kernel, identity, mappings);
    ArrangedExactly(abi, input, mappings);
    check := ValidateMappingSet(mappings, input.identity.framebufferPixels, input.policy.mappingGranule);
    if check.Err? { return; }
    check := RejectTemporaryCollision(mappings, abi);
  }

  /** `preflight_transition`. */
  method PreflightTransition(abi: Abi, input: PreflightInput, mappingSlots: nat, materializationSlots: nat)
    returns (r: Result<PreflightPlan, TransitionError>)
    requires GoodAbi(abi)
    ensures r.Ok? <==> Preflightable(abi, input, mappingSlots, materializationSlots)
    ensures r.Ok? ==> PreflightReady(r.value, abi) && PolicyOk(input.policy, abi)
    ensures r.Ok? ==> MapsInput(input, r.value.mappings) && MapsExactly(input, r.value.mappings)
    ensures r.Ok? ==> HandsOver(input, r.value) && AllRetained(r.value.mappings)
    ensures r.Ok? ==> CopiesInput(input.kernelSegments, r.value.materializations, r.value.mappings)
    ensures r.Ok? ==> PixelsKept(input.identity.framebufferPixels, r.value.mappings, input.policy.mappingGranule)
    ensures r.Ok? ==> |r.value.mappings| <= mappingSlots && |r.value.materializations| <= materializationSlots
  {
    var policy := input.policy;
    if !PolicyOk(policy, abi) { return Err(InvalidPolicy); }
    var check, mappings, copies := CollectMappings(abi, input, mappingSlots, materializationSlots);
    if check.Err? { return Err(check.error); }
    RoomOfArrangement(abi, input, mappings);
    var minimum := MinimumPages(mappings, abi, policy.mappingGranule);
    if minimum.Err? { return Err(minimum.error); }
    check := CheckHandoff(input);
    if check.Err? { return Err(check.error); }
    var stack := input.identity.transitionStack;
    r := Ok(PreflightPlan(mappings, copies, policy, minimum.value, abi.maxTableFrames,
                          input.identity.framebufferPixels, input.kernelEntry, input.identity.bootInfo.physicalStart,
                          stack.physicalStart + stack.byteLen, input.identity.handoffStubEntry));
    PlanDelivers(abi, input, r.value);
  }

  /** What a plan with these values delivers. */
  lemma PlanDelivers(abi: Abi, input: PreflightInput, plan: PreflightPlan)
    requires PolicyOk(input.policy, abi) && Arranged(abi, input, plan.mappings) && SegmentsBacked(input)
    requires HandoffOk(input) && CarriesInput(input, plan)
    requires CopiesOf(input.kernelSegments, plan.materializations)
    ensures MapsExactly(input, plan.mappings) && HandsOver(input, plan) && AllRetained(plan.mappings)
    ensures CopiesInput(input.kernelSegments, plan.materializations, plan.mappings)
    ensures PixelsKept(input.identity.framebufferPixels, plan.mappings, input.policy.mappingGranule)
  {
    ArrangementMaps(input, plan.mappings);
    ArrangementRetained(input, plan.mappings);
    CopiesMatch(input, plan.mappings, plan.materializations);
    HandoffIsMapped(input, plan);
    PixelsAreKept(input.identity.framebufferPixels, plan.mappings, input.policy.mappingGranule);
  }

  /** The table count without an identity range, within the capacity. */
  method MinimumPages(ms: seq<Mapping>, abi: Abi, granule: Word) returns (r: Result<nat, TransitionError>)
    requires GoodAbi(abi) && granule > 0 && MappingsReady(ms, abi, granule)
    ensures r.Ok? <==> CoverageFits(granule) && RequiredPages(ms, None, abi, granule) <= abi.maxTableFrames
    ensures r.Ok? ==> r.value == RequiredPages(ms, None, abi, granule)
  {
    ReadySorted(ms, abi, granule);
    r := RequiredPageTablePages(ms, None, abi, granule);
    if r.Ok? && r.value > abi.maxTableFrames {
      r := Err(PageTableFixedPointCapacityExceeded(r.value, abi.maxTableFrames));
    }
  }

  /** The checks on the values that enter the kernel: entry, boot record, stack pointer and stub entry. */
  method CheckHandoff(input: PreflightInput) returns (r: Check)
    requires input.policy.bootInfoAlignment > 0 && input.policy.stackPointerAlignment > 0
    ensures r.Ok? <==> HandoffOk(input)
  {
    var entryFound := AnyEntryExecutable(input.kernelSegments, input.kernelEntry);
    if !entryFound { return Err(KernelEntryNotExecutable); }
    if input.identity.bootInfo.physicalStart % input.policy.bootInfoAlignment != 0 { return Err(BootInfoMisaligned); }
    var stack := input.identity.transitionStack;
    if stack.physicalStart + stack.byteLen >= TWO64
       || (stack.physicalStart + stack.byteLen) % input.policy.stackPointerAlignment != 0 {
      return Err(InvalidTransitionStack);
    }
    var stub := input.identity.handoffStub;
    if stub.physicalStart + stub.byteLen >= TWO64 { return Err(RangeOverflow(HandoffStub)); }
    if input.identity.handoffStubEntry < stub.physicalStart
       || input.identity.handoffStubEntry >= stub.physicalStart + stub.byteLen {
      return Err(HandoffStubEntryOutsideMapping);
    }
    r := Ok(());
  }

  /** Validating the sorted candidates decides whether there is an arrangement at all. */
  lemma ArrangedExactly(abi: Abi, input: PreflightInput, sorted: seq<Mapping>)
    requires input.policy.mappingGranule > 0 && input.policy.transitionStackAlignment > 0
    requires MapsInput(input, sorted) && Sorted(sorted, MappingLeq)
             && forall i :: 0 <= i < |sorted| ==> sorted[i].byteLen > 0
    ensures Arranged(abi, input, sorted) <==>
            SetOk(sorted, input.identity.framebufferPixels, input.policy.mappingGranule) && SlotFree(sorted, abi)
    ensures Arrangeable(abi, input) <==> Arranged(abi, input, sorted)
  {
    if Arrangeable(abi, input) {
      var ms :| Arranged(abi, input, ms);
      SortedIsArranged(abi, input, sorted, ms);
    }
  }

  lemma SortedKeepsLengths(input: PreflightInput, kernel: seq<Mapping>, identity: seq<Mapping>, ms: seq<Mapping>)
    requires input.policy.mappingGranule > 0 && input.policy.transitionStackAlignment > 0
    requires KernelMappingsOf(input.kernelSegments, kernel)
    requires SegmentsBacked(input)
    requires RequestMappingsOf(IdentityRequests(input.identity), input.policy, identity)
    requires Permutation(ms, kernel + identity) && Sorted(ms, MappingLeq)
    ensures forall i :: 0 <= i < |ms| ==> ms[i].byteLen > 0
    ensures SortedByStart(ms) && MapsInput(input, ms)
  {
    forall i | 0 <= i < |ms| ensures ms[i].byteLen > 0 {
      PermutationMember(ms, kernel + identity, ms[i]);
      var j :| 0 <= j < |kernel + identity| && (kernel + identity)[j] == ms[i];
      if j < |kernel| {
        assert ms[i] == KernelMapping(input.kernelSegments[j]) && input.kernelSegments[j] in input.kernelSegments;
        assert Backed(input.kernelSegments[j], input.policy.mappingGranule, input.kernelImageByteLen);
      } else {
        assert ms[i] == identity[j - |kernel|];
      }
    }
  }

  method AnyEntryExecutable(ks: seq<KernelSegmentPages>, entry: Word) returns (found: bool)
    ensures found <==> exists k :: k in ks && EntersCode(k, entry)
  {
    found := false;
    for i := 0 to |ks|
      invariant found <==> exists j :: 0 <= j < i && EntersCode(ks[j], entry)
    {
      if EntryExecutable(ks[i], entry) { found := true; }
    }
  }

  // ---- Finalization ----------------------------------------------------------------------

  function ValidateStorage(storage: RetainedRange, granule: Word): (r: Check)
    requires granule > 0
    ensures r.Ok? <==> storage.byteLen != 0 && storage.lifetime.RetainedUntilReplacement?
                       && storage.physicalStart + storage.byteLen < TWO64
                       && storage.physicalStart % granule == 0 && storage.byteLen % granule == 0
  {
    if storage.byteLen == 0 || storage.lifetime != RetainedUntilReplacement
       || storage.physicalStart + storage.byteLen >= TWO64
       || storage.physicalStart % granule != 0 || storage.byteLen % granule != 0
    then Err(InvalidPageTableStorage) else Ok(())
  }

  predicate StorageAliases(storage: RetainedRange, m: Mapping) {
    Overlap(storage.physicalStart, storage.physicalStart + storage.byteLen, m.physicalStart, m.PhysicalEnd())
  }

  predicate PixelsBackStorage(storage: RetainedRange, fb: PhysicalRange) {
    Overlap(storage.physicalStart, storage.physicalStart + storage.byteLen,
            fb.physicalStart, fb.physicalStart + fb.byteLen)
  }

  ghost predicate StorageDisjoint(storage: RetainedRange, p: PreflightPlan) {
    && (forall i :: 0 <= i < |p.mappings| ==> !StorageAliases(storage, p.mappings[i]))
    && storage.physicalStart >= p.policy.mappingGranule
    && (p.framebufferPixels.Some? ==> !PixelsBackStorage(storage, p.framebufferPixels.value))
  }

  /** `validate_page_table_storage_disjoint`. */
  method ValidateStorageDisjoint(storage: RetainedRange, p: PreflightPlan) returns (r: Check)
    requires p.policy.mappingGranule > 0
    requires storage.physicalStart + storage.byteLen < TWO64
    requires PixelsUnmapped(p.mappings, p.framebufferPixels, p.policy.mappingGranule)
    ensures r.Ok? <==> StorageDisjoint(storage, p)
    ensures r.Err? ==> match r.error
                       case PageTableStorageAlias(k) =>
                         exists m :: m in p.mappings && m.kind == k && StorageAliases(storage, m)
                       case InvalidPageTableStorage => storage.physicalStart < p.policy.mappingGranule
                       case FramebufferPixelsWouldBackPageTables =>
                         p.framebufferPixels.Some? && PixelsBackStorage(storage, p.framebufferPixels.value)
                       case _ => false
  {
    for i := 0 to |p.mappings|
      invariant forall j :: 0 <= j < i ==> !StorageAliases(storage, p.mappings[j])
    {
      if StorageAliases(storage, p.mappings[i]) { return Err(PageTableStorageAlias(p.mappings[i].kind)); }
    }
    if storage.physicalStart < p.policy.mappingGranule { return Err(InvalidPageTableStorage); }
    if p.framebufferPixels.Some? {
      var fb := p.framebufferPixels.value;
      if fb.byteLen == 0 || fb.physicalStart + fb.byteLen >= TWO64 { return Err(InvalidFramebufferRange); }
      if PixelsBackStorage(storage, fb) { return Err(FramebufferPixelsWouldBackPageTables); }
    }
    r := Ok(());
  }

  /** `n` is the least page count whose own identity mapping it already pays for. */
  ghost predicate LeastSelfCovering(ms: seq<Mapping>, start: nat, n: nat, abi: Abi, granule: nat)
    requires granule > 0
  {
    && SelfCovering(ms, start, n, abi, granule) == n
    && AllTooSmall(ms, start, n, abi, granule)
  }

  /** No page count up to the capacity covers itself. */
  ghost predicate NoneSelfCovering(ms: seq<Mapping>, start: nat, max: nat, abi: Abi, granule: nat)
    requires granule > 0
  {
    AllTooSmall(ms, start, max + 1, abi, granule)
  }

  /** Every count below `n` needs more pages than it provides. */
  ghost predicate AllTooSmall(ms: seq<Mapping>, start: nat, n: nat, abi: Abi, granule: nat)
    requires granule > 0
  {
    forall m: nat :: m < n ==> SelfCovering(ms, start, m, abi, granule) > m
  }

  /** Every count below an iterate is too small. */
  lemma IterateTooSmall(ms: seq<Mapping>, start: nat, previous: nat, abi: Abi, granule: nat)
    requires granule > 0
    requires AllTooSmall(ms, start, previous, abi, granule)
    ensures SelfCovering(ms, start, previous, abi, granule) >= previous
    ensures AllTooSmall(ms, start, SelfCovering(ms, start, previous, abi, granule), abi, granule)
  {
    if previous > 0 {
      SelfCoveringMonotone(ms, start, previous - 1, previous, abi, granule);
    }
    forall m: nat | m < SelfCovering(ms, start, previous, abi, granule)
      ensures SelfCovering(ms, start, m, abi, granule) > m
    {
      if m >= previous {
        SelfCoveringMonotone(ms, start, previous, m, abi, granule);
      }
    }
  }

  lemma BelowMinimumTooSmall(ms: seq<Mapping>, start: nat, abi: Abi, granule: nat)
    requires granule > 0
    ensures AllTooSmall(ms, start, RequiredPages(ms, None, abi, granule), abi, granule)
  {
    forall m: nat | m < RequiredPages(ms, None, abi, granule)
      ensures SelfCovering(ms, start, m, abi, granule) > m
    {
      AtLeastMinimum(ms, start, m, abi, granule);
    }
  }

  lemma AtLeastMinimum(ms: seq<Mapping>, start: nat, m: nat, abi: Abi, granule: nat)
    requires granule > 0
    ensures SelfCovering(ms, start, m, abi, granule) >= RequiredPages(ms, None, abi, granule)
  {
    MulOrder(granule, 0, m);
    RequiredMonotone(ms, None, Some(Extent(start, m * granule)), abi, granule);
  }

  lemma IdentityInStorage(n: nat, max: nat, granule: nat, storage: RetainedRange)
    requires 1 <= n <= max && granule > 0 && storage.byteLen == max * granule
    requires storage.physicalStart + storage.byteLen < TWO64
    ensures 0 < n * granule <= storage.byteLen < TWO64
    ensures storage.physicalStart + n * granule < TWO64
  {
    MulOrder(granule, n, max);
    MulOrder(granule, 1, n);
  }

  /** The table count with the first `used` pages of the storage identity-mapped. */
  method CountSelfCovering(p: PreflightPlan, storage: RetainedRange, used: nat, abi: Abi)
    returns (r: Result<nat, TransitionError>)
    requires GoodAbi(abi) && PreflightReady(p, abi)
    requires storage.byteLen == p.capacityPages * p.policy.mappingGranule
    requires storage.physicalStart + storage.byteLen < TWO64 && 1 <= used <= p.capacityPages
    ensures r == Ok(SelfCovering(p.mappings, storage.physicalStart, used, abi, p.policy.mappingGranule))
  {
    var granule := p.policy.mappingGranule;
    ReadySorted(p.mappings, abi, granule);
    IdentityInStorage(used, p.capacityPages, granule, storage);
    r := RequiredPageTablePages(p.mappings, Some(Extent(storage.physicalStart, used * granule)), abi, granule);
  }

  /** The self-mapping loop of `finalize_transition`. */
  method SolveUsedPages(p: PreflightPlan, storage: RetainedRange, abi: Abi) returns (r: Result<nat, TransitionError>)
    requires GoodAbi(abi) && PreflightReady(p, abi)
    requires storage.byteLen == p.capacityPages * p.policy.mappingGranule
    requires storage.physicalStart + storage.byteLen < TWO64
    ensures r.Ok? ==> 1 <= r.value <= p.capacityPages
                      && LeastSelfCovering(p.mappings, storage.physicalStart, r.value, abi, p.policy.mappingGranule)
    ensures r.Err? ==> r.error.PageTableFixedPointCapacityExceeded?
                       && NoneSelfCovering(p.mappings, storage.physicalStart, p.capacityPages, abi,
                                           p.policy.mappingGranule)
  {
    ghost var granule, start := p.policy.mappingGranule, storage.physicalStart;
    var max := p.capacityPages;
    RequiredAtLeastFour(p.mappings, None, abi, granule);
    BelowMinimumTooSmall(p.mappings, start, abi, granule);
    var used := p.minimumPages;
    var iterations := 0;
    while true
      invariant 4 + iterations <= used
      invariant iterations <= max && (iterations > 0 ==> iterations + 3 <= max)
      invariant AllTooSmall(p.mappings, start, used, abi, granule)
      decreases max - iterations
    {
      iterations := iterations + 1;
      if iterations > max { return Err(PageTableFixedPointDidNotConverge); }
      if used > max {
        return Err(PageTableFixedPointCapacityExceeded(used, max));
      }
      var next := CountSelfCovering(p, storage, used, abi);
      match next {
        case Err(e) => return Err(e);
        case Ok(_) =>
      }
      IterateTooSmall(p.mappings, start, used, abi, granule);
      if next.value == used { return Ok(used); }
      if next.value < used { return Err(PageTableFixedPointRegressed); }
      used := next.value;
    }
  }

  function TableIdentity(start: Word, byteLen: Word): Mapping {
    Mapping(TransitionTableIdentity, start, start, byteLen, WRITABLE_NX, RetainedUntilReplacement)
  }

  predicate IdentityCollides(identity: Mapping, m: Mapping) {
    Overlap(identity.virtualStart, identity.VirtualEnd(), m.virtualStart, m.VirtualEnd())
  }

  /** The identity range stays in the lower half and clear of every mapping. */
  ghost predicate IdentityOk(identity: Mapping, ms: seq<Mapping>) {
    && identity.VirtualEnd() <= CANONICAL_LOW_END
    && forall i :: 0 <= i < |ms| ==> !IdentityCollides(identity, ms[i])
  }

  /** `validate_table_identity_mapping`. */
  method ValidateTableIdentity(identity: Mapping, ms: seq<Mapping>, granule: Word) returns (r: Check)
    requires granule > 0 && Aligned(identity, granule) && identity.virtualStart > 0
    requires identity.byteLen > 0 && identity.VirtualEnd() < TWO64
    ensures r.Ok? <==> IdentityOk(identity, ms)
    ensures r.Err? ==> match r.error
                       case InvalidPageTableStorage => identity.VirtualEnd() > CANONICAL_LOW_END
                       case VirtualOverlap(a, b) => a == TransitionTableIdentity
                                                    && exists m :: m in ms && m.kind == b
                                                                   && IdentityCollides(identity, m)
                       case _ => false
  {
    var end := identity.VirtualEnd();
    if identity.virtualStart == 0 || identity.virtualStart % granule != 0 || identity.byteLen % granule != 0
       || CanonicalHalf(identity.virtualStart) != Some(false) || CanonicalHalf(end - 1) != Some(false) {
      return Err(InvalidPageTableStorage);
    }
    for i := 0 to |ms|
      invariant forall j :: 0 <= j < i ==> !IdentityCollides(identity, ms[j])
    {
      if IdentityCollides(identity, ms[i]) { return Err(VirtualOverlap(TransitionTableIdentity, ms[i].kind)); }
    }
    r := Ok(());
  }

  ghost predicate StorageReady(p: PreflightPlan, storage: RetainedRange) {
    && p.policy.mappingGranule > 0
    && storage.lifetime.RetainedUntilReplacement?
    && storage.byteLen == p.capacityPages * p.policy.mappingGranule
    && storage.physicalStart + storage.byteLen < TWO64
    && storage.physicalStart % p.policy.mappingGranule == 0
    && StorageDisjoint(storage, p)
  }

  /** Everything finalization guarantees about the plan it hands to the page-table encoder. */
  ghost predicate PlanReady(plan: TransitionPlan, abi: Abi) {
    var p := plan.preflight;
    && PreflightReady(p, abi) && plan.mappings == p.mappings && plan.granule == p.policy.mappingGranule
    && StorageReady(p, plan.storage)
    && 1 <= plan.usedPages <= p.capacityPages && 0 < plan.usedPages * plan.granule < TWO64
    && LeastSelfCovering(plan.mappings, plan.storage.physicalStart, plan.usedPages, abi, plan.granule)
    && plan.tableIdentity == TableIdentity(plan.storage.physicalStart, plan.usedPages * plan.granule)
    && IdentityOk(plan.tableIdentity, plan.mappings)
  }

  /** The identity mapping of the least self-covering count is acceptable. */
  ghost predicate Solvable(p: PreflightPlan, storage: RetainedRange, n: nat, abi: Abi)
    requires p.policy.mappingGranule > 0
  {
    && 1 <= n <= p.capacityPages && 0 < n * p.policy.mappingGranule < TWO64
    && LeastSelfCovering(p.mappings, storage.physicalStart, n, abi, p.policy.mappingGranule)
    && IdentityOk(TableIdentity(storage.physicalStart, n * p.policy.mappingGranule), p.mappings)
  }

  lemma LeastUnique(ms: seq<Mapping>, start: nat, a: nat, b: nat, abi: Abi, granule: nat)
    requires granule > 0
    requires LeastSelfCovering(ms, start, a, abi, granule) && LeastSelfCovering(ms, start, b, abi, granule)
    ensures a == b
  {
  }

  lemma MultipleAligned(n: nat, granule: nat)
    requires granule > 0
    ensures n * granule % granule == 0
  {
    DivModUnique(n * granule, granule, n, 0);
  }

  /** `finalize_transition`: succeeds exactly when a self-covering count fits the storage. */
  method FinalizeTransition(p: PreflightPlan, storage: RetainedRange, abi: Abi)
    returns (r: Result<TransitionPlan, TransitionError>)
    requires GoodAbi(abi) && PreflightReady(p, abi)
    ensures r.Ok? <==> StorageReady(p, storage) && exists n :: Solvable(p, storage, n, abi)
    ensures r.Ok? ==> PlanReady(r.value, abi) && r.value.preflight == p && r.value.storage == storage
    ensures r.Err? ==> !r.error.PageTableFixedPointRegressed? && !r.error.PageTableFixedPointDidNotConverge?
    ensures r.Err? && r.error.PageTableFixedPointCapacityExceeded? ==>
              NoneSelfCovering(p.mappings, storage.physicalStart, p.capacityPages, abi, p.policy.mappingGranule)
  {
    var granule := p.policy.mappingGranule;
    var check := CheckStorage(p, storage);
    if check.Err? { return Err(check.error); }
    var solved := SolveUsedPages(p, storage, abi);
    if solved.Err? {
      return Err(solved.error);
    }
    var used := solved.value;
    IdentityInStorage(used, p.capacityPages, granule, storage);
    MultipleAligned(used, granule);
    var identity := TableIdentity(storage.physicalStart, used * granule);
    forall n | Solvable(p, storage, n, abi) ensures n == used {
      LeastUnique(p.mappings, storage.physicalStart, n, used, abi, granule);
    }
    check := ValidateTableIdentity(identity, p.mappings, granule);
    if check.Err? { return Err(check.error); }
    assert Solvable(p, storage, used, abi);
    r := Ok(TransitionPlan(p.mappings, identity, storage, used, granule, p));
  }

  /** The storage checks that precede the self-mapping loop. */
  method CheckStorage(p: PreflightPlan, storage: RetainedRange) returns (r: Check)
    requires p.policy.mappingGranule > 0 && p.capacityPages > 0
    requires PixelsUnmapped(p.mappings, p.framebufferPixels, p.policy.mappingGranule)
    ensures r.Ok? <==> StorageReady(p, storage)
    ensures r.Err? ==> !r.error.PageTableFixedPointRegressed? && !r.error.PageTableFixedPointDidNotConverge?
                       && !r.error.PageTableFixedPointCapacityExceeded?
  {
    var granule := p.policy.mappingGranule;
    MulOrder(granule, 1, p.capacityPages);
    MultipleAligned(p.capacityPages, granule);
    r := ValidateStorage(storage, granule);
    if r.Err? { return; }
    if p.capacityPages * granule >= TWO64 { return Err(PageTableCountOverflow); }
    if storage.byteLen != p.capacityPages * granule {
      return Err(PageTableStorageLengthMismatch(p.capacityPages, storage.byteLen / granule));
    }
    r := ValidateStorageDisjoint(storage, p);
  }
}
