/** Data of the transition planner: policies, retained ranges, mappings and plans. */
module TransitionTypes {
  import opened Outcome
  import opened Words
  import opened Regions

  const CANONICAL_LOW_END: nat := 0x8000_0000_0000
  const CANONICAL_HIGH_START: nat := 0xffff_8000_0000_0000
  const SLOT: nat := 0x80_0000_0000  // bytes under one root entry, 2^39

  /** Constants of the boot ABI, which the loader takes from generated code. */
  datatype Abi = Abi(maxTableFrames: nat, minTableFrames: nat, temporary: Word, temporaryIndices: seq<nat>)

  /** What the generated ABI promises about its own constants. */
  ghost predicate GoodAbi(abi: Abi) {
    && abi.minTableFrames == 4 <= abi.maxTableFrames < 0x1_0000_0000
    && abi.temporary % 4096 == 0
    && CANONICAL_HIGH_START <= abi.temporary < TWO64 - SLOT
    && abi.temporaryIndices == IndexesFor(abi.temporary)
  }

  /** The four table indexes of an address, root first. */
  function IndexesFor(address: nat): seq<nat> {
    [address / 0x80_0000_0000 % 512, address / 0x4000_0000 % 512, address / 0x20_0000 % 512, address / 4096 % 512]
  }

  datatype Lifetime = RetainedUntilReplacement | ReleasedBeforeReplacement

  datatype RetainedRange = RetainedRange(physicalStart: Word, byteLen: Word, lifetime: Lifetime)

  datatype PhysicalRange = PhysicalRange(physicalStart: Word, byteLen: Word)

  datatype Permissions = Permissions(writable: bool, executable: bool)

  const READ_ONLY_NX := Permissions(false, false)
  const WRITABLE_NX := Permissions(true, false)

  datatype MappingKind =
    | KernelSegment(programHeaderIndex: nat)
    | BootInfo
    | MemoryMapTable
    | ModuleTable
    | ModuleData(index: nat)
    | CommandLine
    | Entropy
    | RequiredAcpiRsdp
    | HandoffStub
    | TransitionStack
    | TransitionTableIdentity

  datatype Mapping = Mapping(kind: MappingKind, physicalStart: Word, virtualStart: Word, byteLen: Word,
                             permissions: Permissions, lifetime: Lifetime)
  {
    function VirtualEnd(): nat { virtualStart + byteLen }
    function PhysicalEnd(): nat { physicalStart + byteLen }
    function VirtualExtent(): Extent { Extent(virtualStart, byteLen) }
    ghost predicate Covers(address: int) { virtualStart <= address < VirtualEnd() }
  }

  function Extents(ms: seq<Mapping>): (es: seq<Extent>)
    ensures |es| == |ms| && forall i :: 0 <= i < |ms| ==> es[i] == ms[i].VirtualExtent()
  {
    seq(|ms|, i requires 0 <= i < |ms| => ms[i].VirtualExtent())
  }

  datatype Policy = Policy(mappingGranule: Word, rsdpMaxIntersectingPages: Word, transitionStackSize: Word,
                           transitionStackAlignment: Word, stackPointerAlignment: Word, bootInfoAlignment: Word)

  datatype SegmentPermissions = SegmentPermissions(read: bool, write: bool, execute: bool)

  /** One validated PT_LOAD operation of the kernel image. */
  datatype KernelLoadSegment = KernelLoadSegment(
    programHeaderIndex: nat, fileOffset: Word, fileSize: Word, virtualAddress: Word,
    mappingVirtualAddress: Word, mappingByteLen: Word, segmentPageOffset: Word,
    memorySize: Word, alignment: Word, permissions: SegmentPermissions)

  datatype KernelSegmentPages = KernelSegmentPages(segment: KernelLoadSegment, pages: RetainedRange)

  datatype RsdpInput = RsdpInput(retainedAllocation: RetainedRange, recordPhysicalStart: Word, recordByteLen: Word)

  datatype IdentityInputs = IdentityInputs(
    bootInfo: RetainedRange, memoryMapTable: RetainedRange, moduleTable: RetainedRange,
    moduleData: seq<RetainedRange>, commandLine: Option<RetainedRange>, entropy: Option<RetainedRange>,
    validatedRsdp: Option<RsdpInput>, handoffStub: RetainedRange, handoffStubEntry: Word,
    transitionStack: RetainedRange, framebufferPixels: Option<PhysicalRange>)

  datatype PreflightInput = PreflightInput(
    policy: Policy, kernelEntry: Word, kernelImageByteLen: Word,
    kernelSegments: seq<KernelSegmentPages>, identity: IdentityInputs)

  datatype KernelMaterialization = KernelMaterialization(
    programHeaderIndex: nat, allocation: RetainedRange, fileOffset: Word, fileSize: Word, copyDestination: Word)

  datatype PreflightPlan = PreflightPlan(
    mappings: seq<Mapping>, materializations: seq<KernelMaterialization>, policy: Policy,
    minimumPages: nat, capacityPages: nat, framebufferPixels: Option<PhysicalRange>,
    kernelEntry: Word, bootInfoPointer: Word, stackPointer: Word, handoffStubEntry: Word)

  datatype TransitionPlan = TransitionPlan(
    mappings: seq<Mapping>, tableIdentity: Mapping, storage: RetainedRange, usedPages: nat,
    granule: Word, preflight: PreflightPlan)

  datatype TransitionError =
    | InvalidPolicy
    | MappingCountOverflow
    | OutputTooSmall(required: nat, available: nat)
    | EmptyRange(kind: MappingKind)
    | RangeOverflow(kind: MappingKind)
    | MappingRoundOverflow(kind: MappingKind)
    | AllocationNotRetained(kind: MappingKind)
    | PhysicalPagesUnaligned(kind: MappingKind)
    | KernelPageLengthMismatch(programHeaderIndex: nat)
    | InvalidKernelSegment(programHeaderIndex: nat)
    | WritableExecutable(kind: MappingKind)
    | PageZeroWouldBeMapped(kind: MappingKind)
    | VirtualOverlap(first: MappingKind, second: MappingKind)
    | PhysicalAlias(first: MappingKind, second: MappingKind)
    | FramebufferPixelsWouldBeMapped(kind: MappingKind)
    | KernelEntryNotExecutable
    | BootInfoMisaligned
    | HandoffStubEntryOutsideMapping
    | InvalidTransitionStack
    | InvalidPageTableStorage
    | PageTableStorageLengthMismatch(requiredPages: nat, providedPages: nat)
    | PageTableCountOverflow
    | NonCanonicalVirtualRange(kind: MappingKind)
    | InvalidFramebufferRange
    | InvalidRsdpRecord
    | RsdpRecordRangeOverflow
    | RsdpRetainedAllocationMismatch
    | RsdpMappingPageLimitExceeded(requiredPages: nat, maximumPages: nat)
    | KernelSourceOutsideImage(programHeaderIndex: nat)
    | PageTableStorageAlias(with: MappingKind)
    | FramebufferPixelsWouldBackPageTables
    | TemporaryMappingConflict(with: MappingKind)
    | PageTableFixedPointCapacityExceeded(requiredPages: nat, maximumPages: nat)
    | PageTableFixedPointRegressed
    | PageTableFixedPointDidNotConverge

  /** `canonical_four_level_half`: lower half, upper half, or neither. */
  function CanonicalHalf(address: nat): Option<bool> {
    if address < CANONICAL_LOW_END then Some(false)
    else if CANONICAL_HIGH_START <= address < TWO64 then Some(true)
    else None
  }

  /** An address of the lower or of the upper half. */
  predicate Canonical(address: int) {
    0 <= address < CANONICAL_LOW_END || CANONICAL_HIGH_START <= address < TWO64
  }

  function AlignDown(value: nat, alignment: nat): nat
    requires alignment > 0
  {
    value - value % alignment
  }

  /** Rounds up; `None` when the intermediate sum leaves u64. */
  function AlignUp(value: nat, alignment: nat): Option<nat>
    requires alignment > 0
  {
    if value + (alignment - 1) >= TWO64 then None else Some(AlignDown(value + (alignment - 1), alignment))
  }

  predicate Overlap(aStart: nat, aEnd: nat, bStart: nat, bEnd: nat) { aStart < bEnd && bStart < aEnd }

  predicate IsPowerOfTwo(x: nat) {
    x == 1 || (x > 1 && x % 2 == 0 && IsPowerOfTwo(x / 2))
  }
}
