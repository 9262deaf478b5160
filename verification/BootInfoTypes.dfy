/** Records of the boot handoff and the checks on single records. */
module BootInfoTypes {
  import opened Outcome
  import opened Words
  import opened MemoryMap

  const MAX_COMMAND_LINE_BYTES: nat := 4096
  const MAX_ENTROPY_BYTES: nat := 4096
  const ACPI_RSDP_MINIMUM_BYTES: nat := 20
  const ACPI_RSDP_ALIGNMENT: nat := 16

  /** Sizes and alignments of the generated ABI records. */
  datatype HandoffAbi = HandoffAbi(bootInfoSize: nat, rangeSize: nat, rangeAlignment: nat, moduleSize: nat,
                                   moduleAlignment: nat,
                                   framesOffset: nat, frameStride: nat, minimumFrames: nat, maximumPagingBytes: nat,
                                   codes: RecordCodes)

  /** Versions, flags and codes in the generated records. */
  datatype RecordCodes = RecordCodes(infoVersion: nat, framebufferPresent: Word,
                                     framebufferSize: nat, framebufferVersion: nat, linear: nat, rgbx8: nat,
                                     bgrx8: nat, bitmask: nat,
                                     entropySize: nat, entropyVersion: nat, uefiRng: nat, firmwarePlatform: nat,
                                     mixedFirmware: nat,
                                     conditioned: Word)

  ghost predicate GoodHandoffAbi(a: HandoffAbi) {
    && 0 < a.bootInfoSize && 0 < a.rangeSize && 0 < a.rangeAlignment && 0 < a.moduleSize && 0 < a.moduleAlignment
    && 0 < a.frameStride
    && a.codes.framebufferPresent != 0
    && a.codes.rgbx8 != a.codes.bgrx8 && a.codes.rgbx8 != a.codes.bitmask && a.codes.bgrx8 != a.codes.bitmask
  }

  datatype Lifetime = Retained | Released | Failed

  datatype Allocation = Allocation(start: Word, length: Word, lifetime: Lifetime)

  datatype ModuleKind = Bootstrap | Bootfs | PagingHandoff | BootDeviceTable | OtherModule

  datatype Module = Module(headerOk: bool, reservedZero: bool, kind: ModuleKind, readOnly: bool, otherFlags: bool,
                           start: Word, length: Word)

  datatype EntropySource = UefiRng | FirmwarePlatform | MixedFirmware

  datatype EntropyInput = EntropyInput(storage: Allocation, length: Word, source: EntropySource, conditioned: bool)

  datatype SizedInput = SizedInput(storage: Allocation, length: Word)

  datatype PixelFormat = Rgbx8 | Bgrx8 | Bitmask(red: nat, green: nat, blue: nat, rest: nat)

  datatype FramebufferInput = FramebufferInput(start: Word, length: Word, width: nat, height: nat, pixelsPerLine: nat,
                                               format: PixelFormat)

  datatype Limits = Limits(memoryMapEntries: nat, moduleEntries: nat)

  datatype HandoffInput = HandoffInput(
    afterExit: bool, infoStorage: Allocation, mapStorage: Allocation, moduleStorage: Allocation,
    memoryMap: seq<MemoryRange>, modules: seq<Module>, rsdp: Option<SizedInput>, framebuffer: Option<FramebufferInput>,
    commandLine: Option<SizedInput>, entropy: Option<EntropyInput>)

  /** The framebuffer descriptor; an absent one is all zero. */
  datatype FramebufferRecord = FramebufferRecord(
    size: nat, version: nat, flags: nat, format: nat, start: Word, length: Word, width: nat, height: nat,
    pixelsPerLine: nat,
    red: nat, green: nat, blue: nat, rest: nat, reserved: nat)

  const NO_FRAMEBUFFER: FramebufferRecord := FramebufferRecord(0, 0, 0, 0, 0, 0, 0, 0, 0, 0, 0, 0, 0, 0)

  datatype EntropyRecord = EntropyRecord(size: nat, version: nat, source: nat, flags: Word, start: Word, length: Word,
                                         reserved: nat)

  const NO_ENTROPY: EntropyRecord := EntropyRecord(0, 0, 0, 0, 0, 0, 0)

  /** The published record. */
  datatype Info = Info(size: nat, version: nat, flags: Word, reserved: nat,
                       mapStart: Word, mapCount: nat, mapEntrySize: nat, moduleStart: Word, moduleCount: nat,
                       moduleEntrySize: nat,
                       rsdp: Word, framebuffer: FramebufferRecord, commandLineStart: Word, commandLineLength: Word,
                       entropy: EntropyRecord)

  datatype BootInfoError =
    | ExitBootServicesIncomplete | AllocationUnavailable | AllocationReleased | EmptyMemoryMap | OutputLengthMismatch
    | MemoryMapEntryLimitExceeded | ModuleEntryLimitExceeded | UnalignedAddress | EmptyHandoffRange
    | HandoffRangeOverflow
    | BadMemoryMap(fault: MapFault) | HandoffStorageNotReserved | HandoffStorageOverlap
    | MissingModule(kind: ModuleKind)
    | InvalidModuleOrder | DuplicateModule | ModuleMustBeReadOnly | UnsupportedModuleFlags | CommandLineTooLarge
    | InvalidOptionalAddress | InvalidAcpiRsdp | InvalidFramebuffer | InvalidEntropy | InvalidRecordHeader
    | InvalidReserved | InvalidTableReference

  // ---- Allocations -----------------------------------------------------------------------

  /** `validate_retained`. */
  function CheckRetained(a: Allocation, minimum: nat): (e: Option<BootInfoError>)
    ensures e.None? <==>
            a.lifetime.Retained? && a.start > 0 && a.length >= minimum && a.start % PAGE == 0 && a.length % PAGE == 0
                         && a.start + a.length < TWO64
  {
    if a.lifetime.Failed? then Some(AllocationUnavailable)
    else if a.lifetime.Released? then Some(AllocationReleased)
    else if a.start == 0 || a.length < minimum then Some(EmptyHandoffRange)
    else if a.start % PAGE != 0 || a.length % PAGE != 0 then Some(UnalignedAddress)
    else if a.start + a.length >= TWO64 then Some(HandoffRangeOverflow)
    else None
  }

  /** `validate_table_storage`. */
  function CheckTableStorage(a: Allocation, count: nat, size: nat, alignment: nat): (e: Option<BootInfoError>)
    requires alignment > 0
    ensures e.None? <==> count * size < TWO64 && CheckRetained(a, count * size).None? && a.start % alignment == 0
  {
    if count * size >= TWO64 then Some(HandoffRangeOverflow)
    else
      var e := CheckRetained(a, count * size);
      if e.Some? then e else if a.start % alignment != 0 then Some(UnalignedAddress) else None
  }

  /** `validate_table_reference`. */
  function CheckTableReference(start: Word, count: nat, entrySize: nat, size: nat, alignment: nat)
    : (e: Option<BootInfoError>)
    requires alignment > 0
    ensures e.None? <==>
            count > 0 && entrySize == size && start > 0 && start % alignment == 0 && start + count * size < TWO64
  {
    if count == 0 || entrySize != size || start == 0 || start % alignment != 0 then Some(InvalidTableReference)
    else if count * size >= TWO64 || start + count * size >= TWO64 then Some(HandoffRangeOverflow)
    else None
  }

  // ---- Modules ---------------------------------------------------------------------------

  /** `module_allocation_len`, when it fits. */
  function Rounded(length: nat): nat { (length + (PAGE - 1)) / PAGE * PAGE }

  /** The checks on one module record before its kind is looked at. */
  function CheckModuleRecord(m: Module): (e: Option<BootInfoError>)
    ensures e.None? ==> m.length > 0 && m.start > 0 && m.start % PAGE == 0 && m.start + m.length < TWO64
  {
    if !m.headerOk then Some(InvalidRecordHeader)
    else if !m.reservedZero then Some(InvalidReserved)
    else if m.length == 0 then Some(EmptyHandoffRange)
    else if m.start == 0 || m.start % PAGE != 0 then Some(UnalignedAddress)
    else if m.start + m.length >= TWO64 then Some(HandoffRangeOverflow)
    else if m.otherFlags then Some(UnsupportedModuleFlags)
    else None
  }

  /** The checks that depend on the module's kind. */
  function CheckModuleKind(abi: HandoffAbi, m: Module): (e: Option<BootInfoError>)
    requires abi.frameStride > 0
    ensures e.None? ==> !m.kind.OtherModule?
  {
    if m.kind.OtherModule? then Some(InvalidRecordHeader)
    else if !m.kind.Bootstrap? && !m.readOnly then Some(ModuleMustBeReadOnly)
    else if m.kind.PagingHandoff?
            && !(abi.framesOffset + abi.minimumFrames * abi.frameStride <= m.length <= abi.maximumPagingBytes
                 && (m.length - abi.framesOffset) % abi.frameStride == 0)
      then Some(InvalidRecordHeader)
    else None
  }

  predicate GoodModule(abi: HandoffAbi, m: Module)
    requires abi.frameStride > 0
  {
    CheckModuleRecord(m).None? && CheckModuleKind(abi, m).None?
  }

  /** The order in which the modules must come. */
  function ExpectedKinds(withTable: bool): seq<ModuleKind> {
    if withTable then [Bootstrap, Bootfs, PagingHandoff, BootDeviceTable] else [Bootstrap, Bootfs, PagingHandoff]
  }

  // ---- Framebuffer -----------------------------------------------------------------------

  predicate MasksOverlap(f: PixelFormat)
    requires f.Bitmask?
  {
    And(f.red, f.green) != 0 || And(f.red, f.blue) != 0 || And(f.red, f.rest) != 0
    || And(f.green, f.blue) != 0 || And(f.green, f.rest) != 0 || And(f.blue, f.rest) != 0
  }

  /** `framebuffer_descriptor`: the checks on a framebuffer, which its record keeps unchanged. */
  predicate GoodFramebuffer(f: FramebufferInput) {
    && f.width > 0 && f.height > 0 && f.pixelsPerLine >= f.width
    && f.pixelsPerLine * 4 * f.height < TWO64 && f.length >= f.pixelsPerLine * 4 * f.height
    && f.start + f.length < TWO64
    && (f.format.Bitmask? ==> f.format.red != 0 && f.format.green != 0 && f.format.blue != 0 && !MasksOverlap(f.format))
  }

  /** `framebuffer_descriptor`: the record of an accepted framebuffer. */
  function FramebufferRecordOf(codes: RecordCodes, f: FramebufferInput): FramebufferRecord {
    var (format, red, green, blue, rest) :=
      match f.format
      case Rgbx8 => (codes.rgbx8, 0, 0, 0, 0)
      case Bgrx8 => (codes.bgrx8, 0, 0, 0, 0)
      case Bitmask(r, g, b, x) => (codes.bitmask, r, g, b, x);
    FramebufferRecord(codes.framebufferSize, codes.framebufferVersion, codes.linear, format, f.start, f.length,
                      f.width, f.height, f.pixelsPerLine, red, green, blue, rest, 0)
  }

  /** The framebuffer a record describes, if it is well formed: what `validate_framebuffer` reconstructs and checks
      again. */
  function DecodeFramebuffer(codes: RecordCodes, r: FramebufferRecord): Option<FramebufferInput> {
    if r.size != codes.framebufferSize || r.version != codes.framebufferVersion || r.flags != codes.linear
       || r.reserved != 0 then None
    else if r.format != codes.rgbx8 && r.format != codes.bgrx8 && r.format != codes.bitmask then None
    else
      var format := if r.format == codes.rgbx8 then Rgbx8 else if r.format == codes.bgrx8 then Bgrx8
                    else Bitmask(r.red, r.green, r.blue, r.rest);
      if !format.Bitmask? && (r.red != 0 || r.green != 0 || r.blue != 0 || r.rest != 0) then None
      else Some(FramebufferInput(r.start, r.length, r.width, r.height, r.pixelsPerLine, format))
  }

  /** A framebuffer survives being written into its record. */
  lemma FramebufferRoundTrip(abi: HandoffAbi, f: FramebufferInput)
    requires GoodHandoffAbi(abi)
    ensures DecodeFramebuffer(abi.codes, FramebufferRecordOf(abi.codes, f)) == Some(f)
  {
  }

  // ---- Entropy ---------------------------------------------------------------------------

  function SourceCode(codes: RecordCodes, source: EntropySource): nat {
    match source
    case UefiRng => codes.uefiRng
    case FirmwarePlatform => codes.firmwarePlatform
    case MixedFirmware => codes.mixedFirmware
  }

  function EntropyRecordOf(codes: RecordCodes, e: EntropyInput): EntropyRecord {
    EntropyRecord(codes.entropySize, codes.entropyVersion, SourceCode(codes, e.source),
                  if e.conditioned then codes.conditioned else 0,
                  e.storage.start, e.length, 0)
  }

  /** `validate_entropy`. */
  predicate GoodEntropyRecord(codes: RecordCodes, r: EntropyRecord) {
    && r.size == codes.entropySize && r.version == codes.entropyVersion && r.reserved == 0
    && 0 < r.length <= MAX_ENTROPY_BYTES && r.start != 0 && r.start % PAGE == 0 && r.start + r.length < TWO64
    && And(r.flags, Not(codes.conditioned)) == 0
    && (r.source == codes.uefiRng || r.source == codes.firmwarePlatform || r.source == codes.mixedFirmware)
  }

  /** A flag has no bit outside itself. */
  lemma OwnFlag(flag: Word)
    ensures And(flag, flag) == flag && And(flag, Not(flag)) == 0
  {
    AndSelf(flag);
    AndNot(flag, flag);
  }

  lemma {:induction false} AndSelf(a: nat)
    ensures And(a, a) == a
  {
    if a != 0 {
      AndSelf(a / 2);
    }
  }
}
