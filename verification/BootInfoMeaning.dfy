/** What an accepted handoff means to its reader: no part shares a byte with another, all of it is reserved, and the
record gives back the input. */
module BootInfoMeaning {
  import opened Outcome
  import opened Words
  import opened MemoryMap
  import opened BootInfoTypes
  import opened BootInfoBuilder

  // ---- Parts -----------------------------------------------------------------------------

  datatype Part = TheRecord | TheMap | TheModuleTable | TheCommandLine | TheEntropy | TheRsdp | AModule(index: nat)

  predicate InAllocation(a: Allocation, b: nat) { a.start <= b < a.start + a.length }

  /** The byte lies in a page that holds a byte of the module. */
  ghost predicate InModule(m: Module, b: nat) {
    exists c: nat :: m.start <= c < m.start + m.length && SamePage(b, c)
  }

  predicate SamePage(b: nat, c: nat) { b / 4096 == c / 4096 }

  /** The byte belongs to a part of the handoff. */
  ghost predicate Occupies(input: HandoffInput, part: Part, b: nat) {
    match part
    case TheRecord => InAllocation(input.infoStorage, b)
    case TheMap => InAllocation(input.mapStorage, b)
    case TheModuleTable => InAllocation(input.moduleStorage, b)
    case TheCommandLine => input.commandLine.Some? && InAllocation(input.commandLine.value.storage, b)
    case TheEntropy => input.entropy.Some? && InAllocation(input.entropy.value.storage, b)
    case TheRsdp => input.rsdp.Some? && InAllocation(input.rsdp.value.storage, b)
    case AModule(i) => i < |input.modules| && InModule(input.modules[i], b)
  }

  /** No byte belongs to two parts. */
  ghost predicate NothingShared(input: HandoffInput) {
    forall p, q, b: nat {:trigger Occupies(input, p, b), Occupies(input, q, b)} ::
      Occupies(input, p, b) && Occupies(input, q, b) ==> p == q
  }

  /** Every byte of every part lies in a page that the memory map lists as reserved. */
  ghost predicate AllReserved(input: HandoffInput) {
    forall p, b: nat {:trigger Occupies(input, p, b)} :: Occupies(input, p, b) ==> ReservedByte(input.memoryMap, b)
  }

  ghost predicate ReservedByte(memory: seq<MemoryRange>, b: nat) {
    exists i :: 0 <= i < |memory| && memory[i].kind == Reserved && memory[i].start <= b < RangeEnd(memory[i])
  }

  /** The place of a part among the areas that are compared. */
  function Place(input: HandoffInput, part: Part): Option<nat> {
    var c := if input.commandLine.Some? then 1 else 0;
    var e := if input.entropy.Some? then 1 else 0;
    match part
    case TheRecord => Some(0)
    case TheMap => Some(1)
    case TheModuleTable => Some(2)
    case TheCommandLine => if input.commandLine.Some? then Some(3) else None
    case TheEntropy => if input.entropy.Some? then Some(3 + c) else None
    case TheRsdp => if input.rsdp.Some? then Some(3 + c + e) else None
    case AModule(i) => if i < |input.modules| then Some(3 + |Additional(input)| + i) else None
  }

  predicate InArea(a: Area, b: nat) { a.start <= b < AreaEnd(a) }

  lemma RoundedIsPages(m: Module, b: nat)
    requires m.length > 0 && m.start % 4096 == 0
    ensures InArea(ModuleArea(m), b) <==> InModule(m, b)
  {
    var last := m.start + m.length - 1;
    var pages := (m.length + 4095) / 4096;
    assert Rounded(m.length) == pages * 4096;
    if InArea(ModuleArea(m), b) {
      var c := if b <= last then b else last;
      assert b / 4096 == c / 4096;
      assert SamePage(b, c);
    }
    if InModule(m, b) {
      var c: nat :| m.start <= c < m.start + m.length && SamePage(b, c);
      assert c / 4096 < m.start / 4096 + pages;
    }
  }

  lemma PlaceExact(input: HandoffInput, part: Part, b: nat)
    requires forall i :: 0 <= i < |input.modules| ==> input.modules[i].length > 0 && input.modules[i].start % 4096 == 0
    ensures Occupies(input, part, b) ==> Place(input, part).Some?
    ensures Place(input, part).Some? ==>
              var k := Place(input, part).value;
              k < |HandoffAreas(input)| && (Occupies(input, part, b) <==> InArea(HandoffAreas(input)[k], b))
  {
    if part.AModule? && part.index < |input.modules| {
      RoundedIsPages(input.modules[part.index], b);
    }
  }

  lemma PlacesDiffer(input: HandoffInput, p: Part, q: Part)
    requires Place(input, p).Some? && Place(input, p) == Place(input, q)
    ensures p == q
  {
  }

  /** Every area is the place of a part. */
  lemma PartAt(input: HandoffInput, k: nat) returns (p: Part)
    requires k < |HandoffAreas(input)|
    ensures Place(input, p) == Some(k)
  {
    var c := if input.commandLine.Some? then 1 else 0;
    var e := if input.entropy.Some? then 1 else 0;
    if k == 0 { p := TheRecord; }
    else if k == 1 { p := TheMap; }
    else if k == 2 { p := TheModuleTable; }
    else if k < 3 + c { p := TheCommandLine; }
    else if k < 3 + c + e { p := TheEntropy; }
    else if k < 3 + |Additional(input)| { p := TheRsdp; }
    else { p := AModule(k - 3 - |Additional(input)|); }
  }

  ghost predicate NoneEmpty(input: HandoffInput) {
    forall i :: 0 <= i < |HandoffAreas(input)| ==> HandoffAreas(input)[i].length > 0
  }

  lemma DisjointExact(a: Area, b: Area)
    requires a.length > 0 && b.length > 0
    ensures Disjoint(a, b) <==> forall c: nat :: !(InArea(a, c) && InArea(b, c))
  {
    var c := if a.start >= b.start then a.start else b.start;
    if !Disjoint(a, b) { assert InArea(a, c) && InArea(b, c); }
  }

  /** Comparing the areas decides whether parts share a byte. */
  lemma SharedExact(input: HandoffInput)
    requires NoneEmpty(input)
    requires forall i :: 0 <= i < |input.modules| ==> input.modules[i].length > 0 && input.modules[i].start % 4096 == 0
    ensures AllApart(HandoffAreas(input)) <==> NothingShared(input)
  {
    var areas := HandoffAreas(input);
    if AllApart(areas) {
      forall p, q, b: nat | Occupies(input, p, b) && Occupies(input, q, b) ensures p == q {
        PlaceExact(input, p, b);
        PlaceExact(input, q, b);
        var i, j := Place(input, p).value, Place(input, q).value;
        if i == j { PlacesDiffer(input, p, q); }
      }
    }
    if NothingShared(input) {
      forall i, j | 0 <= i < j < |areas| ensures Disjoint(areas[i], areas[j]) {
        var p := PartAt(input, i);
        var q := PartAt(input, j);
        forall c: nat ensures !(InArea(areas[i], c) && InArea(areas[j], c)) {
          PlaceExact(input, p, c);
          PlaceExact(input, q, c);
        }
        DisjointExact(areas[i], areas[j]);
      }
    }
  }

  // ---- Modules ---------------------------------------------------------------------------

  /** A module record as the kernel relies on it: only the bootstrap may be writable, and the paging handoff holds a
      whole number of table frames. */
  ghost predicate WellFormed(abi: HandoffAbi, m: Module) {
    && m.headerOk && m.reservedZero && !m.otherFlags
    && 0 < m.start && m.start % 4096 == 0 && 0 < m.length && m.start + m.length < TWO64
    && (m.kind.Bootstrap? || m.readOnly) && !m.kind.OtherModule?
    && (m.kind.PagingHandoff? ==>
          m.length <= abi.maximumPagingBytes
          && exists frames: nat {:trigger Frames(abi, frames)} ::
               frames >= abi.minimumFrames && m.length == Frames(abi, frames))
  }

  function Frames(abi: HandoffAbi, frames: nat): nat { abi.framesOffset + frames * abi.frameStride }

  lemma ModuleExact(abi: HandoffAbi, m: Module)
    requires abi.frameStride > 0
    ensures GoodModule(abi, m) <==> WellFormed(abi, m)
  {
    if m.kind.PagingHandoff? { FramesExact(abi, m.length); }
  }

  lemma FramesExact(abi: HandoffAbi, length: nat)
    requires abi.frameStride > 0
    ensures abi.framesOffset + abi.minimumFrames * abi.frameStride <= length
              && (length - abi.framesOffset) % abi.frameStride == 0
            <==> exists frames: nat {:trigger Frames(abi, frames)} ::
                   frames >= abi.minimumFrames && length == Frames(abi, frames)
  {
    var stride, least := abi.frameStride, abi.minimumFrames;
    ScaleOrder(least, 0, stride);
    if abi.framesOffset + least * stride <= length && (length - abi.framesOffset) % stride == 0 {
      var rest: nat := length - abi.framesOffset;
      var frames := rest / stride;
      assert rest == frames * stride;
      NotFewer(frames, least, stride);
      assert length == Frames(abi, frames);
    }
    if frames: nat :| frames >= least && length == Frames(abi, frames) {
      ScaleOrder(frames, least, stride);
      DivModUnique(frames * stride, stride, frames, 0);
    }
  }

  lemma NotFewer(a: nat, b: nat, stride: nat)
    requires stride > 0 && a * stride >= b * stride
    ensures a >= b
  {
    assert a < b ==> (b - a) * stride >= stride;
    assert (b - a) * stride == b * stride - a * stride;
  }

  lemma ScaleOrder(a: nat, b: nat, stride: nat)
    requires a >= b
    ensures a * stride >= b * stride
  {
    assert a * stride - b * stride == (a - b) * stride;
  }

  /** The modules the kernel finds: bootstrap, file system, paging handoff and perhaps a device table, in this order. */
  ghost predicate Complete(modules: seq<Module>) {
    && 3 <= |modules| <= 4 && modules[0].kind == Bootstrap && modules[1].kind == Bootfs
    && modules[2].kind == PagingHandoff && (|modules| == 4 ==> modules[3].kind == BootDeviceTable)
  }

  lemma OrderExact(modules: seq<Module>)
    ensures InOrder(modules) <==> Complete(modules)
  {
    if Complete(modules) { assert KindsAre(modules, ExpectedKinds(|modules| == 4)); }
  }

  // ---- What acceptance means -------------------------------------------------------------

  /** One reserved or device range holds every pixel, so no usable memory is drawn on. */
  ghost predicate PixelsMappable(input: HandoffInput) {
    input.framebuffer.Some? ==>
      var f := input.framebuffer.value;
      exists i :: 0 <= i < |input.memoryMap| && (input.memoryMap[i].kind == Reserved || input.memoryMap[i].kind == Mmio)
                  && input.memoryMap[i].start <= f.start && f.start + f.length <= RangeEnd(input.memoryMap[i])
  }

  /** An accepted handoff is complete, all of it is reserved, and no two parts share a byte. */
  lemma AcceptedMeans(abi: HandoffAbi, input: HandoffInput, limits: Option<Limits>, slots: nat)
    requires GoodHandoffAbi(abi) && Acceptable(abi, input, limits, slots)
    ensures NothingShared(input) && AllReserved(input) && Complete(input.modules)
    ensures forall i :: 0 <= i < |input.modules| ==> WellFormed(abi, input.modules[i])
    ensures PixelsMappable(input)
  {
    forall i | 0 <= i < |input.modules| ensures WellFormed(abi, input.modules[i]) {
      ModuleExact(abi, input.modules[i]);
    }
    OrderExact(input.modules);
    PixelsBacked(input);
    AreasNonempty(abi, input, limits, slots);
    SharedExact(input);
    AcceptableIsSafe(abi, input, limits, slots);
    forall p, b: nat | Occupies(input, p, b) ensures ReservedByte(input.memoryMap, b) {
      PlaceExact(input, p, b);
      var a := HandoffAreas(input)[Place(input, p).value];
      assert Backed(input.memoryMap, a, OnlyReserved);
      var i :| 0 <= i < |input.memoryMap| && Holds(input.memoryMap[i], a, OnlyReserved);
      assert input.memoryMap[i].kind == Reserved;
    }
  }

  lemma PixelsBacked(input: HandoffInput)
    requires FramebufferOk(input)
    ensures PixelsMappable(input)
  {
    if input.framebuffer.Some? {
      var f := input.framebuffer.value;
      var i :| 0 <= i < |input.memoryMap| && Holds(input.memoryMap[i], Area(f.start, f.length), Framebuffer);
      assert input.memoryMap[i].kind == Reserved || input.memoryMap[i].kind == Mmio;
    }
  }

  lemma AreasNonempty(abi: HandoffAbi, input: HandoffInput, limits: Option<Limits>, slots: nat)
    requires GoodHandoffAbi(abi) && Acceptable(abi, input, limits, slots)
    requires forall i :: 0 <= i < |input.modules| ==> WellFormed(abi, input.modules[i])
    ensures NoneEmpty(input)
  {
    ScaleOrder(|input.memoryMap|, 1, abi.rangeSize);
    ScaleOrder(|input.modules|, 1, abi.moduleSize);
    forall i | 0 <= i < |input.modules| ensures input.modules[i].length > 0 {
      assert WellFormed(abi, input.modules[i]);
    }
    NoneEmptyFrom(input);
  }

  lemma NoneEmptyFrom(input: HandoffInput)
    requires input.infoStorage.length > 0 && input.mapStorage.length > 0 && input.moduleStorage.length > 0
    requires input.commandLine.Some? ==> input.commandLine.value.storage.length > 0
    requires input.entropy.Some? ==> input.entropy.value.storage.length > 0
    requires input.rsdp.Some? ==> input.rsdp.value.storage.length > 0
    requires forall i :: 0 <= i < |input.modules| ==> input.modules[i].length > 0
    ensures NoneEmpty(input)
  {
    var front, modules := Fixed(input) + Additional(input), ModuleAreas(input.modules);
    assert forall i :: 0 <= i < |front| ==> front[i].length > 0;
    forall i | 0 <= i < |modules| ensures modules[i].length > 0 {
      assert Rounded(input.modules[i].length) >= input.modules[i].length;
    }
    assert HandoffAreas(input) == front + modules;
  }

  // ---- Reading the record back -----------------------------------------------------------

  datatype Table = Table(start: nat, count: nat)

  datatype Seed = Seed(start: nat, length: nat, source: EntropySource, conditioned: bool)

  /** What a kernel learns from the record. */
  datatype View = View(memoryMap: Table, modules: Table, rsdp: Option<nat>, commandLine: Option<Table>,
                       framebuffer: Option<FramebufferInput>, entropy: Option<Seed>)

  /** The codes can be told apart, and a set flag is seen. */
  ghost predicate Legible(codes: RecordCodes) {
    && codes.uefiRng != codes.firmwarePlatform && codes.uefiRng != codes.mixedFirmware
    && codes.firmwarePlatform != codes.mixedFirmware && codes.conditioned != 0 && codes.entropySize != 0
  }

  /** Reading: absent parts have a zero address, or no flag, or an empty descriptor. */
  ghost function Read(abi: HandoffAbi, info: Info): View {
    View(Table(info.mapStart, info.mapCount), Table(info.moduleStart, info.moduleCount),
         if info.rsdp == 0 then None else Some(info.rsdp),
         if info.commandLineStart == 0 then None else Some(Table(info.commandLineStart, info.commandLineLength)),
         if And(info.flags, abi.codes.framebufferPresent) == 0 then None
         else DecodeFramebuffer(abi.codes, info.framebuffer),
         if info.entropy.size == 0 then None
         else Some(SeedOf(abi.codes, info.entropy)))
  }

  /** What the loader means to say. */
  ghost function Said(input: HandoffInput): View {
    View(Table(input.mapStorage.start, |input.memoryMap|), Table(input.moduleStorage.start, |input.modules|),
         match input.rsdp case None => None case Some(r) => Some(r.storage.start as nat),
         match input.commandLine case None => None case Some(c) => Some(Table(c.storage.start, c.length)),
         input.framebuffer,
         match input.entropy case None => None
                             case Some(e) => Some(Seed(e.storage.start, e.length, e.source, e.conditioned)))
  }

  /** The record gives back what the loader means to say, and its sizes and versions are the ABI's. */
  lemma RecordReadsBack(abi: HandoffAbi, input: HandoffInput, limits: Option<Limits>, slots: nat)
    requires GoodHandoffAbi(abi) && Acceptable(abi, input, limits, slots) && Legible(abi.codes)
    ensures Read(abi, Published(abi, input)) == Said(input)
    ensures var info := Published(abi, input);
            && info.size == abi.bootInfoSize && info.version == abi.codes.infoVersion && info.reserved == 0
            && info.mapEntrySize == abi.rangeSize && info.moduleEntrySize == abi.moduleSize
  {
    OwnFlag(abi.codes.framebufferPresent);
    NoFlag(abi.codes.framebufferPresent);
    if input.framebuffer.Some? { FramebufferRoundTrip(abi, input.framebuffer.value); }
    if input.entropy.Some? { SeedReadsBack(abi.codes, input.entropy.value); }
  }

  /** The seed that an entropy descriptor stands for. */
  ghost function SeedOf(codes: RecordCodes, r: EntropyRecord): Seed {
    Seed(r.start, r.length,
         if r.source == codes.uefiRng then UefiRng else if r.source == codes.firmwarePlatform then FirmwarePlatform
         else MixedFirmware,
         And(r.flags, codes.conditioned) != 0)
  }

  lemma SeedReadsBack(codes: RecordCodes, e: EntropyInput)
    requires Legible(codes)
    ensures SeedOf(codes, EntropyRecordOf(codes, e)) == Seed(e.storage.start, e.length, e.source, e.conditioned)
  {
    OwnFlag(codes.conditioned);
    NoFlag(codes.conditioned);
  }

  lemma NoFlag(flag: Word)
    ensures And(0, flag) == 0
  {
  }

  /** Every pixel of an accepted framebuffer lies inside its memory. */
  lemma PixelInside(f: FramebufferInput, x: nat, y: nat)
    requires GoodFramebuffer(f) && x < f.width && y < f.height
    ensures f.start + 4 * (y * f.pixelsPerLine + x) + 4 <= f.start + f.length < TWO64
  {
    ScaleOrder(f.height, y + 1, f.pixelsPerLine);
  }
}
