/** Construction of the boot handoff: everything is checked before anything is written. */
module BootInfoBuilder {
  import opened Outcome
  import opened Words
  import opened MemoryMap
  import opened BootInfoTypes

  // ---- Areas -----------------------------------------------------------------------------

  /** A half-open range of physical bytes. */
  datatype Area = Area(start: nat, length: nat)

  function AreaEnd(a: Area): nat { a.start + a.length }

  predicate Fits(a: Area) { AreaEnd(a) < TWO64 }

  predicate Disjoint(a: Area, b: Area) { !(a.start < AreaEnd(b) && b.start < AreaEnd(a)) }

  ghost predicate AllApart(areas: seq<Area>) {
    forall i, j :: 0 <= i < j < |areas| ==> Disjoint(areas[i], areas[j])
  }

  ghost predicate AllFit(areas: seq<Area>) { forall i :: 0 <= i < |areas| ==> Fits(areas[i]) }

  ghost predicate ApartFrom(a: Area, others: seq<Area>) { forall i :: 0 <= i < |others| ==> Disjoint(a, others[i]) }

  function AreaOf(a: Allocation): Area { Area(a.start, a.length) }

  function ModuleArea(m: Module): Area { Area(m.start, Rounded(m.length)) }

  function ModuleAreas(modules: seq<Module>): (r: seq<Area>)
    ensures |r| == |modules| && forall i :: 0 <= i < |modules| ==> r[i] == ModuleArea(modules[i])
  {
    seq(|modules|, i requires 0 <= i < |modules| => ModuleArea(modules[i]))
  }

  /** `ranges_overlap` against a list: overflow is an error, checked per pair. */
  method AnyOverlap(a: Area, others: seq<Area>) returns (e: Option<BootInfoError>)
    ensures Fits(a) && AllFit(others) ==> (e.None? <==> ApartFrom(a, others))
    ensures e.None? ==> ApartFrom(a, others)
    ensures e.None? && others != [] ==> Fits(a) && AllFit(others)
  {
    for i := 0 to |others|
      invariant forall j :: 0 <= j < i ==> Disjoint(a, others[j]) && Fits(others[j])
      invariant i > 0 ==> Fits(a)
    {
      if !Fits(a) || !Fits(others[i]) {
        return Some(HandoffRangeOverflow);
      }
      if !Disjoint(a, others[i]) {
        return Some(HandoffStorageOverlap);
      }
    }
    return None;
  }

  // ---- Memory under an area --------------------------------------------------------------

  datatype Wanted = OnlyReserved | Framebuffer | Rsdp

  predicate Accepts(w: Wanted, k: MemoryKind) {
    match w
    case OnlyReserved => k.Reserved?
    case Framebuffer => k.Reserved? || k.Mmio?
    case Rsdp => k.AcpiReclaim? || k.AcpiNvs? || k.Reserved?
  }

  predicate Holds(r: MemoryRange, a: Area, w: Wanted) {
    Accepts(w, r.kind) && r.start <= a.start && AreaEnd(a) <= RangeEnd(r)
  }

  /** One range of an accepted kind holds the whole area. */
  ghost predicate Backed(memory: seq<MemoryRange>, a: Area, w: Wanted) {
    exists i :: 0 <= i < |memory| && Holds(memory[i], a, w)
  }

  /** `range_has_kind` over a validated map. */
  method CheckBacked(memory: seq<MemoryRange>, a: Area, w: Wanted) returns (e: Option<BootInfoError>)
    requires MapOk(memory)
    ensures e.None? <==> Backed(memory, a, w)
  {
    if !Fits(a) {
      NotBacked(memory, a, w);
      return Some(HandoffRangeOverflow);
    }
    for i := 0 to |memory|
      invariant forall j :: 0 <= j < i ==> !Holds(memory[j], a, w)
    {
      if Holds(memory[i], a, w) {
        return None;
      }
    }
    return Some(HandoffStorageNotReserved);
  }

  lemma NotBacked(memory: seq<MemoryRange>, a: Area, w: Wanted)
    requires MapOk(memory) && !Fits(a)
    ensures !Backed(memory, a, w)
  {
    forall i | 0 <= i < |memory| ensures !Holds(memory[i], a, w) {
      assert GoodRange(memory[i]);
    }
  }

  // ---- Modules ---------------------------------------------------------------------------

  ghost predicate KindsAre(modules: seq<Module>, kinds: seq<ModuleKind>) {
    |modules| == |kinds| && forall i :: 0 <= i < |modules| ==> modules[i].kind == kinds[i]
  }

  ghost predicate InOrder(modules: seq<Module>) {
    KindsAre(modules, ExpectedKinds(true)) || KindsAre(modules, ExpectedKinds(false))
  }

  /** Good records in the fixed order, with page-rounded extents that do not meet. */
  ghost predicate ModulesOk(abi: HandoffAbi, modules: seq<Module>)
    requires abi.frameStride > 0
  {
    && (forall i :: 0 <= i < |modules| ==> GoodModule(abi, modules[i]))
    && AllFit(ModuleAreas(modules)) && AllApart(ModuleAreas(modules)) && InOrder(modules)
  }

  ghost predicate Seen(modules: seq<Module>, n: nat, kind: ModuleKind) {
    exists i :: 0 <= i < n && i < |modules| && modules[i].kind == kind
  }

  lemma OrderIsUnique(modules: seq<Module>, i: nat, j: nat)
    requires InOrder(modules) && i < j < |modules|
    ensures modules[i].kind != modules[j].kind
  {
  }

  lemma OrderHas(modules: seq<Module>)
    requires InOrder(modules)
    ensures Seen(modules, |modules|, Bootstrap) && Seen(modules, |modules|, Bootfs)
            && Seen(modules, |modules|, PagingHandoff)
    ensures KindsAre(modules, ExpectedKinds(Seen(modules, |modules|, BootDeviceTable)))
  {
    assert modules[0].kind == Bootstrap && modules[1].kind == Bootfs && modules[2].kind == PagingHandoff;
    if |modules| == 4 {
      assert modules[3].kind == BootDeviceTable;
    } else {
      forall i | 0 <= i < |modules| ensures modules[i].kind != BootDeviceTable {
        assert i == 0 || i == 1 || i == 2;
      }
    }
  }

  /** `validate_modules`. */
  method ValidateModules(abi: HandoffAbi, modules: seq<Module>) returns (e: Option<BootInfoError>)
    requires abi.frameStride > 0
    ensures e.None? <==> ModulesOk(abi, modules)
  {
    var seen: set<ModuleKind> := {};
    var areas := ModuleAreas(modules);
    for i := 0 to |modules|
      invariant forall k :: k in seen <==> Seen(modules, i, k)
      invariant forall j :: 0 <= j < i ==> GoodModule(abi, modules[j])
      invariant forall j, k :: 0 <= j < i && j < k < |modules| ==> Disjoint(areas[j], areas[k])
      invariant i > 0 && |modules| > 1 ==> AllFit(areas)
    {
      e := CheckModuleRecord(modules[i]);
      if e.Some? {
        return;
      }
      if modules[i].kind in seen {
        if InOrder(modules) {
          var j :| 0 <= j < i && j < |modules| && modules[j].kind == modules[i].kind;
          OrderIsUnique(modules, j, i);
        }
        return Some(DuplicateModule);
      }
      e := CheckModuleKind(abi, modules[i]);
      if e.Some? {
        return;
      }
      seen := seen + {modules[i].kind};
      e := AnyOverlap(areas[i], areas[i + 1..]);
      if e.Some? {
        OverlapRefutes(abi, modules, i);
        return;
      }
      RestApart(areas, i);
      FitsFromFirst(areas, i);
    }
    e := CheckOrder(modules, seen);
    if e.None? {
      ModulesDone(abi, modules);
    }
  }

  lemma OverlapRefutes(abi: HandoffAbi, modules: seq<Module>, i: nat)
    requires abi.frameStride > 0 && i < |modules|
    requires var areas := ModuleAreas(modules);
      Fits(areas[i]) && AllFit(areas[i + 1..]) ==> !ApartFrom(areas[i], areas[i + 1..])
    ensures !ModulesOk(abi, modules)
  {
    var areas := ModuleAreas(modules);
    var rest := areas[i + 1..];
    assert forall k :: 0 <= k < |rest| ==> rest[k] == areas[i + 1 + k];
    assert AllFit(areas) ==> Fits(areas[i]) && AllFit(rest);
    assert AllApart(areas) ==> ApartFrom(areas[i], rest);
  }

  lemma RestApart(areas: seq<Area>, i: nat)
    requires i < |areas| && ApartFrom(areas[i], areas[i + 1..])
    ensures forall k :: i < k < |areas| ==> Disjoint(areas[i], areas[k])
  {
    forall k | i < k < |areas| ensures Disjoint(areas[i], areas[k]) {
      assert areas[i + 1..][k - i - 1] == areas[k];
    }
  }

  /** The first module is compared with all others, so from then on every extent is known to fit. */
  lemma FitsFromFirst(areas: seq<Area>, i: nat)
    requires i < |areas| && (areas[i + 1..] != [] ==> Fits(areas[i]) && AllFit(areas[i + 1..]))
    ensures i == 0 && |areas| > 1 ==> AllFit(areas)
  {
    if i == 0 && |areas| > 1 {
      forall k | 0 <= k < |areas| ensures Fits(areas[k]) {
        assert k > 0 ==> areas[1..][k - 1] == areas[k];
      }
    }
  }

  lemma ModulesDone(abi: HandoffAbi, modules: seq<Module>)
    requires abi.frameStride > 0 && InOrder(modules) && forall j :: 0 <= j < |modules| ==> GoodModule(abi, modules[j])
    requires |modules| > 1 ==> AllFit(ModuleAreas(modules))
    requires forall j, k :: 0 <= j < k < |modules| ==> Disjoint(ModuleAreas(modules)[j], ModuleAreas(modules)[k])
    ensures ModulesOk(abi, modules)
  {
  }

  /** The checks after the loop: nothing missing, and the exact order. */
  method CheckOrder(modules: seq<Module>, seen: set<ModuleKind>) returns (e: Option<BootInfoError>)
    requires forall k :: k in seen <==> Seen(modules, |modules|, k)
    ensures e.None? <==> InOrder(modules)
  {
    if InOrder(modules) {
      OrderHas(modules);
    }
    if Bootstrap !in seen {
      return Some(MissingModule(Bootstrap));
    }
    if Bootfs !in seen {
      return Some(MissingModule(Bootfs));
    }
    if PagingHandoff !in seen {
      return Some(MissingModule(PagingHandoff));
    }
    var expected := ExpectedKinds(BootDeviceTable in seen);
    if |modules| != |expected| {
      return Some(InvalidModuleOrder);
    }
    for i := 0 to |modules|
      invariant forall j :: 0 <= j < i ==> modules[j].kind == expected[j]
    {
      if modules[i].kind != expected[i] {
        return Some(InvalidModuleOrder);
      }
    }
    return None;
  }

  // ---- Handoff areas ---------------------------------------------------------------------

  function Fixed(input: HandoffInput): (r: seq<Area>)
    ensures |r| == 3
  {
    [AreaOf(input.infoStorage), AreaOf(input.mapStorage), AreaOf(input.moduleStorage)]
  }

  /** The optional allocations that are present. */
  function Additional(input: HandoffInput): seq<Area> {
    (if input.commandLine.Some? then [AreaOf(input.commandLine.value.storage)] else [])
    + (if input.entropy.Some? then [AreaOf(input.entropy.value.storage)] else [])
    + (if input.rsdp.Some? then [AreaOf(input.rsdp.value.storage)] else [])
  }

  /** All memory the handoff refers to, modules rounded to whole pages. */
  function HandoffAreas(input: HandoffInput): seq<Area> {
    Fixed(input) + Additional(input) + ModuleAreas(input.modules)
  }

  ghost predicate Cross(a: seq<Area>, b: seq<Area>) {
    forall i :: 0 <= i < |a| ==> ApartFrom(a[i], b)
  }

  /** `validate_distinct_handoff_ranges` over extents that fit. */
  method ValidateDistinct(fixed: seq<Area>, additional: seq<Area>, modules: seq<Area>)
    returns (e: Option<BootInfoError>)
    requires AllFit(fixed) && AllFit(additional) && AllFit(modules)
    ensures e.None? <==> AllApart(fixed + additional) && Cross(fixed + additional, modules)
  {
    var all := fixed + additional;
    e := FixedDistinct(fixed, additional, modules);
    if e.Some? {
      return;
    }
    for i := 0 to |additional|
      invariant ApartUpTo(all, |fixed| + i) && Cross(all[..|fixed| + i], modules)
    {
      var n := |fixed| + i;
      e := AdditionalDistinct(fixed, additional, modules, i);
      if e.Some? {
        return;
      }
      ApartNext(all, n, fixed, additional[..i]);
      CrossNext(all, n, modules);
    }
    assert all[..|all|] == all;
    return None;
  }

  /** One optional allocation against the fixed ones, the modules and the earlier optional ones. */
  method AdditionalDistinct(fixed: seq<Area>, additional: seq<Area>, modules: seq<Area>, i: nat)
    returns (e: Option<BootInfoError>)
    requires AllFit(fixed) && AllFit(additional) && AllFit(modules) && i < |additional|
    ensures e.None? ==> ApartFrom(additional[i], fixed) && ApartFrom(additional[i], modules)
                        && ApartFrom(additional[i], additional[..i])
    ensures e.Some? ==> !(AllApart(fixed + additional) && Cross(fixed + additional, modules))
  {
    var all, n := fixed + additional, |fixed| + i;
    assert all[n] == additional[i];
    e := AnyOverlap(additional[i], fixed);
    if e.Some? {
      EarlierMeets(all, n, fixed, 0);
      return;
    }
    e := AnyOverlap(additional[i], modules);
    if e.Some? {
      assert !ApartFrom(all[n], modules);
      return;
    }
    e := AnyOverlap(additional[i], additional[..i]);
    if e.Some? {
      EarlierMeets(all, n, additional[..i], |fixed|);
    }
  }

  /** The fixed allocations against each other and against the modules. */
  method FixedDistinct(fixed: seq<Area>, additional: seq<Area>, modules: seq<Area>) returns (e: Option<BootInfoError>)
    requires AllFit(fixed) && AllFit(modules)
    ensures e.None? ==> ApartUpTo(fixed + additional, |fixed|) && Cross((fixed + additional)[..|fixed|], modules)
    ensures e.Some? ==> !(AllApart(fixed + additional) && Cross(fixed + additional, modules))
  {
    var all := fixed + additional;
    assert all[..|fixed|] == fixed;
    for i := 0 to |fixed|
      invariant forall j, k :: 0 <= j < i && j < k < |fixed| ==> Disjoint(fixed[j], fixed[k])
      invariant forall j :: 0 <= j < i ==> ApartFrom(fixed[j], modules)
    {
      e := AnyOverlap(fixed[i], fixed[i + 1..]);
      if e.Some? {
        PairMeets(fixed, additional, i);
        return;
      }
      RestApart(fixed, i);
      e := AnyOverlap(fixed[i], modules);
      if e.Some? {
        assert all[i] == fixed[i] && !ApartFrom(all[i], modules);
        return;
      }
    }
    return None;
  }

  lemma CrossNext(all: seq<Area>, n: nat, modules: seq<Area>)
    requires n < |all| && Cross(all[..n], modules) && ApartFrom(all[n], modules)
    ensures Cross(all[..n + 1], modules)
  {
    var longer := all[..n + 1];
    forall i | 0 <= i < |longer| ensures ApartFrom(longer[i], modules) {
      if i < n {
        assert all[..n][i] == longer[i];
      }
    }
  }

  ghost predicate ApartUpTo(all: seq<Area>, n: nat) {
    forall j, k :: 0 <= j < k < n && k < |all| ==> Disjoint(all[j], all[k])
  }

  lemma PairMeets(fixed: seq<Area>, additional: seq<Area>, i: nat)
    requires i < |fixed| && !ApartFrom(fixed[i], fixed[i + 1..])
    ensures !AllApart(fixed + additional)
  {
    var all := fixed + additional;
    var k :| 0 <= k < |fixed[i + 1..]| && !Disjoint(fixed[i], fixed[i + 1..][k]);
    assert all[i] == fixed[i] && all[i + 1 + k] == fixed[i + 1..][k];
  }

  lemma EarlierMeets(all: seq<Area>, n: nat, part: seq<Area>, offset: nat)
    requires n < |all| && offset + |part| <= n && !ApartFrom(all[n], part)
    requires forall k :: 0 <= k < |part| ==> part[k] == all[offset + k]
    ensures !AllApart(all)
  {
    var k :| 0 <= k < |part| && !Disjoint(all[n], part[k]);
    assert !Disjoint(all[offset + k], all[n]);
  }

  lemma ApartNext(all: seq<Area>, n: nat, first: seq<Area>, second: seq<Area>)
    requires n < |all| && ApartUpTo(all, n) && n == |first| + |second|
    requires forall k :: 0 <= k < |first| ==> first[k] == all[k]
    requires forall k :: 0 <= k < |second| ==> second[k] == all[|first| + k]
    requires ApartFrom(all[n], first) && ApartFrom(all[n], second)
    ensures ApartUpTo(all, n + 1)
  {
    forall j | 0 <= j < n ensures Disjoint(all[j], all[n]) {
      if j < |first| {
        assert Disjoint(all[n], first[j]);
      } else {
        assert Disjoint(all[n], second[j - |first|]);
      }
    }
  }

  lemma ApartTogether(a: seq<Area>, b: seq<Area>)
    requires AllApart(a) && AllApart(b) && Cross(a, b)
    ensures AllApart(a + b)
  {
    var all := a + b;
    forall i, j | 0 <= i < j < |all| ensures Disjoint(all[i], all[j]) {
      if i < |a| <= j {
        assert ApartFrom(a[i], b);
        assert Disjoint(a[i], b[j - |a|]);
      } else if |a| <= i {
        assert Disjoint(b[i - |a|], b[j - |a|]);
      }
    }
  }

  // ---- Optional parts --------------------------------------------------------------------

  ghost predicate StorageOk(memory: seq<MemoryRange>, a: Allocation, length: nat) {
    CheckRetained(a, length).None? && Backed(memory, AreaOf(a), OnlyReserved)
  }

  ghost predicate CommandLineOk(input: HandoffInput) {
    input.commandLine.Some? ==>
      var c := input.commandLine.value;
      StorageOk(input.memoryMap, c.storage, c.length) && 0 < c.length <= MAX_COMMAND_LINE_BYTES
  }

  ghost predicate EntropyOk(input: HandoffInput) {
    input.entropy.Some? ==>
      var c := input.entropy.value;
      StorageOk(input.memoryMap, c.storage, c.length) && 0 < c.length <= MAX_ENTROPY_BYTES
  }

  ghost predicate RsdpOk(input: HandoffInput) {
    input.rsdp.Some? ==>
      var c := input.rsdp.value;
      && StorageOk(input.memoryMap, c.storage, c.length) && c.length >= ACPI_RSDP_MINIMUM_BYTES
      && c.storage.start % ACPI_RSDP_ALIGNMENT == 0
  }

  ghost predicate FramebufferOk(input: HandoffInput) {
    input.framebuffer.Some? ==>
      var f := input.framebuffer.value;
      GoodFramebuffer(f) && Backed(input.memoryMap, Area(f.start, f.length), Framebuffer)
  }

  /** `build_command_line`. */
  method CheckCommandLine(input: HandoffInput) returns (e: Option<BootInfoError>)
    requires MapOk(input.memoryMap)
    ensures e.None? <==> CommandLineOk(input)
  {
    if input.commandLine.None? {
      return None;
    }
    var c := input.commandLine.value;
    e := CheckRetained(c.storage, c.length);
    if e.Some? {
      return;
    }
    if c.length > MAX_COMMAND_LINE_BYTES {
      return Some(CommandLineTooLarge);
    }
    if c.length == 0 {
      return Some(InvalidOptionalAddress);
    }
    e := CheckBacked(input.memoryMap, AreaOf(c.storage), OnlyReserved);
  }

  /** `build_entropy`. */
  method CheckEntropyInput(input: HandoffInput) returns (e: Option<BootInfoError>)
    requires MapOk(input.memoryMap)
    ensures e.None? <==> EntropyOk(input)
  {
    if input.entropy.None? {
      return None;
    }
    var c := input.entropy.value;
    if c.length == 0 || c.length > MAX_ENTROPY_BYTES || c.length > c.storage.length {
      return Some(InvalidEntropy);
    }
    e := CheckRetained(c.storage, c.length);
    if e.Some? {
      return;
    }
    e := CheckBacked(input.memoryMap, AreaOf(c.storage), OnlyReserved);
  }

  /** `build_framebuffer`. */
  method CheckFramebufferInput(input: HandoffInput) returns (e: Option<BootInfoError>)
    requires MapOk(input.memoryMap)
    ensures e.None? <==> FramebufferOk(input)
  {
    if input.framebuffer.None? {
      return None;
    }
    var f := input.framebuffer.value;
    if !GoodFramebuffer(f) {
      return Some(InvalidFramebuffer);
    }
    e := CheckBacked(input.memoryMap, Area(f.start, f.length), Framebuffer);
  }

  /** `build_acpi_rsdp`. */
  method CheckRsdp(input: HandoffInput) returns (e: Option<BootInfoError>)
    requires MapOk(input.memoryMap)
    ensures e.None? <==> RsdpOk(input)
  {
    if input.rsdp.None? {
      return None;
    }
    var c := input.rsdp.value;
    if c.storage.start == 0 || c.storage.start % ACPI_RSDP_ALIGNMENT != 0 || c.length < ACPI_RSDP_MINIMUM_BYTES
       || c.length > c.storage.length
    {
      return Some(InvalidAcpiRsdp);
    }
    e := CheckRetained(c.storage, c.length);
    if e.Some? {
      return;
    }
    e := CheckBacked(input.memoryMap, AreaOf(c.storage), OnlyReserved);
  }

  // ---- What is accepted ------------------------------------------------------------------

  ghost predicate WithinLimits(input: HandoffInput, limits: Option<Limits>) {
    limits.Some? ==> |input.memoryMap| <= limits.value.memoryMapEntries && |input.modules| <= limits.value.moduleEntries
  }

  ghost predicate TablesOk(abi: HandoffAbi, input: HandoffInput)
    requires GoodHandoffAbi(abi)
  {
    && CheckRetained(input.infoStorage, abi.bootInfoSize).None?
    && CheckTableStorage(input.mapStorage, |input.memoryMap|, abi.rangeSize, abi.rangeAlignment).None?
    && CheckTableStorage(input.moduleStorage, |input.modules|, abi.moduleSize, abi.moduleAlignment).None?
  }

  ghost predicate ModulesBacked(input: HandoffInput) {
    forall i :: 0 <= i < |input.modules| ==> Backed(input.memoryMap, ModuleArea(input.modules[i]), OnlyReserved)
  }

  ghost predicate FixedBacked(input: HandoffInput) {
    && Backed(input.memoryMap, AreaOf(input.infoStorage), OnlyReserved)
    && Backed(input.memoryMap, AreaOf(input.mapStorage), OnlyReserved)
    && Backed(input.memoryMap, AreaOf(input.moduleStorage), OnlyReserved)
  }

  /** The handoffs that are built. Nothing here looks at the constructed record. */
  ghost predicate Acceptable(abi: HandoffAbi, input: HandoffInput, limits: Option<Limits>, slots: nat)
    requires GoodHandoffAbi(abi)
  {
    && input.afterExit && input.memoryMap != [] && |input.modules| == slots && WithinLimits(input, limits)
    && TablesOk(abi, input) && MapOk(input.memoryMap) && FixedBacked(input)
    && ModulesOk(abi, input.modules) && ModulesBacked(input)
    && CommandLineOk(input) && EntropyOk(input) && FramebufferOk(input) && RsdpOk(input)
    && AllApart(HandoffAreas(input))
  }

  /** What makes a handoff safe to read later: its memory is reserved, and no two parts share a byte. */
  ghost predicate Safe(input: HandoffInput) {
    AllApart(HandoffAreas(input)) && EachBacked(input.memoryMap, HandoffAreas(input))
  }

  lemma AcceptableIsSafe(abi: HandoffAbi, input: HandoffInput, limits: Option<Limits>, slots: nat)
    requires GoodHandoffAbi(abi) && Acceptable(abi, input, limits, slots)
    ensures Safe(input)
  {
    AdditionalBacked(input);
    AllBacked(input.memoryMap, Fixed(input), Additional(input), ModuleAreas(input.modules));
  }

  ghost predicate EachBacked(memory: seq<MemoryRange>, areas: seq<Area>) {
    forall i :: 0 <= i < |areas| ==> Backed(memory, areas[i], OnlyReserved)
  }

  lemma AdditionalBacked(input: HandoffInput)
    requires CommandLineOk(input) && EntropyOk(input) && RsdpOk(input)
    ensures EachBacked(input.memoryMap, Additional(input))
  {
    var areas := Additional(input);
    forall a | a in areas ensures Backed(input.memoryMap, a, OnlyReserved) {
    }
  }

  lemma AllBacked(memory: seq<MemoryRange>, a: seq<Area>, b: seq<Area>, c: seq<Area>)
    requires EachBacked(memory, a) && EachBacked(memory, b) && EachBacked(memory, c)
    ensures EachBacked(memory, a + b + c)
  {
    var all := a + b + c;
    forall i | 0 <= i < |all| ensures Backed(memory, all[i], OnlyReserved) {
      if i < |a| {
        assert all[i] == a[i];
      } else if i < |a| + |b| {
        assert all[i] == b[i - |a|];
      } else {
        assert all[i] == c[i - |a| - |b|];
      }
    }
  }

  // ---- The constructed record ------------------------------------------------------------

  function Published(abi: HandoffAbi, input: HandoffInput): Info {
    Info(abi.bootInfoSize, abi.codes.infoVersion,
         if input.framebuffer.Some? then abi.codes.framebufferPresent else 0, 0,
         input.mapStorage.start, |input.memoryMap|, abi.rangeSize, input.moduleStorage.start, |input.modules|,
         abi.moduleSize,
         if input.rsdp.Some? then input.rsdp.value.storage.start else 0,
         if input.framebuffer.Some? then FramebufferRecordOf(abi.codes, input.framebuffer.value) else NO_FRAMEBUFFER,
         if input.commandLine.Some? then input.commandLine.value.storage.start else 0,
         if input.commandLine.Some? then input.commandLine.value.length else 0,
         if input.entropy.Some? then EntropyRecordOf(abi.codes, input.entropy.value) else NO_ENTROPY)
  }

  /** `validate_boot_info`. */
  function CheckInfo(abi: HandoffAbi, info: Info): Option<BootInfoError>
    requires abi.rangeAlignment > 0 && abi.moduleAlignment > 0
  {
    if info.size != abi.bootInfoSize || info.version != abi.codes.infoVersion then Some(InvalidRecordHeader)
    else if info.reserved != 0 then Some(InvalidReserved)
    else if And(info.flags, Not(abi.codes.framebufferPresent)) != 0 then Some(InvalidRecordHeader)
    else if info.rsdp != 0 && info.rsdp % ACPI_RSDP_ALIGNMENT != 0 then Some(InvalidAcpiRsdp)
    else
      var e := CheckTableReference(info.mapStart, info.mapCount, info.mapEntrySize, abi.rangeSize, abi.rangeAlignment);
      if e.Some? then e
      else
        var f := CheckTableReference(info.moduleStart, info.moduleCount, info.moduleEntrySize, abi.moduleSize,
                                     abi.moduleAlignment);
        if f.Some? then f
        else if info.commandLineLength > MAX_COMMAND_LINE_BYTES then Some(CommandLineTooLarge)
        else if (info.commandLineLength == 0) != (info.commandLineStart == 0) then Some(InvalidOptionalAddress)
        else if info.commandLineLength != 0 && info.commandLineStart + info.commandLineLength >= TWO64
          then Some(HandoffRangeOverflow)
        else if !FramebufferPartOk(abi, info) then Some(InvalidFramebuffer)
        else if info.entropy != NO_ENTROPY && !GoodEntropyRecord(abi.codes, info.entropy) then Some(InvalidEntropy)
        else None
  }

  /** A present framebuffer is checked again from its record; an absent one must be all zero. */
  predicate FramebufferPartOk(abi: HandoffAbi, info: Info) {
    if And(info.flags, abi.codes.framebufferPresent) != 0 then
      var f := DecodeFramebuffer(abi.codes, info.framebuffer); f.Some? && GoodFramebuffer(f.value)
    else info.framebuffer == NO_FRAMEBUFFER
  }

  lemma FramebufferRevalidates(abi: HandoffAbi, input: HandoffInput)
    requires GoodHandoffAbi(abi) && FramebufferOk(input)
    ensures var info := Published(abi, input);
            And(info.flags, Not(abi.codes.framebufferPresent)) == 0 && FramebufferPartOk(abi, info)
  {
    OwnFlag(abi.codes.framebufferPresent);
    if input.framebuffer.Some? {
      FramebufferRoundTrip(abi, input.framebuffer.value);
    }
  }

  lemma EntropyRevalidates(abi: HandoffAbi, input: HandoffInput)
    requires EntropyOk(input)
    ensures var r := Published(abi, input).entropy; r != NO_ENTROPY ==> GoodEntropyRecord(abi.codes, r)
  {
    OwnFlag(abi.codes.conditioned);
  }

  /** The validators that run on the constructed record cannot fail any more. */
  lemma RevalidationPasses(abi: HandoffAbi, input: HandoffInput, limits: Option<Limits>, slots: nat)
    requires GoodHandoffAbi(abi) && Acceptable(abi, input, limits, slots)
    ensures CheckInfo(abi, Published(abi, input)).None?
    ensures Published(abi, input).rsdp != 0 ==>
              Backed(input.memoryMap, Area(Published(abi, input).rsdp, ACPI_RSDP_MINIMUM_BYTES), Rsdp)
  {
    var info := Published(abi, input);
    FramebufferRevalidates(abi, input);
    EntropyRevalidates(abi, input);
    TableFitsInStorage(input.mapStorage, |input.memoryMap|, abi.rangeSize, abi.rangeAlignment);
    TableFitsInStorage(input.moduleStorage, |input.modules|, abi.moduleSize, abi.moduleAlignment);
    assert |input.modules| > 0;
    if input.rsdp.Some? {
      var c := input.rsdp.value;
      var i :| 0 <= i < |input.memoryMap| && Holds(input.memoryMap[i], AreaOf(c.storage), OnlyReserved);
      assert Holds(input.memoryMap[i], Area(info.rsdp, ACPI_RSDP_MINIMUM_BYTES), Rsdp);
    }
  }

  lemma TableFitsInStorage(a: Allocation, count: nat, size: nat, alignment: nat)
    requires alignment > 0 && CheckTableStorage(a, count, size, alignment).None? && count > 0
    ensures CheckTableReference(a.start, count, size, size, alignment).None?
  {
  }

  // ---- Building --------------------------------------------------------------------------

  /** Where the handoff is written. */
  class BootInfoOutput {
    var info: Info
    const modules: array<Module>

    constructor (info: Info, modules: array<Module>)
      ensures this.info == info && this.modules == modules
    {
      this.info, this.modules := info, modules;
    }
  }

  /** The first half of `build_inner`: every check on the input. */
  method CheckInput(abi: HandoffAbi, input: HandoffInput, limits: Option<Limits>, slots: nat)
    returns (e: Option<BootInfoError>)
    requires GoodHandoffAbi(abi)
    ensures e.None? <==> Acceptable(abi, input, limits, slots)
  {
    if !input.afterExit {
      return Some(ExitBootServicesIncomplete);
    }
    if input.memoryMap == [] {
      return Some(EmptyMemoryMap);
    }
    if |input.modules| != slots {
      return Some(OutputLengthMismatch);
    }
    if limits.Some? {
      if |input.memoryMap| > limits.value.memoryMapEntries {
        return Some(MemoryMapEntryLimitExceeded);
      }
      if |input.modules| > limits.value.moduleEntries {
        return Some(ModuleEntryLimitExceeded);
      }
    }
    e := CheckRetained(input.infoStorage, abi.bootInfoSize);
    if e.Some? {
      return;
    }
    e := CheckTableStorage(input.mapStorage, |input.memoryMap|, abi.rangeSize, abi.rangeAlignment);
    if e.Some? {
      return;
    }
    e := CheckTableStorage(input.moduleStorage, |input.modules|, abi.moduleSize, abi.moduleAlignment);
    if e.Some? {
      return;
    }
    var fault := ValidateMemoryMap(input.memoryMap);
    if fault.Some? {
      return Some(BadMemoryMap(fault.value));
    }
    e := CheckParts(abi, input);
  }

  /** The checks that need a valid memory map. */
  method CheckParts(abi: HandoffAbi, input: HandoffInput) returns (e: Option<BootInfoError>)
    requires GoodHandoffAbi(abi) && TablesOk(abi, input) && MapOk(input.memoryMap)
    ensures e.None? <==>
            && FixedBacked(input) && ModulesOk(abi, input.modules) && ModulesBacked(input)
            && CommandLineOk(input) && EntropyOk(input) && FramebufferOk(input) && RsdpOk(input)
            && AllApart(HandoffAreas(input))
  {
    e := CheckBacked(input.memoryMap, AreaOf(input.infoStorage), OnlyReserved);
    if e.Some? {
      return;
    }
    e := CheckBacked(input.memoryMap, AreaOf(input.mapStorage), OnlyReserved);
    if e.Some? {
      return;
    }
    e := CheckBacked(input.memoryMap, AreaOf(input.moduleStorage), OnlyReserved);
    if e.Some? {
      return;
    }
    e := ValidateModules(abi, input.modules);
    if e.Some? {
      return;
    }
    for i := 0 to |input.modules|
      invariant forall j :: 0 <= j < i ==> Backed(input.memoryMap, ModuleArea(input.modules[j]), OnlyReserved)
    {
      e := CheckBacked(input.memoryMap, ModuleArea(input.modules[i]), OnlyReserved);
      if e.Some? {
        return;
      }
    }
    e := CheckCommandLine(input);
    if e.Some? {
      return;
    }
    e := CheckEntropyInput(input);
    if e.Some? {
      return;
    }
    e := CheckFramebufferInput(input);
    if e.Some? {
      return;
    }
    e := CheckRsdp(input);
    if e.Some? {
      return;
    }
    e := ValidateDistinct(Fixed(input), Additional(input), ModuleAreas(input.modules));
    ApartExactly(input);
  }

  lemma ApartExactly(input: HandoffInput)
    requires AllApart(ModuleAreas(input.modules))
    ensures var front := Fixed(input) + Additional(input);
            AllApart(HandoffAreas(input)) <==> AllApart(front) && Cross(front, ModuleAreas(input.modules))
  {
    var front, modules, all := Fixed(input) + Additional(input), ModuleAreas(input.modules), HandoffAreas(input);
    if AllApart(front) && Cross(front, modules) {
      ApartTogether(front, modules);
    }
    if AllApart(all) {
      assert forall i :: 0 <= i < |front| ==> all[i] == front[i];
      assert forall i :: 0 <= i < |modules| ==> all[|front| + i] == modules[i];
    }
  }

  /** `build_inner`: all or nothing. */
  method Build(abi: HandoffAbi, input: HandoffInput, limits: Option<Limits>, output: BootInfoOutput)
    returns (e: Option<BootInfoError>)
    requires GoodHandoffAbi(abi)
    modifies output, output.modules
    ensures e.None? <==> Acceptable(abi, input, limits, output.modules.Length)
    ensures e.None? ==> Safe(input) && output.info == Published(abi, input) && output.modules[..] == input.modules
    ensures e.Some? ==> output.info == old(output.info) && output.modules[..] == old(output.modules[..])
  {
    e := CheckInput(abi, input, limits, output.modules.Length);
    if e.Some? {
      return;
    }
    AcceptableIsSafe(abi, input, limits, output.modules.Length);
    RevalidationPasses(abi, input, limits, output.modules.Length);
    var info := Published(abi, input);
    e := CheckInfo(abi, info);
    if e.Some? {
      return;
    }
    for i := 0 to output.modules.Length
      invariant output.modules[..i] == input.modules[..i]
    {
      output.modules[i] := input.modules[i];
    }
    assert output.modules[..] == output.modules[..output.modules.Length] == input.modules;
    var fault := ValidateMemoryMap(input.memoryMap);
    match fault {
      case Some(f) => return Some(BadMemoryMap(f));
      case None =>
    }
    if info.rsdp != 0 {
      e := CheckBacked(input.memoryMap, Area(info.rsdp, ACPI_RSDP_MINIMUM_BYTES), Rsdp);
      if e.Some? {
        return Some(InvalidAcpiRsdp);
      }
    }
    e := ValidateModules(abi, output.modules[..]);
    if e.Some? {
      return;
    }
    output.info := info;
    return None;
  }
}
