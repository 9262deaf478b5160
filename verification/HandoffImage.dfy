/** What a transition must map, read off its input: which bytes, where to, and with what permissions. */
module HandoffImage {
  import opened Outcome
  import opened Words
  import opened TransitionTypes

  predicate SameGranule(a: nat, b: nat, g: nat)
    requires g > 0
  {
    a / g == b / g
  }

  /** The address lies in a granule that holds a byte of the range. */
  ghost predicate Near(v: nat, start: nat, len: nat, g: nat)
    requires g > 0
  {
    exists b: nat :: start <= b < start + len && SameGranule(b, v, g)
  }

  /** Some mapping of this kind takes `v` to `p`. */
  ghost predicate Mapped(ms: seq<Mapping>, kind: MappingKind, v: nat, p: int, permissions: Permissions) {
    exists m :: m in ms && Takes(m, kind, v, p, permissions)
  }

  ghost predicate Takes(m: Mapping, kind: MappingKind, v: nat, p: int, permissions: Permissions) {
    m.kind == kind && m.Covers(v) && p == m.physicalStart + (v - m.virtualStart) && m.permissions == permissions
  }

  datatype HandedRange = HandedRange(start: nat, len: nat, permissions: Permissions)

  function ReadOnly(range: RetainedRange): HandedRange {
    HandedRange(range.physicalStart, range.byteLen, Permissions(false, false))
  }

  /** The bytes handed to the kernel under each name: data is read-only, the stub is code, the stack is writable. */
  function Handed(id: IdentityInputs, kind: MappingKind): Option<HandedRange> {
    match kind
    case BootInfo => Some(ReadOnly(id.bootInfo))
    case MemoryMapTable => Some(ReadOnly(id.memoryMapTable))
    case ModuleTable => Some(ReadOnly(id.moduleTable))
    case ModuleData(i) => if i < |id.moduleData| then Some(ReadOnly(id.moduleData[i])) else None
    case CommandLine => if id.commandLine.Some? then Some(ReadOnly(id.commandLine.value)) else None
    case Entropy => if id.entropy.Some? then Some(ReadOnly(id.entropy.value)) else None
    case RequiredAcpiRsdp =>
      if id.validatedRsdp.None? then None
      else Some(HandedRange(id.validatedRsdp.value.recordPhysicalStart, id.validatedRsdp.value.recordByteLen,
                            Permissions(false, false)))
    case HandoffStub =>
      Some(HandedRange(id.handoffStub.physicalStart, id.handoffStub.byteLen, Permissions(false, true)))
    case TransitionStack =>
      Some(HandedRange(id.transitionStack.physicalStart, id.transitionStack.byteLen, Permissions(true, false)))
    case KernelSegment(_) => None
    case TransitionTableIdentity => None
  }

  /** The retained bytes behind a handed range: the range itself, but for the ACPI record its whole pages. */
  function Allocated(id: IdentityInputs, kind: MappingKind): Option<RetainedRange> {
    match kind
    case BootInfo => Some(id.bootInfo)
    case MemoryMapTable => Some(id.memoryMapTable)
    case ModuleTable => Some(id.moduleTable)
    case ModuleData(i) => if i < |id.moduleData| then Some(id.moduleData[i]) else None
    case CommandLine => id.commandLine
    case Entropy => id.entropy
    case RequiredAcpiRsdp =>
      if id.validatedRsdp.None? then None else Some(id.validatedRsdp.value.retainedAllocation)
    case HandoffStub => Some(id.handoffStub)
    case TransitionStack => Some(id.transitionStack)
    case KernelSegment(_) => None
    case TransitionTableIdentity => None
  }

  /** How many ranges the kernel is handed. */
  function HandedCount(id: IdentityInputs): nat {
    5 + |id.moduleData| + (if id.commandLine.Some? then 1 else 0) + (if id.entropy.Some? then 1 else 0)
    + (if id.validatedRsdp.Some? then 1 else 0)
  }

  /** The smallest aligned range around `[start, end)`, mapped at its own address, without overflow in rounding. */
  ghost predicate Surrounds(m: Mapping, start: nat, end: nat, g: Word)
    requires g > 0
  {
    && m.virtualStart == m.physicalStart && m.virtualStart % g == 0 && m.VirtualEnd() % g == 0
    && m.virtualStart <= start < m.virtualStart + g && end <= m.VirtualEnd() < end + g <= TWO64
  }

  /** `m` maps the range handed under its kind: retained, nonempty, below 2^64, and of the size the policy asks for. */
  ghost predicate MapsHanded(id: IdentityInputs, policy: Policy, m: Mapping)
    requires policy.mappingGranule > 0 && policy.transitionStackAlignment > 0
  {
    && Handed(id, m.kind).Some? && Allocated(id, m.kind).Some?
    && var h, a := Handed(id, m.kind).value, Allocated(id, m.kind).value;
       && a.lifetime == m.lifetime == RetainedUntilReplacement && a.byteLen > 0 && a.physicalStart + a.byteLen < TWO64
       && h.len > 0 && h.start + h.len < TWO64 && m.permissions == h.permissions
       && Surrounds(m, h.start, h.start + h.len, policy.mappingGranule)
       && (m.kind.RequiredAcpiRsdp? ==>
             m.physicalStart == a.physicalStart && m.byteLen == a.byteLen
             && m.byteLen / policy.mappingGranule <= policy.rsdpMaxIntersectingPages)
       && (m.kind.TransitionStack? ==>
             h.len == policy.transitionStackSize && h.start % policy.transitionStackAlignment == 0)
  }

  /** A segment's memory, with the rest of its granules, goes to its pages with its own permissions. */
  ghost predicate SegmentTakes(k: KernelSegmentPages, g: nat, kind: MappingKind, v: nat, p: int,
                               permissions: Permissions)
    requires g > 0
  {
    var s := k.segment;
    && kind == KernelSegment(s.programHeaderIndex) && Near(v, s.virtualAddress, s.memorySize, g)
    && p == k.pages.physicalStart + (v - (s.virtualAddress - s.virtualAddress % g))
    && permissions.writable == s.permissions.write && permissions.executable == s.permissions.execute
  }

  /** The input asks for `v` to be mapped to `p`: by a kernel segment, or by a handed range at its own address. */
  ghost predicate Wants(input: PreflightInput, kind: MappingKind, v: nat, p: int, permissions: Permissions)
    requires input.policy.mappingGranule > 0
  {
    var g := input.policy.mappingGranule;
    || (exists k :: k in input.kernelSegments && SegmentTakes(k, g, kind, v, p, permissions))
    || (p == v && Handed(input.identity, kind).Some?
        && var h := Handed(input.identity, kind).value;
           permissions == h.permissions && Near(v, h.start, h.len, g))
  }

  /** The mappings do exactly what the input asks for. */
  ghost predicate MapsExactly(input: PreflightInput, ms: seq<Mapping>)
    requires input.policy.mappingGranule > 0
  {
    forall kind, v: nat, p: int, permissions {:trigger Mapped(ms, kind, v, p, permissions)} ::
      Mapped(ms, kind, v, p, permissions) <==> Wants(input, kind, v, p, permissions)
  }

  /** No mapped byte shares a granule with a pixel. */
  ghost predicate PixelsKept(fb: Option<PhysicalRange>, ms: seq<Mapping>, g: nat)
    requires g > 0
  {
    fb.Some? ==>
      forall kind, v: nat, p: nat, permissions {:trigger Mapped(ms, kind, v, p, permissions)} ::
        Mapped(ms, kind, v, p, permissions) ==> !Near(p, fb.value.physicalStart, fb.value.byteLen, g)
  }

  /** The values handed to the kernel are the input's, and each is mapped for its use. */
  ghost predicate HandsOver(input: PreflightInput, plan: PreflightPlan) {
    var id, stack := input.identity, input.identity.transitionStack;
    && plan.policy == input.policy && plan.framebufferPixels == id.framebufferPixels
    && plan.kernelEntry == input.kernelEntry && plan.bootInfoPointer == id.bootInfo.physicalStart
    && plan.handoffStubEntry == id.handoffStubEntry && plan.stackPointer == stack.physicalStart + stack.byteLen
    && Mapped(plan.mappings, BootInfo, plan.bootInfoPointer, plan.bootInfoPointer, Permissions(false, false))
    && Mapped(plan.mappings, HandoffStub, plan.handoffStubEntry, plan.handoffStubEntry, Permissions(false, true))
    && (forall v: nat {:trigger StackByte(plan.mappings, v)} ::
          stack.physicalStart <= v < plan.stackPointer ==> StackByte(plan.mappings, v))
    && (exists i, p :: Mapped(plan.mappings, KernelSegment(i), plan.kernelEntry, p, Permissions(false, true)))
  }

  /** The entry is a byte of an executable segment that does not wrap. */
  ghost predicate EntersCode(k: KernelSegmentPages, entry: nat) {
    k.segment.permissions.execute && k.segment.virtualAddress + k.segment.memorySize < TWO64
    && 0 <= entry - k.segment.virtualAddress < k.segment.memorySize
  }

  ghost predicate StackByte(ms: seq<Mapping>, v: nat) { Mapped(ms, TransitionStack, v, v, Permissions(true, false)) }

  /** A copy takes the segment's file bytes to where the mappings show its first bytes of memory. */
  ghost predicate CopiesSegment(k: KernelSegmentPages, copy: KernelMaterialization, ms: seq<Mapping>) {
    var s := k.segment;
    && copy.programHeaderIndex == s.programHeaderIndex && copy.allocation == k.pages
    && copy.fileOffset == s.fileOffset && copy.fileSize == s.fileSize
    && forall b: nat {:trigger CopiedByte(s, copy, ms, b)} :: b < s.fileSize ==> CopiedByte(s, copy, ms, b)
  }

  ghost predicate CopiedByte(s: KernelLoadSegment, copy: KernelMaterialization, ms: seq<Mapping>, b: nat) {
    Mapped(ms, KernelSegment(s.programHeaderIndex), s.virtualAddress + b, copy.copyDestination + b,
           Permissions(s.permissions.write, s.permissions.execute))
  }

  ghost predicate CopiesInput(ks: seq<KernelSegmentPages>, copies: seq<KernelMaterialization>, ms: seq<Mapping>) {
    |copies| == |ks| && forall i :: 0 <= i < |ks| ==> CopiesSegment(ks[i], copies[i], ms)
  }

  // ---- Granules --------------------------------------------------------------------------

  /** Addresses of one granule are on the same side of a granule boundary. */
  lemma GranuleSide(a: nat, b: nat, g: nat, edge: nat)
    requires g > 0 && edge % g == 0 && SameGranule(a, b, g)
    ensures edge <= a <==> edge <= b
  {
    var q := a / g;
    assert edge == g * (edge / g) && a == g * q + a % g && b == g * q + b % g;
    if edge / g <= q {
      ProductLeq(g, edge / g, q);
    } else {
      ProductLeq(g, q + 1, edge / g);
    }
  }

  lemma ProductLeq(g: nat, x: nat, y: nat)
    requires x <= y
    ensures g * x <= g * y
  {
    assert g * y - g * x == g * (y - x);
  }

  lemma SameFrom(edge: nat, a: nat, b: nat, g: nat)
    requires g > 0 && edge % g == 0 && edge <= a < edge + g && edge <= b < edge + g
    ensures SameGranule(a, b, g)
  {
    var q := edge / g;
    DivModUnique(a, g, q, a - edge);
    DivModUnique(b, g, q, b - edge);
  }

  /** The smallest aligned range around some bytes holds exactly the addresses near them. */
  lemma HullIsNear(lo: nat, hi: nat, start: nat, len: nat, g: nat, v: nat)
    requires g > 0 && len > 0 && lo % g == 0 && hi % g == 0
    requires lo <= start < lo + g && start + len <= hi < start + len + g
    ensures lo <= v < hi <==> Near(v, start, len, g)
  {
    if lo <= v < hi {
      if v < start {
        SameFrom(lo, start, v, g);
        assert SameGranule(start, v, g);
      } else if v < start + len {
        assert SameGranule(v, v, g);
      } else {
        BelowEdge(hi, g);
        SameFrom(hi - g, start + len - 1, v, g);
        assert SameGranule(start + len - 1, v, g);
      }
    } else if Near(v, start, len, g) {
      var b: nat :| start <= b < start + len && SameGranule(b, v, g);
      GranuleSide(b, v, g, lo);
      GranuleSide(b, v, g, hi);
    }
  }

  lemma BelowEdge(hi: nat, g: nat)
    requires g > 0 && hi % g == 0 && hi > 0
    ensures hi >= g && (hi - g) % g == 0
  {
    var q := hi / g;
    assert hi == g * q;
    assert q >= 1;
    ProductLeq(g, 1, q);
    assert hi - g == g * (q - 1);
    DivModUnique(hi - g, g, q - 1, 0);
  }
}
