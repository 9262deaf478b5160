/** Decoded x86-64 instructions and their effect on the stack pointer, as the stack analyser sees them. */
module StackCode {
  import opened Outcome

  /** General registers by number; the stack pointer is not one of them. */
  const RBP: nat := 0
  const R8: nat := 8
  const R9: nat := 9

  datatype Base = OnStackPointer | OnFramePointer

  /** An unindexed `displacement(%rsp)` or `displacement(%rbp)` operand. */
  datatype Access = Access(base: Base, displacement: int)

  /** A control target: the local instruction it names, if any, and the function that starts there, if any. */
  datatype Target = Target(direct: bool, local: Option<nat>, callee: Option<nat>)

  datatype Op =
    | Push(accesses: seq<Access>, ofRbp: bool)
    | Pop(toRbp: bool)
    | Leave
    | SubRsp(amount: int)
    | AddRsp(amount: int)
    | LeaRsp(displacement: int)
    | RspFromRbp
    | AlignRsp
    | CopyRsp(register: nat)
    | SubRegister(amount: int, register: nat)
    | Touch
    | CompareRsp(register: nat)
    | WriteRbp(accesses: seq<Access>)
    | SpoilRbp(accesses: seq<Access>)   // writes rbp through a name or a position that the analyser does not look at
    | Other(accesses: seq<Access>)
    | Call(target: Target)
    | Jump(target: Target)
    | Branch(notEqual: bool, target: Target)
    | Return(operand: bool)
    | Halt
    | Unmodelled

  /** `_start` may realign the stack; `metadata` is the frame size recorded by the compiler. */
  datatype Function = Function(code: seq<Op>, isStart: bool, metadata: Option<nat>)

  type Program = map<nat, Function>

  /** Bytes below the function's entry stack pointer, and where the frame pointer is known to be. */
  datatype State = State(depth: int, rbp: Option<int>)

  datatype ProofFailure =
    | MissingDisassembly
    | DynamicStackAdjustment
    | UnbalancedStack
    | UnresolvedControlEdge
    | UnrestoredTailCall
    | UnterminatedFunction
    | InconsistentStackMerge
    | StackMetadataMismatch
    | RecursiveCallChain(cycle: seq<nat>)
    | StackLimitExceeded

  /** `_stack_effect`. */
  function StackEffect(f: Function, op: Op, s: State): (r: Result<State, ProofFailure>)
    ensures r.Ok? ==> r.value.depth >= 0
  {
    var after: Result<State, ProofFailure> :=
      match op
      case Push(_, ofRbp) => Ok(State(s.depth + 8, if ofRbp then None else s.rbp))
      case Pop(toRbp) => Ok(State(s.depth - 8, if toRbp then None else s.rbp))
      case Leave => if s.rbp.None? then Err(DynamicStackAdjustment) else Ok(State(s.rbp.value - 8, None))
      case SubRsp(n) => Ok(s.(depth := s.depth + n))
      case AddRsp(n) => Ok(s.(depth := s.depth - n))
      case LeaRsp(d) => Ok(s.(depth := s.depth - d))
      case RspFromRbp => if s.rbp.None? then Err(DynamicStackAdjustment) else Ok(s.(depth := s.rbp.value))
      case AlignRsp => if f.isStart && s.depth == 0 then Ok(s) else Err(DynamicStackAdjustment)
      case CopyRsp(r) => Ok(if r == RBP then s.(rbp := Some(s.depth)) else s)
      case SubRegister(_, r) => Ok(if r == RBP then s.(rbp := None) else s)
      case WriteRbp(_) => Ok(s.(rbp := None))
      case Unmodelled => Err(DynamicStackAdjustment)
      case _ => Ok(s);
    if after.Ok? && after.value.depth < 0 then Err(UnbalancedStack) else after
  }

  function Accesses(op: Op): seq<Access> {
    match op
    case Push(a, _) => a
    case LeaRsp(d) => [Access(OnStackPointer, d)]
    case Touch => [Access(OnStackPointer, 0)]
    case WriteRbp(a) => a
    case SpoilRbp(a) => a
    case Other(a) => a
    case _ => []
  }

  function Max(a: int, b: int): int { if a >= b then a else b }

  /** How deep one operand reaches, when its base register is known. */
  function Reach(a: Access, s: State): Option<int> {
    match a.base
    case OnStackPointer => Some(s.depth - a.displacement)
    case OnFramePointer => if s.rbp.Some? then Some(s.rbp.value - a.displacement) else None
  }

  /** `_memory_peak` over a list of operands. */
  function MemoryPeak(accesses: seq<Access>, s: State): (peak: int)
    ensures peak >= s.depth
    ensures forall a :: a in accesses && Reach(a, s).Some? ==> Reach(a, s).value <= peak
    ensures peak == s.depth || exists a :: a in accesses && Reach(a, s) == Some(peak)
  {
    if accesses == [] then s.depth
    else
      var rest, reach := MemoryPeak(accesses[..|accesses| - 1], s), Reach(accesses[|accesses| - 1], s);
      if reach.Some? then Max(rest, reach.value) else rest
  }

  // ---- Page-probe loops ------------------------------------------------------------------

  const PROBE: int := 4096

  /** The limit register of a probe loop has a two-letter name or one of r10 to r15. */
  predicate ProbeRegister(register: nat) { register != R8 && register != R9 }

  /** The six instructions of a fixed-size page-touch loop starting at `k`, allocating `total` bytes. */
  ghost predicate ProbeAt(code: seq<Op>, k: nat, total: int) {
    && k + 5 < |code| && PROBE <= total && total % PROBE == 0
    && code[k].CopyRsp? && ProbeRegister(code[k].register)
    && code[k + 1] == SubRegister(total, code[k].register)
    && code[k + 2] == SubRsp(PROBE)
    && code[k + 3] == Touch
    && code[k + 4] == CompareRsp(code[k].register)
    && code[k + 5].Branch? && code[k + 5].notEqual && code[k + 5].target.direct
    && code[k + 5].target.local == Some(k + 2)
  }

  ghost predicate IsProbe(code: seq<Op>, k: nat) { exists total :: ProbeAt(code, k, total) }

  /** `_stack_probe_branches` for one branch: the size of the probe loop it closes, if it closes one. */
  function ProbeTotal(code: seq<Op>, branch: nat): (r: Option<int>)
    ensures r.Some? <==> branch >= 5 && IsProbe(code, branch - 5)
    ensures r.Some? ==> ProbeAt(code, branch - 5, r.value)
  {
    if branch < 5 || branch >= |code| then None
    else
      var k := branch - 5;
      if code[k].CopyRsp? && ProbeRegister(code[k].register) && code[k + 1].SubRegister?
         && code[k + 1].register == code[k].register
         && PROBE <= code[k + 1].amount && code[k + 1].amount % PROBE == 0
         && code[k + 2] == SubRsp(PROBE) && code[k + 3] == Touch && code[k + 4] == CompareRsp(code[k].register)
         && code[k + 5].Branch? && code[k + 5].notEqual && code[k + 5].target.direct
         && code[k + 5].target.local == Some(k + 2)
      then
        assert ProbeAt(code, k, code[k + 1].amount);
        Some(code[k + 1].amount)
      else None
  }

  // ---- One instruction of the local analysis ---------------------------------------------

  datatype Kind = CallEdge | TailEdge

  datatype Edge = Edge(source: nat, target: nat, kind: Kind, depth: int)

  /** An instruction of the function and the stack state before it. */
  datatype Point = Point(pc: nat, state: State)

  /** What examining one instruction yields: successor states, at most one edge, and depths reached. */
  datatype Examined = Examined(successors: seq<Point>, edges: seq<Edge>, memoryPeak: int, depth: int)

  predicate InCode(f: Function, target: Target) { target.local.Some? && target.local.value < |f.code| }

  predicate Known(program: Program, target: Target) { target.callee.Some? && target.callee.value in program }

  /** The continuation to the next instruction, where there is one. */
  function FallThrough(f: Function, pc: nat, s: State): seq<Point> {
    if pc + 1 < |f.code| then [Point(pc + 1, s)] else []
  }

  /** The body of the worklist loop of `_local_analysis`. */
  function Examine(program: Program, f: Function, pc: nat, s: State): (r: Result<Examined, ProofFailure>)
    requires pc < |f.code|
  {
    var op := f.code[pc];
    var memoryPeak := MemoryPeak(Accesses(op), s);
    var after :- StackEffect(f, op, s);
    match op
    case Call(t) =>
      if !t.direct || !Known(program, t) then Err(UnresolvedControlEdge)
      else Ok(Examined(FallThrough(f, pc, after), [Edge(pc, t.callee.value, CallEdge, after.depth)],
                       memoryPeak, after.depth))
    case Jump(t) =>
      if !t.direct then Err(UnresolvedControlEdge)
      else if InCode(f, t) then Ok(Examined([Point(t.local.value, after)], [], memoryPeak, after.depth))
      else if !Known(program, t) then Err(UnresolvedControlEdge)
      else if after.depth != 0 then Err(UnrestoredTailCall)
      else Ok(Examined([], [Edge(pc, t.callee.value, TailEdge, 0)], memoryPeak, after.depth))
    case Branch(_, t) =>
      var probe := ProbeTotal(f.code, pc);
      if probe.Some? then
        var total := State(after.depth + probe.value - PROBE, after.rbp);
        if pc + 1 >= |f.code| then Err(UnterminatedFunction)
        else Ok(Examined([Point(pc + 1, total)], [], memoryPeak, total.depth))
      else if !t.direct then Err(UnresolvedControlEdge)
      else if InCode(f, t) then
        Ok(Examined([Point(t.local.value, after)] + FallThrough(f, pc, after), [], memoryPeak, after.depth))
      else if Known(program, t) && after.depth == 0 then
        Ok(Examined(FallThrough(f, pc, after), [Edge(pc, t.callee.value, TailEdge, 0)], memoryPeak, after.depth))
      else Err(UnresolvedControlEdge)
    case Return(operand) =>
      if operand || after.depth != 0 then Err(UnbalancedStack) else Ok(Examined([], [], memoryPeak, after.depth))
    case Halt => Ok(Examined([], [], memoryPeak, after.depth))
    case _ =>
      if pc + 1 < |f.code| then Ok(Examined([Point(pc + 1, after)], [], memoryPeak, after.depth))
      else Err(UnterminatedFunction)
  }
}
