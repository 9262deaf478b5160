/** Which instructions the analysis must accept, refuse and follow, told from the code and the machine alone. */
module StackFaults {
  import opened Outcome
  import opened StackCode
  import opened StackLocal
  import opened StackProve
  import opened StackMachine
  import opened StackEnds
  import opened StackBounds
  import opened StackEscapes

  // ---- One instruction -------------------------------------------------------------------

  /** A processor in the given state, in a function that is entered with an aligned stack pointer. */
  ghost predicate Stands(s: State, c: Cpu) {
    c.entry % 16 == 0 && Abstracts(s, c.entry, c.rsp) && Agrees(s, c.entry, c.regs(RBP))
  }

  /** The analysis cannot say where the stack pointer goes. */
  predicate Untraceable(f: Function, op: Op, s: State) {
    || op.Unmodelled?
    || (op.AlignRsp? && !(f.isStart && s.depth == 0))
    || (NeedsRbp(op) && s.rbp.None?)
  }

  /** The instruction puts the stack pointer above the function's entry. */
  ghost predicate Rises(op: Op, s: State) {
    exists c: Cpu, d: Cpu :: Stands(s, c) && d.entry == c.entry && Executes(op, c, d) && d.rsp > c.entry
  }

  /** The last operand, which the analysis takes for the destination, is the frame pointer. */
  predicate NamesRbp(op: Op) {
    match op
    case Push(_, ofRbp) => ofRbp
    case Pop(toRbp) => toRbp
    case SubRegister(_, r) => r == RBP
    case Leave => true
    case WriteRbp(_) => true
    case _ => false
  }

  /** The state after a straight-line instruction is what the machine makes of the state before it; the frame pointer
      is on record from a copy of the stack pointer until an instruction names it. */
  ghost predicate Becomes(op: Op, s: State, t: State) {
    && (t.rbp.Some? <==> op == CopyRsp(RBP) || (s.rbp.Some? && !NamesRbp(op)))
    && forall c: Cpu, d: Cpu {:trigger Executes(op, c, d)} ::
         Stands(s, c) && d.entry == c.entry && Executes(op, c, d) ==>
         && Abstracts(t, d.entry, d.rsp)
         && ((op.SpoilRbp? ==> d.regs(RBP) == c.regs(RBP)) ==> Agrees(t, d.entry, d.regs(RBP)))
  }

  /** Some processor stands in every state. */
  function Standing(s: State): Cpu {
    Cpu([], 0, 0, 0, -s.depth, (r: nat) => if s.rbp.Some? then -s.rbp.value else 0, false)
  }

  /** An effect is refused exactly when the instruction cannot be traced or rises above the entry. */
  lemma EffectExact(f: Function, op: Op, s: State, e: ProofFailure)
    requires s.depth >= 0
    ensures StackEffect(f, op, s) == Err(e) <==>
            || (e == DynamicStackAdjustment && Untraceable(f, op, s))
            || (e == UnbalancedStack && !Untraceable(f, op, s) && Rises(op, s))
  {
    EffectErrors(f, op, s);
    if StackEffect(f, op, s).Ok? {
      AcceptedStaysBelow(f, op, s);
    } else if !Untraceable(f, op, s) {
      RefusedRises(f, op, s);
    }
  }

  lemma EffectErrors(f: Function, op: Op, s: State)
    requires s.depth >= 0
    ensures StackEffect(f, op, s) == Err(DynamicStackAdjustment) <==> Untraceable(f, op, s)
    ensures StackEffect(f, op, s).Err? ==> StackEffect(f, op, s).error in {DynamicStackAdjustment, UnbalancedStack}
    ensures IsControl(op) ==> StackEffect(f, op, s) == Ok(s)
  {
  }

  lemma AcceptedStaysBelow(f: Function, op: Op, s: State)
    requires StackEffect(f, op, s).Ok?
    ensures !Rises(op, s)
  {
    forall c: Cpu, d: Cpu | Stands(s, c) && d.entry == c.entry && Executes(op, c, d) ensures d.rsp <= c.entry {
      EffectSound(f, op, s, c, d);
    }
  }

  lemma RefusedRises(f: Function, op: Op, s: State)
    requires s.depth >= 0 && StackEffect(f, op, s).Err? && !Untraceable(f, op, s)
    ensures Rises(op, s)
  {
    EffectErrors(f, op, s);
    var c := Standing(s);
    var d := Executed(op, c, false);
    ExecutedExecutes(op, c, false);
    RefusedRsp(f, op, s, c, d);
  }

  lemma RefusedRsp(f: Function, op: Op, s: State, c: Cpu, d: Cpu)
    requires s.depth >= 0 && StackEffect(f, op, s).Err? && !Untraceable(f, op, s) && c == Standing(s)
    requires Executes(op, c, d)
    ensures d.rsp > c.entry && Stands(s, c)
  {
  }

  lemma EffectBecomes(f: Function, op: Op, s: State)
    requires !IsControl(op) && StackEffect(f, op, s).Ok?
    ensures Becomes(op, s, StackEffect(f, op, s).value)
  {
    var u := StackEffect(f, op, s).value;
    forall a: Cpu, b: Cpu | Stands(s, a) && b.entry == a.entry && Executes(op, a, b)
      ensures Abstracts(u, b.entry, b.rsp)
      ensures (op.SpoilRbp? ==> b.regs(RBP) == a.regs(RBP)) ==> Agrees(u, b.entry, b.regs(RBP))
    {
      EffectSound(f, op, s, a, b);
      if op.SpoilRbp? ==> b.regs(RBP) == a.regs(RBP) { RbpSound(f, op, s, a, b); }
    }
    RecordedExactly(f, op, s);
  }

  lemma RecordedExactly(f: Function, op: Op, s: State)
    requires StackEffect(f, op, s).Ok?
    ensures StackEffect(f, op, s).value.rbp.Some? <==> op == CopyRsp(RBP) || (s.rbp.Some? && !NamesRbp(op))
  {
  }

  lemma Witnessed(op: Op, s: State) returns (c: Cpu, d: Cpu)
    requires !IsControl(op) && !op.Unmodelled?
    ensures Stands(s, c) && d.entry == c.entry && Executes(op, c, d)
    ensures op.SpoilRbp? ==> d.regs(RBP) == c.regs(RBP)
  {
    c := Standing(s);
    d := Executed(op, c, false);
    ExecutedExecutes(op, c, false);
  }

  lemma BecomesAt(op: Op, s: State, t: State, c: Cpu, d: Cpu)
    requires Becomes(op, s, t) && Stands(s, c) && d.entry == c.entry && Executes(op, c, d)
    requires op.SpoilRbp? ==> d.regs(RBP) == c.regs(RBP)
    ensures t.depth == d.entry - d.rsp && (t.rbp.Some? ==> t.rbp.value == d.entry - d.regs(RBP))
    ensures t.rbp.Some? <==> op == CopyRsp(RBP) || (s.rbp.Some? && !NamesRbp(op))
  {
  }

  lemma BecomesOnce(op: Op, s: State, t: State, u: State)
    requires !IsControl(op) && !op.Unmodelled? && Becomes(op, s, t) && Becomes(op, s, u)
    ensures t == u
  {
    var c, d := Witnessed(op, s);
    BecomesAt(op, s, t, c, d);
    BecomesAt(op, s, u, c, d);
  }

  /** An accepted effect is exactly what the machine does. */
  lemma BecomesExact(f: Function, op: Op, s: State, t: State)
    requires !IsControl(op) && StackEffect(f, op, s).Ok?
    ensures Becomes(op, s, t) <==> t == StackEffect(f, op, s).value
  {
    EffectBecomes(f, op, s);
    if Becomes(op, s, t) { BecomesOnce(op, s, t, StackEffect(f, op, s).value); }
  }

  // ---- One instruction in its function ---------------------------------------------------

  /** The branch closes a probe loop that has allocated `total` bytes. */
  ghost predicate Closes(f: Function, pc: nat, total: int) { pc >= 5 && ProbeAt(f.code, pc - 5, total) }

  /** The state in which control leaves the instruction. */
  ghost predicate Lands(f: Function, pc: nat, s: State, t: State)
    requires pc < |f.code|
  {
    if exists total :: Closes(f, pc, total) then
      exists total :: Closes(f, pc, total) && t == State(s.depth + total - PROBE, s.rbp)
    else if IsControl(f.code[pc]) then t == s
    else Becomes(f.code[pc], s, t)
  }

  /** Control has nowhere to go, or goes there with the wrong depth. */
  ghost predicate Strands(program: Program, f: Function, pc: nat, depth: int, e: ProofFailure)
    requires pc < |f.code|
  {
    match f.code[pc]
    case Call(t) => e == UnresolvedControlEdge && !(t.direct && Known(program, t))
    case Jump(t) =>
      || (e == UnresolvedControlEdge && !(t.direct && (InCode(f, t) || Known(program, t))))
      || (e == UnrestoredTailCall && t.direct && TailSite(program, f, pc) && depth != 0)
    case Branch(_, t) =>
      if exists total :: Closes(f, pc, total) then e == UnterminatedFunction && pc == |f.code| - 1
      else e == UnresolvedControlEdge && !(t.direct && (InCode(f, t) || (Known(program, t) && depth == 0)))
    case Return(operand) => e == UnbalancedStack && (operand || depth != 0)
    case Halt => false
    case _ => e == UnterminatedFunction && pc == |f.code| - 1
  }

  /** The analysis must stop at the instruction, and why. */
  ghost predicate Faults(program: Program, f: Function, pc: nat, s: State, e: ProofFailure)
    requires pc < |f.code|
  {
    if Untraceable(f, f.code[pc], s) then e == DynamicStackAdjustment
    else if Rises(f.code[pc], s) then e == UnbalancedStack
    else Strands(program, f, pc, s.depth, e)
  }

  /** Control goes on from the one point to the other. */
  ghost predicate Leads(f: Function, a: Point, b: Point) {
    Goes(f, a.pc, b.pc) && b.pc < |f.code| && Lands(f, a.pc, a.state, b.state)
  }

  /** The instruction enters another function: a call below its frame, or a jump in its place. */
  ghost predicate Enters(program: Program, f: Function, at: Point, e: Edge) {
    || (CallSite(program, f, at.pc) && e == Edge(at.pc, CalleeAt(program, f, at.pc), CallEdge, at.state.depth))
    || (TailSite(program, f, at.pc) && e == Edge(at.pc, CalleeAt(program, f, at.pc), TailEdge, 0))
  }

  lemma ProbeExact(f: Function, pc: nat)
    requires pc < |f.code|
    ensures ProbeTotal(f.code, pc).Some? <==> exists total :: Closes(f, pc, total)
    ensures forall total :: Closes(f, pc, total) ==> ProbeTotal(f.code, pc) == Some(total)
  {
    if ProbeTotal(f.code, pc).Some? { assert Closes(f, pc, ProbeTotal(f.code, pc).value); }
  }

  /** The analysis stops at an instruction exactly when it must. */
  lemma ExamineStops(program: Program, f: Function, pc: nat, s: State, e: ProofFailure)
    requires pc < |f.code| && s.depth >= 0
    ensures Examine(program, f, pc, s) == Err(e) <==> Faults(program, f, pc, s, e)
  {
    ProbeExact(f, pc);
    EffectExact(f, f.code[pc], s, e);
    EffectExact(f, f.code[pc], s, UnbalancedStack);
    EffectExact(f, f.code[pc], s, DynamicStackAdjustment);
    EffectErrors(f, f.code[pc], s);
  }

  lemma LandsExact(f: Function, pc: nat, s: State, t: State)
    requires pc < |f.code| && s.depth >= 0 && StackEffect(f, f.code[pc], s).Ok?
    ensures var after, probe := StackEffect(f, f.code[pc], s).value, ProbeTotal(f.code, pc);
            Lands(f, pc, s, t) <==>
            t == if probe.Some? then State(after.depth + probe.value - PROBE, after.rbp) else after
  {
    ProbeExact(f, pc);
    EffectErrors(f, f.code[pc], s);
    if !IsControl(f.code[pc]) { BecomesExact(f, f.code[pc], s, t); }
  }

  /** Where it does not stop, it goes on exactly to where control goes, in the state the machine is in. */
  lemma ExamineLeads(program: Program, f: Function, pc: nat, s: State, b: Point)
    requires pc < |f.code| && s.depth >= 0 && Examine(program, f, pc, s).Ok?
    ensures b in Examine(program, f, pc, s).value.successors <==> Leads(f, Point(pc, s), b)
  {
    LandsExact(f, pc, s, b.state);
  }

  /** It finds exactly the functions entered from there. */
  lemma ExamineEnters(program: Program, f: Function, pc: nat, s: State, e: Edge)
    requires pc < |f.code| && s.depth >= 0 && Examine(program, f, pc, s).Ok?
    ensures e in Examine(program, f, pc, s).value.edges <==> Enters(program, f, Point(pc, s), e)
  {
    EffectErrors(f, f.code[pc], s);
    ProbeExact(f, pc);
  }

  lemma ExamineLands(program: Program, f: Function, pc: nat, s: State)
    requires pc < |f.code| && s.depth >= 0 && Examine(program, f, pc, s).Ok?
    ensures exists t :: Lands(f, pc, s, t)
    ensures forall t :: Lands(f, pc, s, t) ==> t.depth == Examine(program, f, pc, s).value.depth
  {
    var after, probe := StackEffect(f, f.code[pc], s).value, ProbeTotal(f.code, pc);
    var t := if probe.Some? then State(after.depth + probe.value - PROBE, after.rbp) else after;
    LandsExact(f, pc, s, t);
    forall u | Lands(f, pc, s, u) ensures u.depth == Examine(program, f, pc, s).value.depth {
      LandsExact(f, pc, s, u);
    }
  }

  // ---- One function ----------------------------------------------------------------------

  /** The instruction can be followed. */
  ghost predicate Sound(program: Program, f: Function, at: Point) {
    at.pc < |f.code| && forall e :: !Faults(program, f, at.pc, at.state, e)
  }

  ghost predicate WalksAt(program: Program, f: Function, walk: seq<Point>, i: int)
    requires 0 < i < |walk|
  {
    Sound(program, f, walk[i - 1]) && Leads(f, walk[i - 1], walk[i])
  }

  /** A way of control through the function, from its entry, over instructions that can be followed. */
  ghost predicate Walk(program: Program, f: Function, walk: seq<Point>) {
    && |walk| > 0 && walk[0] == Point(0, State(0, None))
    && forall i {:trigger WalksAt(program, f, walk, i)} :: 0 < i < |walk| ==> WalksAt(program, f, walk, i)
  }

  ghost predicate Walked(program: Program, f: Function, at: Point) {
    exists walk :: Walk(program, f, walk) && walk[|walk| - 1] == at
  }

  lemma SoundExact(program: Program, f: Function, at: Point)
    requires at.pc < |f.code| && at.state.depth >= 0
    ensures Sound(program, f, at) <==> Examine(program, f, at.pc, at.state).Ok?
  {
    forall e ensures Examine(program, f, at.pc, at.state) == Err(e) <==> Faults(program, f, at.pc, at.state, e) {
      ExamineStops(program, f, at.pc, at.state, e);
    }
    if Examine(program, f, at.pc, at.state).Err? {
      assert Faults(program, f, at.pc, at.state, Examine(program, f, at.pc, at.state).error);
    }
  }

  lemma StepExact(program: Program, f: Function, a: Point, b: Point)
    requires a.state.depth >= 0
    ensures Follows(program, f, a, b) <==> Sound(program, f, a) && Leads(f, a, b)
    ensures Follows(program, f, a, b) ==> b.state.depth >= 0
  {
    if a.pc < |f.code| {
      SoundExact(program, f, a);
      if Examine(program, f, a.pc, a.state).Ok? {
        ExamineLeads(program, f, a.pc, a.state, b);
        if Follows(program, f, a, b) { SuccessorDepth(program, f, a.pc, a.state, b); }
      }
    }
  }

  lemma SuccessorDepth(program: Program, f: Function, pc: nat, s: State, b: Point)
    requires pc < |f.code| && Examine(program, f, pc, s).Ok? && b in Examine(program, f, pc, s).value.successors
    ensures b.state.depth >= 0
  {
  }

  lemma {:induction false} PathDepth(program: Program, f: Function, path: seq<Point>, i: nat)
    requires Path(program, f, path) && i < |path|
    ensures path[i].state.depth >= 0
    decreases i
  {
    if i > 0 {
      PathDepth(program, f, path, i - 1);
      assert StepAt(program, f, path, i);
      StepExact(program, f, path[i - 1], path[i]);
    }
  }

  lemma {:induction false} WalkDepth(program: Program, f: Function, walk: seq<Point>, i: nat)
    requires Walk(program, f, walk) && i < |walk|
    ensures walk[i].state.depth >= 0
    decreases i
  {
    if i > 0 {
      WalkDepth(program, f, walk, i - 1);
      assert WalksAt(program, f, walk, i);
      StepExact(program, f, walk[i - 1], walk[i]);
    }
  }

  /** The paths of the analysis are the ways of control. */
  lemma PathExact(program: Program, f: Function, path: seq<Point>)
    ensures Path(program, f, path) <==> Walk(program, f, path)
  {
    if Path(program, f, path) {
      forall i | 0 < i < |path| ensures WalksAt(program, f, path, i) {
        PathDepth(program, f, path, i - 1);
        assert StepAt(program, f, path, i);
        StepExact(program, f, path[i - 1], path[i]);
      }
    }
    if Walk(program, f, path) {
      forall i | 0 < i < |path| ensures StepAt(program, f, path, i) {
        WalkDepth(program, f, path, i - 1);
        assert WalksAt(program, f, path, i);
        StepExact(program, f, path[i - 1], path[i]);
      }
    }
  }

  lemma WalkedExact(program: Program, f: Function, at: Point)
    ensures Walked(program, f, at) <==> Reached(program, f, at)
    ensures Walked(program, f, at) ==> at.state.depth >= 0
  {
    if Walked(program, f, at) {
      var walk :| Walk(program, f, walk) && walk[|walk| - 1] == at;
      PathExact(program, f, walk);
      WalkDepth(program, f, walk, |walk| - 1);
    }
    if Reached(program, f, at) {
      var path :| Path(program, f, path) && path[|path| - 1] == at;
      PathExact(program, f, path);
    }
  }

  /** Every way of control can be followed to its end, and all ways to an instruction agree on the stack. */
  ghost predicate Followable(program: Program, f: Function) {
    && (forall at :: Walked(program, f, at) ==> Sound(program, f, at))
    && !Disagree(program, f)
  }

  ghost predicate Disagree(program: Program, f: Function) {
    exists a, b :: Walked(program, f, a) && Walked(program, f, b) && a.pc == b.pc && a.state != b.state
  }

  ghost predicate LandsBelow(f: Function, at: Point, bound: int) {
    at.pc < |f.code| && forall t :: Lands(f, at.pc, at.state, t) ==> t.depth < bound
  }

  /** What is wrong with a function, told from its code. */
  ghost predicate Faulty(program: Program, f: Function, failure: ProofFailure) {
    match failure
    case MissingDisassembly => f.code == []
    case InconsistentStackMerge => f.code != [] && Disagree(program, f)
    case StackMetadataMismatch =>
      && f.code != [] && Followable(program, f) && f.metadata.Some?
      && forall at :: Walked(program, f, at) ==> LandsBelow(f, at, f.metadata.value)
    case RecursiveCallChain(_) => false
    case StackLimitExceeded => false
    case _ =>
      f.code != [] && exists at :: Walked(program, f, at) && FaultsAt(program, f, at, failure)
  }

  ghost predicate FaultsAt(program: Program, f: Function, at: Point, failure: ProofFailure) {
    at.pc < |f.code| && Faults(program, f, at.pc, at.state, failure)
  }

  /** The analysis rejects a function exactly for what is wrong with its code. */
  lemma RejectionExact(program: Program, f: Function, failure: ProofFailure)
    ensures Justifies(program, f, failure) <==> Faulty(program, f, failure)
  {
    forall at
      ensures Walked(program, f, at) <==> Reached(program, f, at)
      ensures Walked(program, f, at) ==> (Sound(program, f, at) <==> AcceptedAt(program, f, at))
      ensures Walked(program, f, at) ==> (FaultsAt(program, f, at, failure) <==> RejectedAt(program, f, at, failure))
    {
      WalkedExact(program, f, at);
      if Walked(program, f, at) && at.pc < |f.code| {
        SoundExact(program, f, at);
        ExamineStops(program, f, at.pc, at.state, failure);
      }
    }
    if failure.StackMetadataMismatch? { MetadataExact(program, f); }
  }

  ghost predicate AcceptedAt(program: Program, f: Function, at: Point) {
    at.pc < |f.code| && Examine(program, f, at.pc, at.state).Ok?
  }

  lemma MetadataExact(program: Program, f: Function)
    ensures Justifies(program, f, StackMetadataMismatch) <==> Faulty(program, f, StackMetadataMismatch)
  {
    forall at
      ensures Walked(program, f, at) <==> Reached(program, f, at)
      ensures Walked(program, f, at) ==> (Sound(program, f, at) <==> AcceptedAt(program, f, at))
      ensures Walked(program, f, at) && AcceptedAt(program, f, at) && f.metadata.Some? ==>
                (ShallowAt(program, f, at, f.metadata.value) <==> LandsBelow(f, at, f.metadata.value))
    {
      WalkedExact(program, f, at);
      if Walked(program, f, at) && at.pc < |f.code| {
        SoundExact(program, f, at);
        if AcceptedAt(program, f, at) { ExamineLands(program, f, at.pc, at.state); }
      }
    }
  }

  // ---- What is reported of a function ----------------------------------------------------

  /** The instruction has the stack, or an operand whose base is on record, at this depth. */
  ghost predicate Touches(f: Function, at: Point, depth: int) {
    && at.pc < |f.code|
    && (|| depth == at.state.depth
        || (exists a :: a in Accesses(f.code[at.pc]) && Reach(a, at.state) == Some(depth))
        || (exists t :: Lands(f, at.pc, at.state, t) && depth == t.depth))
  }

  ghost predicate TouchedBy(program: Program, f: Function, depth: int) {
    exists at :: Walked(program, f, at) && Touches(f, at, depth)
  }

  ghost predicate EnteredBy(program: Program, f: Function, e: Edge) {
    exists at :: Walked(program, f, at) && Enters(program, f, at, e)
  }

  /** The figures of a function: its greatest depth, attained, and the edges out of it, all of them and no other. */
  ghost predicate Figures(program: Program, f: Function, l: Local) {
    && TouchedBy(program, f, l.peak) && (forall depth :: TouchedBy(program, f, depth) ==> depth <= l.peak)
    && forall e {:trigger EnteredBy(program, f, e)} :: e in l.edges <==> EnteredBy(program, f, e)
  }

  lemma RecordsAreWalked(program: Program, f: Function, states: map<nat, State>, at: Point)
    requires Consistent(program, f, states) && AllReached(program, f, states)
    ensures Walked(program, f, at) <==> at.pc in states && states[at.pc] == at.state
    ensures Walked(program, f, at) ==> at.state.depth >= 0 && AcceptedAt(program, f, at)
  {
    ConsistentIsExact(program, f, states);
    WalkedExact(program, f, at);
  }

  lemma TouchExact(program: Program, f: Function, at: Point, depth: int)
    requires at.state.depth >= 0 && AcceptedAt(program, f, at)
    ensures var e := Examine(program, f, at.pc, at.state).value;
            && Touches(f, at, e.memoryPeak) && Touches(f, at, e.depth)
            && (Touches(f, at, depth) ==> depth <= e.memoryPeak || depth == e.depth)
  {
    var e, op := Examine(program, f, at.pc, at.state).value, f.code[at.pc];
    ExamineLands(program, f, at.pc, at.state);
    ExaminedPeakIs(program, f, at.pc, at.state);
    var peak := MemoryPeak(Accesses(op), at.state);
  }

  lemma ExaminedPeakIs(program: Program, f: Function, pc: nat, s: State)
    requires pc < |f.code| && Examine(program, f, pc, s).Ok?
    ensures Examine(program, f, pc, s).value.memoryPeak == MemoryPeak(Accesses(f.code[pc]), s)
  {
  }

  /** A successful analysis reports exactly the function's figures. */
  lemma ReportExact(program: Program, f: Function, states: map<nat, State>, l: Local)
    requires Analysed(program, f, states, l)
    ensures Figures(program, f, l)
  {
    PeakBounds(program, f, states, l);
    PeakIsTouched(program, f, states, l);
    forall e ensures e in l.edges <==> EnteredBy(program, f, e) {
      EdgesExact(program, f, states, l, e);
    }
  }

  lemma PeakBounds(program: Program, f: Function, states: map<nat, State>, l: Local)
    requires Analysed(program, f, states, l)
    ensures forall depth :: TouchedBy(program, f, depth) ==> depth <= l.peak
  {
    forall depth | TouchedBy(program, f, depth) ensures depth <= l.peak {
      var at :| Walked(program, f, at) && Touches(f, at, depth);
      RecordsAreWalked(program, f, states, at);
      TouchExact(program, f, at, depth);
      assert Observed(program, f, states, at.pc, Examine(program, f, at.pc, at.state).value);
    }
  }

  lemma PeakIsTouched(program: Program, f: Function, states: map<nat, State>, l: Local)
    requires Analysed(program, f, states, l)
    ensures TouchedBy(program, f, l.peak)
  {
    var at;
    if l.peak == 0 {
      at := Point(0, State(0, None));
      RecordsAreWalked(program, f, states, at);
      assert Touches(f, at, 0);
    } else {
      var pc, e :| pc in states.Keys && Observed(program, f, states, pc, e) && l.peak == Max(e.memoryPeak, e.depth);
      at := Point(pc, states[pc]);
      RecordsAreWalked(program, f, states, at);
      TouchExact(program, f, at, l.peak);
    }
  }

  lemma EdgesExact(program: Program, f: Function, states: map<nat, State>, l: Local, e: Edge)
    requires Analysed(program, f, states, l)
    ensures e in l.edges <==> EnteredBy(program, f, e)
  {
    if e in l.edges {
      assert EdgeFound(program, f, states, states.Keys, e);
      var pc, x :| pc in states.Keys && Observed(program, f, states, pc, x) && e in x.edges;
      var at := Point(pc, states[pc]);
      RecordsAreWalked(program, f, states, at);
      ExamineEnters(program, f, pc, states[pc], e);
      assert Enters(program, f, at, e);
    }
    if EnteredBy(program, f, e) {
      var at :| Walked(program, f, at) && Enters(program, f, at, e);
      RecordsAreWalked(program, f, states, at);
      ExamineEnters(program, f, at.pc, at.state, e);
      var x := Examine(program, f, at.pc, at.state).value;
      assert Observed(program, f, states, at.pc, x) && Covers(l, states[at.pc], x);
    }
  }

  // ---- The program -----------------------------------------------------------------------

  /** What an edge costs is how far the machine's entry moves when it is taken. */
  lemma CostIsDistance(program: Program, c: Cpu, n: Machine, e: Edge)
    requires c.fn in program && Step(program, c, n) && n.Running?
    requires Enters(program, program[c.fn], Point(c.pc, State(c.entry - c.rsp, None)), e)
    requires n.cpu.fn == e.target && n.cpu.pc == 0
    ensures c.entry - n.cpu.entry == Cost(e)
  {
  }

  ghost predicate EntersAt(program: Program, chain: seq<nat>, i: int)
    requires 0 < i < |chain|
  {
    chain[i - 1] in program && exists e :: EnteredBy(program, program[chain[i - 1]], e) && e.target == chain[i]
  }

  /** A chain of functions, each entered from the code of the one before. */
  ghost predicate EntryChain(program: Program, chain: seq<nat>) {
    forall i {:trigger EntersAt(program, chain, i)} :: 0 < i < |chain| ==> EntersAt(program, chain, i)
  }

  lemma ChainIsEntered(program: Program, graph: Graph, chain: seq<nat>)
    requires Describes(program, graph) && Linked(graph, chain)
    ensures EntryChain(program, chain)
  {
    forall i | 0 < i < |chain| ensures EntersAt(program, chain, i) {
      assert LinkedAt(graph, chain, i);
      var a := chain[i - 1];
      DescribedFigures(program, graph, a);
      var e :| e in graph[a].edges && e.target == chain[i];
      assert EnteredBy(program, program[a], e);
    }
  }

  /** A refused program: the root leads to a function that is wrong, or to itself again, or too deep. */
  ghost predicate Refusable(program: Program, root: nat, failure: ProofFailure) {
    match failure
    case RecursiveCallChain(cycle) =>
      |cycle| >= 2 && cycle[0] == cycle[|cycle| - 1] && EntryChain(program, cycle) && Entered(program, root, cycle[0])
    case StackLimitExceeded => exists links, total :: Sums(program, links, root, total) && total > WORKING_STACK_LIMIT
    case _ => exists a :: a in program && Entered(program, root, a) && Faulty(program, program[a], failure)
  }

  ghost predicate Entered(program: Program, a: nat, b: nat) {
    exists chain: seq<nat> :: |chain| > 0 && chain[0] == a && chain[|chain| - 1] == b && EntryChain(program, chain)
  }

  /** A chain of edges taken from the code whose costs and last depth add up to `total`. */
  ghost predicate Sums(program: Program, edges: seq<Edge>, a: nat, total: int)
    decreases |edges|
  {
    && a in program
    && if edges == [] then TouchedBy(program, program[a], total)
       else EnteredBy(program, program[a], edges[0])
            && Sums(program, edges[1..], edges[0].target, total - Cost(edges[0]))
  }

  /** The edges of a reported chain. */
  function EdgesOf(links: seq<Link>): seq<Edge> {
    if links == [] || links[0].via.None? then [] else [links[0].via.value] + EdgesOf(links[1..])
  }

  lemma {:induction false} WitnessSums(program: Program, graph: Graph, links: seq<Link>, a: nat, total: int)
    requires Describes(program, graph) && IsWitness(graph, links, a, total)
    ensures Sums(program, EdgesOf(links), a, total)
    decreases |links|
  {
    DescribedFigures(program, graph, a);
    match links[0].via {
      case None =>
      case Some(e) =>
        WitnessSums(program, graph, links[1..], e.target, total - Cost(e));
        SumsCons(program, e, EdgesOf(links[1..]), a, total);
    }
  }

  lemma DescribedFigures(program: Program, graph: Graph, a: nat)
    requires Describes(program, graph) && a in graph
    ensures a in program && TouchedBy(program, program[a], graph[a].peak)
    ensures forall depth :: TouchedBy(program, program[a], depth) ==> depth <= graph[a].peak
    ensures forall e {:trigger EnteredBy(program, program[a], e)} ::
              e in graph[a].edges ==> EnteredBy(program, program[a], e)
    ensures forall e {:trigger EnteredBy(program, program[a], e)} ::
              EnteredBy(program, program[a], e) ==> e in graph[a].edges
  {
    assert DescribedAt(program, graph, a);
    var states :| Analysed(program, program[a], states, graph[a]);
    ReportExact(program, program[a], states, graph[a]);
  }

  lemma SumsCons(program: Program, e: Edge, edges: seq<Edge>, a: nat, total: int)
    requires a in program && EnteredBy(program, program[a], e) && Sums(program, edges, e.target, total - Cost(e))
    ensures Sums(program, [e] + edges, a, total)
  {
    assert ([e] + edges)[1..] == edges;
  }

  /** Whatever the prover refuses is wrong with the code. */
  lemma RefusalExplained(program: Program, root: nat, failure: ProofFailure)
    requires Refuted(program, root, failure)
    ensures Refusable(program, root, failure)
  {
    var graph :| Describes(program, graph) && RefutedBy(program, graph, root, failure);
    match failure {
      case RecursiveCallChain(cycle) =>
        ChainIsEntered(program, graph, cycle);
        CalledIsEntered(program, graph, root, cycle[0]);
      case StackLimitExceeded => TooDeepExplained(program, graph, root);
      case _ => FunctionExplained(program, graph, root, failure);
    }
  }

  lemma TooDeepExplained(program: Program, graph: Graph, root: nat)
    requires Describes(program, graph) && RefutedBy(program, graph, root, StackLimitExceeded)
    ensures Refusable(program, root, StackLimitExceeded)
  {
    var links, total :| IsWitness(graph, links, root, total) && total > WORKING_STACK_LIMIT;
    WitnessSums(program, graph, links, root, total);
  }

  lemma FunctionExplained(program: Program, graph: Graph, root: nat, failure: ProofFailure)
    requires !failure.RecursiveCallChain? && !failure.StackLimitExceeded?
    requires Describes(program, graph) && RefutedBy(program, graph, root, failure)
    ensures Refusable(program, root, failure)
  {
    var a :| a in program && Called(graph, root, a) && Justifies(program, program[a], failure);
    CalledIsEntered(program, graph, root, a);
    RejectionExact(program, program[a], failure);
  }

  lemma CalledIsEntered(program: Program, graph: Graph, a: nat, b: nat)
    requires Describes(program, graph) && Called(graph, a, b)
    ensures Entered(program, a, b)
  {
    var chain :| Connects(graph, chain, a, b);
    ChainIsEntered(program, graph, chain);
  }

  // ---- Acceptance ------------------------------------------------------------------------

  /** In the final tables every function that the code enters is settled. */
  lemma {:induction false} EnteredIsSettled(program: Program, root: nat, graph: Graph, totals: map<nat, Total>,
                                            rank: map<nat, nat>, chain: seq<nat>, i: nat)
    requires Established(program, root, graph, totals, rank) && EntryChain(program, chain)
    requires i < |chain| && chain[0] in totals
    ensures chain[i] in totals && (i > 0 ==> CallsTo(graph, chain[i - 1], chain[i]))
    decreases i
  {
    if i > 0 {
      EnteredIsSettled(program, root, graph, totals, rank, chain, i - 1);
      var a := chain[i - 1];
      assert SettledAt(graph, totals, rank, a) && EntersAt(program, chain, i);
      DescribedFigures(program, graph, a);
      var e :| EnteredBy(program, program[a], e) && e.target == chain[i];
      assert e in graph[a].edges && EdgeBelow(totals, rank, a, e);
    }
  }

  lemma ChainIsLinked(program: Program, root: nat, graph: Graph, totals: map<nat, Total>, rank: map<nat, nat>,
                      chain: seq<nat>)
    requires Established(program, root, graph, totals, rank) && EntryChain(program, chain)
    requires |chain| > 0 && chain[0] in totals
    ensures Linked(graph, chain) && chain[|chain| - 1] in totals
  {
    forall i | 0 < i < |chain| ensures LinkedAt(graph, chain, i) {
      EnteredIsSettled(program, root, graph, totals, rank, chain, i);
    }
    EnteredIsSettled(program, root, graph, totals, rank, chain, |chain| - 1);
  }

  /** No chain of edges taken from the code adds up to more than the settled total. */
  lemma {:induction false} SumsAreBounded(program: Program, root: nat, graph: Graph, totals: map<nat, Total>,
                                          rank: map<nat, nat>, edges: seq<Edge>, a: nat, total: int)
    requires Established(program, root, graph, totals, rank) && a in totals && Sums(program, edges, a, total)
    ensures total <= totals[a].maximum
    decreases |edges|
  {
    assert SettledAt(graph, totals, rank, a);
    DescribedFigures(program, graph, a);
    if edges != [] {
      assert EdgeBelow(totals, rank, a, edges[0]);
      SumsAreBounded(program, root, graph, totals, rank, edges[1..], edges[0].target, total - Cost(edges[0]));
    }
  }

  /** Nothing is wrong with the code of an accepted program. */
  lemma AcceptedIsRight(program: Program, root: nat, graph: Graph, totals: map<nat, Total>, rank: map<nat, nat>,
                        failure: ProofFailure)
    requires Established(program, root, graph, totals, rank) && totals[root].maximum <= WORKING_STACK_LIMIT
    ensures !Refusable(program, root, failure)
  {
    if Refusable(program, root, failure) {
      match failure {
        case RecursiveCallChain(cycle) =>
          EnteredEnds(program, root, graph, totals, rank, cycle[0]);
          ChainIsLinked(program, root, graph, totals, rank, cycle);
          ChainDescends(graph, totals, rank, graph, cycle, |cycle| - 1);
        case StackLimitExceeded =>
          var edges, total :| Sums(program, edges, root, total) && total > WORKING_STACK_LIMIT;
          SumsAreBounded(program, root, graph, totals, rank, edges, root, total);
        case _ =>
          var a :| a in program && Entered(program, root, a) && Faulty(program, program[a], failure);
          EnteredEnds(program, root, graph, totals, rank, a);
          AcceptedFunction(program, graph, totals, rank, a, failure);
      }
    }
  }

  lemma EnteredEnds(program: Program, root: nat, graph: Graph, totals: map<nat, Total>, rank: map<nat, nat>, b: nat)
    requires Established(program, root, graph, totals, rank) && Entered(program, root, b)
    ensures b in totals
  {
    var chain: seq<nat> :| |chain| > 0 && chain[0] == root && chain[|chain| - 1] == b && EntryChain(program, chain);
    ChainIsLinked(program, root, graph, totals, rank, chain);
  }

  lemma AcceptedFunction(program: Program, graph: Graph, totals: map<nat, Total>, rank: map<nat, nat>, a: nat,
                         failure: ProofFailure)
    requires Describes(program, graph) && Settled(graph, totals, rank) && a in totals && a in program
    ensures !Faulty(program, program[a], failure)
  {
    assert SettledAt(graph, totals, rank, a) && DescribedAt(program, graph, a);
    var states :| Analysed(program, program[a], states, graph[a]);
    AnalysedIsNotRejected(program, program[a], states, graph[a], failure);
    RejectionExact(program, program[a], failure);
  }

  /** `_prove`: a program is accepted exactly when nothing is wrong with its code, and the reported maximum is the
      greatest sum that a chain of its calls attains. */
  method ProveExactly(program: Program, root: nat) returns (r: Result<Report, ProofFailure>)
    requires root in program
    ensures r.Ok? <==> forall failure :: !Refusable(program, root, failure)
    ensures r.Err? ==> Refusable(program, root, r.error)
    ensures r.Ok? ==> Sums(program, EdgesOf(r.value.links), root, r.value.maximum)
    ensures r.Ok? ==> forall edges, total :: Sums(program, edges, root, total) ==> total <= r.value.maximum
    ensures r.Ok? ==> forall a {:trigger Entered(program, root, a)} ::
                        a in r.value.reachable <==> Entered(program, root, a)
  {
    var result, graph, totals, rank := Prove(program, root);
    r := result;
    if r.Err? {
      RefusalExplained(program, root, r.error);
    } else {
      ProvedExactly(program, root, graph, totals, rank, r.value);
    }
  }

  lemma ProvedExactly(program: Program, root: nat, graph: Graph, totals: map<nat, Total>, rank: map<nat, nat>,
                      r: Report)
    requires Established(program, root, graph, totals, rank) && totals[root] == Total(r.maximum, r.links)
    requires r.maximum <= WORKING_STACK_LIMIT && IsWitness(graph, r.links, root, r.maximum)
    requires forall a :: a in r.reachable <==> Called(graph, root, a)
    ensures forall failure :: !Refusable(program, root, failure)
    ensures Sums(program, EdgesOf(r.links), root, r.maximum)
    ensures forall edges, total :: Sums(program, edges, root, total) ==> total <= r.maximum
    ensures forall a {:trigger Entered(program, root, a)} :: a in r.reachable <==> Entered(program, root, a)
  {
    forall failure ensures !Refusable(program, root, failure) {
      AcceptedIsRight(program, root, graph, totals, rank, failure);
    }
    WitnessSums(program, graph, r.links, root, r.maximum);
    forall edges, total | Sums(program, edges, root, total) ensures total <= r.maximum {
      SumsAreBounded(program, root, graph, totals, rank, edges, root, total);
    }
    forall a ensures Called(graph, root, a) <==> Entered(program, root, a) {
      if Called(graph, root, a) { CalledIsEntered(program, graph, root, a); }
      if Entered(program, root, a) { EnteredEnds(program, root, graph, totals, rank, a); }
    }
  }
}
