/** A machine that runs the decoded instructions, and the soundness of the proved stack bound for its runs. */
module StackMachine {
  import opened Outcome
  import opened StackCode
  import opened StackLocal
  import opened StackProve

  /** A suspended caller: where it resumes, its own entry stack pointer and its frame pointer. */
  datatype Frame = Frame(fn: nat, pc: nat, entry: int, rbp: int)

  /** `entry` is where the running function's return address lies; `equal` is the zero flag, which only a
      comparison fixes. */
  datatype Cpu = Cpu(frames: seq<Frame>, fn: nat, pc: nat, entry: int, rsp: int, regs: nat -> int, equal: bool)

  /** `Wild`: control has left the decoded program, or a return has taken something else than its return address. */
  datatype Machine = Running(cpu: Cpu) | Wild

  predicate IsControl(op: Op) { op.Call? || op.Jump? || op.Branch? || op.Return? || op.Halt? }

  ghost predicate SameRegisters(c: Cpu, d: Cpu) { forall r :: d.regs(r) == c.regs(r) }

  ghost predicate OnlyChanges(c: Cpu, d: Cpu, r: nat) { forall q :: q != r ==> d.regs(q) == c.regs(q) }

  /** What a straight-line instruction does; registers loaded from memory or computed elsewhere are arbitrary. */
  ghost predicate Executes(op: Op, c: Cpu, d: Cpu) {
    match op
    case Push(_, _) => d.rsp == c.rsp - 8 && SameRegisters(c, d)
    case Pop(toRbp) => d.rsp == c.rsp + 8 && (!toRbp ==> d.regs(RBP) == c.regs(RBP))
    case Leave => d.rsp == c.regs(RBP) + 8
    case SubRsp(n) => d.rsp == c.rsp - n && SameRegisters(c, d)
    case AddRsp(n) => d.rsp == c.rsp + n && SameRegisters(c, d)
    case LeaRsp(n) => d.rsp == c.rsp + n && SameRegisters(c, d)
    case RspFromRbp => d.rsp == c.regs(RBP) && SameRegisters(c, d)
    case AlignRsp => d.rsp == c.rsp - c.rsp % 16 && SameRegisters(c, d)
    case CopyRsp(r) => d.rsp == c.rsp && d.regs(r) == c.rsp && OnlyChanges(c, d, r)
    case SubRegister(n, r) => d.rsp == c.rsp && d.regs(r) == c.regs(r) - n && OnlyChanges(c, d, r)
    case Touch => d.rsp == c.rsp && SameRegisters(c, d)
    case CompareRsp(r) => d.rsp == c.rsp && SameRegisters(c, d) && d.equal == (c.regs(r) == c.rsp)
    case WriteRbp(_) => d.rsp == c.rsp
    case SpoilRbp(_) => d.rsp == c.rsp
    case Other(_) => d.rsp == c.rsp && d.regs(RBP) == c.regs(RBP)
    case _ => false
  }

  /** The same activation, at another instruction. */
  ghost predicate Moves(c: Cpu, d: Cpu, pc: nat) {
    d.frames == c.frames && d.fn == c.fn && d.entry == c.entry && d.pc == pc
  }

  ghost predicate Jumps(program: Program, f: Function, t: Target, c: Cpu, n: Machine) {
    if t.direct && InCode(f, t) then
      n.Running? && Moves(c, n.cpu, t.local.value) && n.cpu.rsp == c.rsp && SameRegisters(c, n.cpu)
    else if t.direct && Known(program, t) then
      n.Running? && n.cpu == c.(fn := t.callee.value, pc := 0, equal := n.cpu.equal)
    else n.Wild?
  }

  ghost predicate Calls(program: Program, t: Target, c: Cpu, n: Machine) {
    if t.direct && Known(program, t) then
      n.Running? && n.cpu == c.(frames := c.frames + [Frame(c.fn, c.pc + 1, c.entry, c.regs(RBP))],
                                fn := t.callee.value, pc := 0, entry := c.rsp - 8,
                                rsp := c.rsp - 8, equal := n.cpu.equal)
    else n.Wild?
  }

  /** A return from the bottom activation ends the run; the callee has put the frame pointer back. */
  ghost predicate Returns(operand: bool, c: Cpu, n: Machine) {
    if operand || c.rsp != c.entry then n.Wild?
    else
      && c.frames != [] && n.Running?
      && var frame := c.frames[|c.frames| - 1];
         && n.cpu.frames == c.frames[..|c.frames| - 1] && n.cpu.fn == frame.fn && n.cpu.pc == frame.pc
         && n.cpu.entry == frame.entry && n.cpu.rsp == c.entry + 8 && n.cpu.regs(RBP) == frame.rbp
  }

  /** One instruction. Past the last instruction of a function, control has left the decoded program. */
  ghost predicate Step(program: Program, c: Cpu, n: Machine) {
    && c.fn in program
    && var f := program[c.fn];
       if c.pc >= |f.code| then n.Wild?
       else match f.code[c.pc]
       case Unmodelled => n.Wild?
       case Call(t) => Calls(program, t, c, n)
       case Jump(t) => Jumps(program, f, t, c, n)
       case Branch(notEqual, t) =>
         || ((notEqual ==> !c.equal) && Jumps(program, f, t, c, n))
         || ((notEqual ==> c.equal) && n.Running? && Moves(c, n.cpu, c.pc + 1) && n.cpu.rsp == c.rsp
             && SameRegisters(c, n.cpu))
       case Return(operand) => Returns(operand, c, n)
       case Halt => false
       case op => n.Running? && Moves(c, n.cpu, c.pc + 1) && Executes(op, c, n.cpu)
  }

  ghost predicate StepsAt(program: Program, run: seq<Machine>, i: int)
    requires 0 < i < |run|
  {
    run[i - 1].Running? && Step(program, run[i - 1].cpu, run[i])
  }

  /** A run that starts at the root with its return address at `base`. */
  ghost predicate Run(program: Program, root: nat, base: int, run: seq<Machine>) {
    && |run| > 0 && run[0].Running?
    && run[0].cpu.frames == [] && run[0].cpu.fn == root && run[0].cpu.pc == 0
    && run[0].cpu.entry == base && run[0].cpu.rsp == base
    && forall i {:trigger StepsAt(program, run, i)} :: 0 < i < |run| ==> StepsAt(program, run, i)
  }

  // ---- What the analyser assumes of the program ------------------------------------------

  ghost predicate InProbe(code: seq<Op>, k: nat, total: int, pc: nat) {
    ProbeAt(code, k, total) && k < pc <= k + 5
  }

  ghost predicate OutsideProbes(code: seq<Op>, pc: nat) {
    forall k, total :: !InProbe(code, k, total, pc)
  }

  /** A jump at `i` goes to `to`. */
  ghost predicate JumpsTo(code: seq<Op>, i: nat, to: nat) {
    && i < |code| && to < |code|
    && ((code[i].Jump? && code[i].target.local == Some(to)) || (code[i].Branch? && code[i].target.local == Some(to)))
  }

  /** Probe loops are entered at their first instruction: only their own branch jumps into them. */
  ghost predicate ProbesGuarded(code: seq<Op>) {
    forall k, total, i, to :: InProbe(code, k, total, to) && JumpsTo(code, i, to) ==> i == k + 5 && to == k + 2
  }

  /** Only the entry function is `_start`, and it is entered with an aligned stack pointer. */
  ghost predicate Admissible(program: Program, root: nat, base: int) {
    && base % 16 == 0
    && (forall a :: a in program && program[a].isStart ==> a == root)
    && (forall a :: a in program ==> ProbesGuarded(program[a].code))
  }

  // ---- One function ----------------------------------------------------------------------

  /** The stack pointer is where an abstract state puts it. */
  ghost predicate Abstracts(s: State, entry: int, rsp: int) { rsp == entry - s.depth }

  /** The frame pointer is where an abstract state puts it, if it does. */
  ghost predicate Agrees(s: State, entry: int, rbp: int) { s.rbp.Some? ==> rbp == entry - s.rbp.value }

  /** The instruction loads the stack pointer from the frame pointer. */
  predicate NeedsRbp(op: Op) { op.Leave? || op.RspFromRbp? }

  /** An accepted effect is what the instruction does to the stack pointer, given the frame pointer where it is
      needed. */
  lemma EffectSound(f: Function, op: Op, s: State, c: Cpu, d: Cpu)
    requires Abstracts(s, c.entry, c.rsp) && (NeedsRbp(op) ==> Agrees(s, c.entry, c.regs(RBP)))
             && StackEffect(f, op, s).Ok?
    requires d.entry == c.entry && Executes(op, c, d)
    requires f.isStart ==> c.entry % 16 == 0
    ensures Abstracts(StackEffect(f, op, s).value, d.entry, d.rsp)
  {
  }

  /** It is also what the instruction does to the frame pointer, unless that is written behind the analyser's back. */
  lemma RbpSound(f: Function, op: Op, s: State, c: Cpu, d: Cpu)
    requires Agrees(s, c.entry, c.regs(RBP)) && StackEffect(f, op, s).Ok?
             && (op == CopyRsp(RBP) ==> Abstracts(s, c.entry, c.rsp))
    requires d.entry == c.entry && Executes(op, c, d) && (op.SpoilRbp? ==> d.regs(RBP) == c.regs(RBP))
    ensures Agrees(StackEffect(f, op, s).value, d.entry, d.regs(RBP))
  {
  }

  /** How much deeper the machine is than the recorded state. */
  function Extra(s: State, c: Cpu): int { c.entry - c.rsp - s.depth }

  /** Inside a probe loop: whole pages below the recorded state, the limit register at the final stack pointer. */
  ghost predicate Probing(code: seq<Op>, R: map<nat, State>, k: nat, total: int, c: Cpu)
    requires ProbeAt(code, k, total)
  {
    && c.pc in R
    && var extra, limit := Extra(R[c.pc], c), c.regs(code[k].register);
       if c.pc == k + 1 then extra == 0 && limit == c.rsp
       else
         && k + 2 in R && R[c.pc].rbp == R[k + 2].rbp
         && 0 <= extra && extra % PROBE == 0 && extra + PROBE <= total
         && if c.pc == k + 2 then limit == c.rsp + extra - total
            else
              && R[c.pc].depth == R[k + 2].depth + PROBE && limit == c.rsp + extra + PROBE - total
              && (c.pc == k + 5 ==> c.equal == (limit == c.rsp))
  }

  /** The machine is at a recorded instruction, and its stack pointer agrees with the state there. */
  ghost predicate Here(code: seq<Op>, R: map<nat, State>, c: Cpu) {
    && c.pc in R && c.pc < |code|
    && (forall k, total :: InProbe(code, k, total, c.pc) ==> Probing(code, R, k, total, c))
    && (OutsideProbes(code, c.pc) ==> Extra(R[c.pc], c) == 0)
  }

  /** Past the last instruction, about to leave the program. */
  ghost predicate Past(code: seq<Op>, l: Local, c: Cpu) {
    c.pc == |code| && c.entry - c.rsp <= l.peak
  }

  /** Two probe loops never overlap. */
  lemma ProbesApart(code: seq<Op>, k: nat, total: int, k': nat, total': int, pc: nat)
    requires InProbe(code, k, total, pc) && InProbe(code, k', total', pc)
    ensures k == k' && total == total'
  {
    assert k < k' ==> k' == k + 1 || k' == k + 2 || k' == k + 3 || k' == k + 4 || k' == k + 5;
    assert k' < k ==> k == k' + 1 || k == k' + 2 || k == k' + 3 || k == k' + 4 || k == k' + 5;
  }

  /** Running off a straight-line instruction is not into the middle of a probe loop unless the loop is already
      running. */
  lemma ProbeEntered(code: seq<Op>, k: nat, total: int, pc: nat)
    requires InProbe(code, k, total, pc + 1) && pc < |code|
    ensures (pc == k && code[pc].CopyRsp?) || InProbe(code, k, total, pc)
  {
  }

  /** A straight-line instruction continues with the recorded effect. */
  lemma StraightRecorded(program: Program, f: Function, R: map<nat, State>, pc: nat)
    requires ClosedAt(program, f, R, pc) && !IsControl(f.code[pc])
    ensures StackEffect(f, f.code[pc], R[pc]).Ok? && !f.code[pc].Unmodelled?
    ensures pc + 1 < |f.code| && pc + 1 in R && R[pc + 1] == StackEffect(f, f.code[pc], R[pc]).value
  {
    var e := Examine(program, f, pc, R[pc]).value;
    assert e.successors[0] in e.successors;
  }

  lemma ProbeAdvances(f: Function, R: map<nat, State>, k: nat, total: int, c: Cpu, d: Cpu)
    requires InProbe(f.code, k, total, c.pc) && c.pc < k + 5 && Here(f.code, R, c)
    requires StackEffect(f, f.code[c.pc], R[c.pc]).Ok?
    requires c.pc + 1 in R && R[c.pc + 1] == StackEffect(f, f.code[c.pc], R[c.pc]).value
    requires Moves(c, d, c.pc + 1) && Executes(f.code[c.pc], c, d)
    ensures Here(f.code, R, d)
  {
    assert Probing(f.code, R, k, total, c);
    ProbingNext(f, R, k, total, c, d);
    HereProbing(f.code, R, k, total, d);
  }

  /** Agreement with the one probe loop that the machine is in. */
  lemma HereProbing(code: seq<Op>, R: map<nat, State>, k: nat, total: int, d: Cpu)
    requires InProbe(code, k, total, d.pc) && Probing(code, R, k, total, d)
    ensures Here(code, R, d)
  {
    forall k': nat, total': int | InProbe(code, k', total', d.pc) ensures Probing(code, R, k', total', d) {
      ProbesApart(code, k, total, k', total', d.pc);
    }
  }

  /** One instruction of a running probe loop. */
  lemma ProbingNext(f: Function, R: map<nat, State>, k: nat, total: int, c: Cpu, d: Cpu)
    requires InProbe(f.code, k, total, c.pc) && c.pc < k + 5 && Probing(f.code, R, k, total, c)
    requires Moves(c, d, c.pc + 1) && Executes(f.code[c.pc], c, d)
    requires StackEffect(f, f.code[c.pc], R[c.pc]).Ok? && c.pc + 1 in R
             && R[c.pc + 1] == StackEffect(f, f.code[c.pc], R[c.pc]).value
    ensures Probing(f.code, R, k, total, d)
  {
    assert c.pc == k + 1 || c.pc == k + 2 || c.pc == k + 3 || c.pc == k + 4;
  }

  lemma StraightAdvances(program: Program, f: Function, R: map<nat, State>, c: Cpu, d: Cpu)
    requires ClosedAt(program, f, R, c.pc) && Here(f.code, R, c) && !IsControl(f.code[c.pc])
    requires Moves(c, d, c.pc + 1) && Executes(f.code[c.pc], c, d)
    requires NeedsRbp(f.code[c.pc]) ==> Agrees(R[c.pc], c.entry, c.regs(RBP))
    requires f.isStart ==> c.entry % 16 == 0
    ensures Here(f.code, R, d)
  {
    StraightRecorded(program, f, R, c.pc);
    if k: nat, total: int :| InProbe(f.code, k, total, c.pc) {
      StraightInside(f.code, k, total, c.pc);
      ProbeAdvances(f, R, k, total, c, d);
    } else {
      EffectSound(f, f.code[c.pc], R[c.pc], c, d);
      forall k: nat, total: int | InProbe(f.code, k, total, d.pc) ensures Probing(f.code, R, k, total, d) {
        ProbeEntered(f.code, k, total, c.pc);
      }
    }
  }

  lemma StraightInside(code: seq<Op>, k: nat, total: int, pc: nat)
    requires InProbe(code, k, total, pc) && !IsControl(code[pc])
    ensures pc < k + 5
  {
  }

  /** Arriving outside every probe loop with the recorded state. */
  lemma Arrives(code: seq<Op>, R: map<nat, State>, d: Cpu)
    requires d.pc in R && d.pc < |code| && Abstracts(R[d.pc], d.entry, d.rsp)
    requires OutsideProbes(code, d.pc)
    ensures Here(code, R, d)
  {
  }

  lemma AfterControl(code: seq<Op>, pc: nat)
    requires pc < |code| && IsControl(code[pc])
    ensures OutsideProbes(code, pc + 1)
  {
    var next := pc + 1;
    forall k: nat, total: int ensures !InProbe(code, k, total, next) {
      if InProbe(code, k, total, next) {
        ProbeEntered(code, k, total, pc);
        assert false;
      }
    }
  }

  /** The branch that closes a probe loop goes round while pages are missing and leaves with exactly the total. */
  lemma ProbeCloses(program: Program, f: Function, R: map<nat, State>, k: nat, total: int, c: Cpu, d: Cpu)
    requires ProbeAt(f.code, k, total) && c.pc == k + 5
    requires ClosedAt(program, f, R, c.pc) && Here(f.code, R, c)
    requires d.rsp == c.rsp && SameRegisters(c, d)
    requires (!c.equal && Moves(c, d, k + 2)) || (c.equal && Moves(c, d, k + 6))
    ensures Here(f.code, R, d)
    ensures c.equal ==> Extra(R[c.pc], c) == total - PROBE
  {
    assert InProbe(f.code, k, total, c.pc) && Probing(f.code, R, k, total, c);
    var extra := Extra(R[c.pc], c);
    assert c.equal <==> extra + PROBE == total;
    if c.equal {
      ProbeRecorded(program, f, R, k, total);
      AfterControl(f.code, c.pc);
      Arrives(f.code, R, d);
    } else {
      PagesLeft(extra, total);
      HereProbing(f.code, R, k, total, d);
    }
  }

  lemma PagesLeft(extra: int, total: int)
    requires extra % PROBE == 0 && total % PROBE == 0 && extra + PROBE < total
    ensures (extra + PROBE) % PROBE == 0 && extra + PROBE + PROBE <= total
  {
  }

  lemma ProbeRecorded(program: Program, f: Function, R: map<nat, State>, k: nat, total: int)
    requires ProbeAt(f.code, k, total) && ClosedAt(program, f, R, k + 5)
    ensures Examine(program, f, k + 5, R[k + 5]).value.depth == R[k + 5].depth + total - PROBE
    ensures k + 6 < |f.code| && k + 6 in R && R[k + 6] == State(R[k + 5].depth + total - PROBE, R[k + 5].rbp)
  {
    assert ProbeTotal(f.code, k + 5) == Some(total);
    var e := Examine(program, f, k + 5, R[k + 5]).value;
    assert e.successors[0] in e.successors;
  }

  // ---- Depths in one function ------------------------------------------------------------

  /** From inside a probe loop the analysis has recorded the loop's branch. */
  lemma ProbeBranchRecorded(program: Program, f: Function, R: map<nat, State>, k: nat, total: int, pc: nat)
    requires Consistent(program, f, R) && InProbe(f.code, k, total, pc) && pc in R
    ensures k + 5 in R && R[k + 5].depth == R[pc].depth + (if pc <= k + 2 then PROBE else 0)
    decreases k + 5 - pc
  {
    if pc < k + 5 {
      assert ClosedAt(program, f, R, pc);
      assert pc == k + 1 || pc == k + 2 || pc == k + 3 || pc == k + 4;
      StraightRecorded(program, f, R, pc);
      ProbeBranchRecorded(program, f, R, k, total, pc + 1);
    }
  }

  function Address(a: Access, c: Cpu): int {
    (if a.base.OnStackPointer? then c.rsp else c.regs(RBP)) + a.displacement
  }

  /** Inside a probe loop the stack pointer never passes the loop's total. */
  lemma ProbeBounded(program: Program, f: Function, R: map<nat, State>, l: Local, c: Cpu, k: nat, total: int)
    requires Consistent(program, f, R) && Reports(program, f, R, R.Keys, l) && Here(f.code, R, c)
    requires InProbe(f.code, k, total, c.pc)
    ensures c.entry - c.rsp <= l.peak
  {
    ProbeBranchRecorded(program, f, R, k, total, c.pc);
    ProbePeak(program, f, R, l, k, total);
    DepthInProbe(f.code, R, k, total, c);
  }

  lemma ProbePeak(program: Program, f: Function, R: map<nat, State>, l: Local, k: nat, total: int)
    requires Consistent(program, f, R) && Reports(program, f, R, R.Keys, l) && ProbeAt(f.code, k, total) && k + 5 in R
    ensures R[k + 5].depth + total - PROBE <= l.peak
  {
    WithinPeak(program, f, R, l, k + 5);
    assert ClosedAt(program, f, R, k + 5);
    ProbeRecorded(program, f, R, k, total);
  }

  lemma DepthInProbe(code: seq<Op>, R: map<nat, State>, k: nat, total: int, c: Cpu)
    requires Here(code, R, c) && InProbe(code, k, total, c.pc)
    requires k + 5 in R && R[k + 5].depth == R[c.pc].depth + (if c.pc <= k + 2 then PROBE else 0)
    ensures c.entry - c.rsp <= R[k + 5].depth + total - PROBE
  {
    assert Probing(code, R, k, total, c);
  }

  lemma ProbeAccesses(code: seq<Op>, k: nat, total: int, pc: nat)
    requires InProbe(code, k, total, pc)
    ensures forall a :: a in Accesses(code[pc]) ==> a == Access(OnStackPointer, 0)
  {
    assert pc == k + 1 || pc == k + 2 || pc == k + 3 || pc == k + 4 || pc == k + 5;
  }

  lemma AccessesBounded(code: seq<Op>, R: map<nat, State>, peak: int, c: Cpu)
    requires Here(code, R, c) && Extra(R[c.pc], c) == 0 && MemoryPeak(Accesses(code[c.pc]), R[c.pc]) <= peak
    ensures forall a :: a in Accesses(code[c.pc]) && Sure(R[c.pc], c, a) ==> c.entry - Address(a, c) <= peak
  {
  }

  /** The analysis knows the base of the operand, and the machine has it there. */
  ghost predicate Sure(s: State, c: Cpu, a: Access) {
    a.base.OnStackPointer? || (s.rbp.Some? && Agrees(s, c.entry, c.regs(RBP)))
  }

  ghost predicate Bounded(f: Function, R: map<nat, State>, l: Local, c: Cpu)
    requires c.pc in R && c.pc < |f.code|
  {
    && c.entry - c.rsp <= l.peak
    && forall a :: a in Accesses(f.code[c.pc]) && Sure(R[c.pc], c, a) ==> c.entry - Address(a, c) <= l.peak
  }

  /** The stack pointer, and every operand whose base the analysis rightly knows, stay within the function's peak. */
  lemma HereBounded(program: Program, f: Function, R: map<nat, State>, l: Local, c: Cpu)
    requires Consistent(program, f, R) && Reports(program, f, R, R.Keys, l) && Here(f.code, R, c)
    ensures Bounded(f, R, l, c)
  {
    if k: nat, total: int :| InProbe(f.code, k, total, c.pc) {
      InsideBounded(program, f, R, l, c, k, total);
    } else {
      OutsideBounded(program, f, R, l, c);
    }
  }

  lemma InsideBounded(program: Program, f: Function, R: map<nat, State>, l: Local, c: Cpu, k: nat, total: int)
    requires Consistent(program, f, R) && Reports(program, f, R, R.Keys, l) && Here(f.code, R, c)
    requires InProbe(f.code, k, total, c.pc)
    ensures Bounded(f, R, l, c)
  {
    ProbeBounded(program, f, R, l, c, k, total);
    OperandsInProbe(f.code, c, k, total);
  }

  /** The only operand of a probe loop is the top of the stack. */
  lemma OperandsInProbe(code: seq<Op>, c: Cpu, k: nat, total: int)
    requires InProbe(code, k, total, c.pc)
    ensures forall a :: a in Accesses(code[c.pc]) ==> Address(a, c) == c.rsp
  {
    ProbeAccesses(code, k, total, c.pc);
  }

  lemma OutsideBounded(program: Program, f: Function, R: map<nat, State>, l: Local, c: Cpu)
    requires Consistent(program, f, R) && Reports(program, f, R, R.Keys, l) && Here(f.code, R, c)
             && OutsideProbes(f.code, c.pc)
    ensures Bounded(f, R, l, c)
  {
    WithinPeak(program, f, R, l, c.pc);
    AccessesBounded(f.code, R, l.peak, c);
  }

  /** The reported peak covers the operands and the outcome of every recorded instruction. */
  lemma WithinPeak(program: Program, f: Function, R: map<nat, State>, l: Local, pc: nat)
    requires Consistent(program, f, R) && Reports(program, f, R, R.Keys, l) && pc in R
    ensures pc < |f.code| && MemoryPeak(Accesses(f.code[pc]), R[pc]) <= l.peak
    ensures Examine(program, f, pc, R[pc]).Ok? && Examine(program, f, pc, R[pc]).value.depth <= l.peak
  {
    assert ClosedAt(program, f, R, pc);
    assert Observed(program, f, R, pc, Examine(program, f, pc, R[pc]).value);
    ExaminedPeak(program, f, pc, R[pc]);
  }

  lemma ExaminedPeak(program: Program, f: Function, pc: nat, s: State)
    requires pc < |f.code| && Examine(program, f, pc, s).Ok?
    ensures Examine(program, f, pc, s).value.memoryPeak == MemoryPeak(Accesses(f.code[pc]), s)
  {
  }

  // ---- The whole program -----------------------------------------------------------------

  /** A proved program, the tables of its proof and the states recorded for each function. */
  datatype Certificate = Certificate(program: Program, root: nat, base: int, graph: Graph, totals: map<nat, Total>,
                                     rank: map<nat, nat>, records: map<nat, map<nat, State>>)

  ghost predicate RecordedAt(x: Certificate, a: nat) {
    && a in x.program && a in x.graph && a in x.records && a in x.totals
    && Analysed(x.program, x.program[a], x.records[a], x.graph[a])
  }

  ghost predicate Certified(x: Certificate) {
    && Established(x.program, x.root, x.graph, x.totals, x.rank) && Admissible(x.program, x.root, x.base)
    && forall a {:trigger RecordedAt(x, a)} :: a in x.totals ==> RecordedAt(x, a)
  }

  /** The function has an entry in every table. */
  ghost predicate Tabled(x: Certificate, fn: nat) {
    fn in x.totals && fn in x.program && fn in x.records && fn in x.graph
  }

  /** An activation whose whole remaining bound fits below the base. */
  ghost predicate Activation(x: Certificate, fn: nat, entry: int) {
    && Tabled(x, fn) && x.root in x.totals
    && x.base - entry + x.totals[fn].maximum <= x.totals[x.root].maximum
    && (fn == x.root ==> entry == x.base)
  }

  /** A suspended caller resumes at its recorded depth once the stack pointer is `top` again. */
  ghost predicate Resumes(x: Certificate, frame: Frame, top: int) {
    && Activation(x, frame.fn, frame.entry)
    && var code, R := x.program[frame.fn].code, x.records[frame.fn];
       if frame.pc == |code| then frame.entry - top <= x.graph[frame.fn].peak
       else
         && frame.pc in R && frame.pc < |code| && Abstracts(R[frame.pc], frame.entry, top)
         && OutsideProbes(code, frame.pc)
  }

  /** The stack pointer a suspended caller had before its call. */
  function Top(c: Cpu, i: nat): int
    requires i < |c.frames|
  {
    (if i + 1 < |c.frames| then c.frames[i + 1].entry else c.entry) + 8
  }

  ghost predicate At(x: Certificate, c: Cpu)
    requires c.fn in x.program && c.fn in x.records && c.fn in x.graph
  {
    Here(x.program[c.fn].code, x.records[c.fn], c) || Past(x.program[c.fn].code, x.graph[c.fn], c)
  }

  ghost predicate ResumesAt(x: Certificate, c: Cpu, i: nat)
    requires i < |c.frames|
  {
    Resumes(x, c.frames[i], Top(c, i))
  }

  /** The stack pointer agrees with the analysis, here and in every suspended caller. */
  ghost predicate Safe(x: Certificate, c: Cpu) {
    && Activation(x, c.fn, c.entry) && At(x, c)
    && forall i {:trigger ResumesAt(x, c, i)} :: 0 <= i < |c.frames| ==> ResumesAt(x, c, i)
  }

  /** The same activation leaves the suspended callers alone. */
  lemma StillSafe(x: Certificate, c: Cpu, d: Cpu)
    requires Safe(x, c) && d.frames == c.frames && d.entry == c.entry
    requires Activation(x, d.fn, d.entry) && At(x, d)
    ensures Safe(x, d)
  {
    forall i | 0 <= i < |d.frames| ensures ResumesAt(x, d, i) {
      assert ResumesAt(x, c, i);
    }
  }

  /** The edge out of an examined instruction leads to a settled function other than the root. */
  lemma EdgeSettled(x: Certificate, fn: nat, pc: nat, e: Edge)
    requires Certified(x) && Tabled(x, fn) && ClosedAt(x.program, x.program[fn], x.records[fn], pc)
    requires e in Examine(x.program, x.program[fn], pc, x.records[fn][pc]).value.edges
    ensures Tabled(x, e.target) && e.target != x.root
    ensures Cost(e) + x.totals[e.target].maximum <= x.totals[fn].maximum
            && x.graph[e.target].peak <= x.totals[e.target].maximum
  {
    assert RecordedAt(x, fn);
    assert Observed(x.program, x.program[fn], x.records[fn], pc,
                    Examine(x.program, x.program[fn], pc, x.records[fn][pc]).value);
    assert e in x.graph[fn].edges;
    assert SettledAt(x.graph, x.totals, x.rank, fn);
    assert EdgeBelow(x.totals, x.rank, fn, e);
    assert CallsTo(x.graph, fn, e.target);
    RootIsNoTarget(x.program, x.root, x.graph, x.totals, x.rank, fn);
    assert RecordedAt(x, e.target) && SettledAt(x.graph, x.totals, x.rank, e.target);
  }

  /** A function is entered with its return address at the stack pointer. */
  lemma Entered(x: Certificate, d: Cpu)
    requires Certified(x) && Tabled(x, d.fn) && d.pc == 0 && d.rsp == d.entry
    ensures Here(x.program[d.fn].code, x.records[d.fn], d)
  {
    assert RecordedAt(x, d.fn);
    assert ClosedAt(x.program, x.program[d.fn], x.records[d.fn], 0);
  }

  /** What holds of a running machine that is about to execute an instruction. */
  ghost predicate Ready(x: Certificate, c: Cpu) {
    && Certified(x) && Safe(x, c) && c.pc < |x.program[c.fn].code|
    && Here(x.program[c.fn].code, x.records[c.fn], c)
    && ClosedAt(x.program, x.program[c.fn], x.records[c.fn], c.pc)
    && (x.program[c.fn].isStart ==> c.entry % 16 == 0)
  }

  /** The reported peak of a function covers each of its recorded instructions. */
  lemma PeakAt(x: Certificate, fn: nat, pc: nat)
    requires Certified(x) && Tabled(x, fn) && pc in x.records[fn]
    ensures pc < |x.program[fn].code| && x.records[fn][pc].depth <= x.graph[fn].peak
  {
    assert RecordedAt(x, fn);
    WithinPeak(x.program, x.program[fn], x.records[fn], x.graph[fn], pc);
  }

  lemma PeakNotNegative(x: Certificate, fn: nat)
    requires Certified(x) && Tabled(x, fn)
    ensures x.graph[fn].peak >= 0
  {
    assert RecordedAt(x, fn);
  }

  /** The running function stays within its own peak, and its bound covers that peak. */
  lemma BoundedAt(x: Certificate, c: Cpu)
    requires Ready(x, c)
    ensures Bounded(x.program[c.fn], x.records[c.fn], x.graph[c.fn], c) && x.graph[c.fn].peak <= x.totals[c.fn].maximum
  {
    assert RecordedAt(x, c.fn) && SettledAt(x.graph, x.totals, x.rank, c.fn);
    HereBounded(x.program, x.program[c.fn], x.records[c.fn], x.graph[c.fn], c);
  }

  lemma GetReady(x: Certificate, c: Cpu)
    requires Certified(x) && Safe(x, c) && c.pc < |x.program[c.fn].code|
    ensures Ready(x, c)
  {
    assert RecordedAt(x, c.fn);
  }

  /** The frame pointer is where the analysis has it. */
  ghost predicate RbpRight(x: Certificate, c: Cpu)
    requires c.fn in x.records
  {
    c.pc in x.records[c.fn] ==> Agrees(x.records[c.fn][c.pc], c.entry, c.regs(RBP))
  }

  /** It is there at least if the stack pointer is about to be loaded from it. */
  ghost predicate RightWhereNeeded(x: Certificate, c: Cpu)
    requires c.fn in x.program && c.fn in x.records && c.pc < |x.program[c.fn].code|
  {
    NeedsRbp(x.program[c.fn].code[c.pc]) ==> RbpRight(x, c)
  }

  lemma StraightSafe(x: Certificate, c: Cpu, n: Machine)
    requires Ready(x, c) && Step(x.program, c, n)
    requires var op := x.program[c.fn].code[c.pc]; !op.Call? && !op.Jump? && !op.Branch? && !op.Return?
    requires RightWhereNeeded(x, c)
    ensures n.Running? && Safe(x, n.cpu)
  {
    var f, R := x.program[c.fn], x.records[c.fn];
    StraightRecorded(x.program, f, R, c.pc);
    StraightAdvances(x.program, f, R, c, n.cpu);
    StillSafe(x, c, n.cpu);
  }

  /** Outside probe loops a control instruction sees exactly the recorded state. */
  lemma ControlAgrees(code: seq<Op>, R: map<nat, State>, c: Cpu)
    requires Here(code, R, c) && IsControl(code[c.pc]) && (code[c.pc].Branch? ==> ProbeTotal(code, c.pc).None?)
    ensures Abstracts(R[c.pc], c.entry, c.rsp)
  {
    forall k: nat, total: int ensures !InProbe(code, k, total, c.pc) {
      if InProbe(code, k, total, c.pc) {
        OnlyBranchInProbe(code, k, total, c.pc);
      }
    }
  }

  /** The one control instruction inside a probe loop is the branch that closes it. */
  lemma OnlyBranchInProbe(code: seq<Op>, k: nat, total: int, pc: nat)
    requires InProbe(code, k, total, pc) && IsControl(code[pc])
    ensures code[pc].Branch? && ProbeTotal(code, pc).Some?
  {
    assert pc == k + 1 || pc == k + 2 || pc == k + 3 || pc == k + 4 || pc == k + 5;
    assert pc == k + 5 && ProbeAt(code, pc - 5, total);
  }

  /** A jump inside the function, to an instruction recorded with the current state. */
  lemma LocalJumpSafe(x: Certificate, c: Cpu, d: Cpu, to: nat)
    requires Ready(x, c) && JumpsTo(x.program[c.fn].code, c.pc, to)
    requires x.program[c.fn].code[c.pc].Branch? ==> ProbeTotal(x.program[c.fn].code, c.pc).None?
    requires to in x.records[c.fn] && x.records[c.fn][to] == x.records[c.fn][c.pc]
    requires Moves(c, d, to) && d.rsp == c.rsp && SameRegisters(c, d)
    ensures Safe(x, d)
  {
    var code, R := x.program[c.fn].code, x.records[c.fn];
    ControlAgrees(code, R, c);
    forall k: nat, total: int ensures !InProbe(code, k, total, to) {
      assert ProbesGuarded(code);
      assert InProbe(code, k, total, to) ==> c.pc == k + 5;
      assert InProbe(code, k, total, to) ==> ProbeAt(code, k, total) && IsProbe(code, k);
    }
    Arrives(code, R, d);
    StillSafe(x, c, d);
  }

  lemma TailSafe(x: Certificate, c: Cpu, d: Cpu, e: Edge)
    requires Ready(x, c) && e in Examine(x.program, x.program[c.fn], c.pc, x.records[c.fn][c.pc]).value.edges
    requires e.kind.TailEdge? && c.rsp == c.entry && d == c.(fn := e.target, pc := 0, equal := d.equal)
    ensures Safe(x, d)
  {
    EdgeSettled(x, c.fn, c.pc, e);
    Entered(x, d);
    StillSafe(x, c, d);
  }

  /** Falling through a call or an untaken branch. */
  lemma FallsSafe(x: Certificate, c: Cpu, d: Cpu)
    requires Ready(x, c)
    requires x.program[c.fn].code[c.pc].Branch? && ProbeTotal(x.program[c.fn].code, c.pc).None?
    requires Moves(c, d, c.pc + 1) && d.rsp == c.rsp && SameRegisters(c, d)
    ensures Safe(x, d)
  {
    FallsAt(x, c, d);
    StillSafe(x, c, d);
  }

  lemma FallsAt(x: Certificate, c: Cpu, d: Cpu)
    requires Ready(x, c) && x.program[c.fn].code[c.pc].Branch? && ProbeTotal(x.program[c.fn].code, c.pc).None?
    requires Moves(c, d, c.pc + 1) && d.rsp == c.rsp && SameRegisters(c, d)
    ensures At(x, d)
  {
    var f, R := x.program[c.fn], x.records[c.fn];
    ControlAgrees(f.code, R, c);
    AfterControl(f.code, c.pc);
    PeakAt(x, c.fn, c.pc);
    if c.pc + 1 < |f.code| {
      BranchRecorded(x.program, f, R, c.pc);
      Arrives(f.code, R, d);
    }
  }

  /** The jump at `pc` goes to the entry of another function with nothing left on the stack. */
  ghost predicate LeavesByTail(program: Program, f: Function, R: map<nat, State>, pc: nat)
    requires ClosedAt(program, f, R, pc) && (f.code[pc].Jump? || f.code[pc].Branch?)
  {
    && Known(program, f.code[pc].target) && R[pc].depth == 0
    && Edge(pc, f.code[pc].target.callee.value, TailEdge, 0) in Examine(program, f, pc, R[pc]).value.edges
  }

  /** Both ways out of an ordinary branch are recorded with the state before it. */
  lemma BranchRecorded(program: Program, f: Function, R: map<nat, State>, pc: nat)
    requires ClosedAt(program, f, R, pc) && f.code[pc].Branch? && ProbeTotal(f.code, pc).None?
    ensures pc + 1 < |f.code| ==> pc + 1 in R && R[pc + 1] == R[pc]
    ensures f.code[pc].target.direct
    ensures InCode(f, f.code[pc].target) ==>
              f.code[pc].target.local.value in R && R[f.code[pc].target.local.value] == R[pc]
    ensures !InCode(f, f.code[pc].target) ==> LeavesByTail(program, f, R, pc)
  {
    var e := Examine(program, f, pc, R[pc]).value;
    assert forall i :: 0 <= i < |e.successors| ==> e.successors[i] in e.successors;
    assert pc + 1 < |f.code| ==> e.successors[|e.successors| - 1] == Point(pc + 1, R[pc]);
    assert InCode(f, f.code[pc].target) ==> e.successors[0] == Point(f.code[pc].target.local.value, R[pc]);
  }

  lemma BranchSafe(x: Certificate, c: Cpu, n: Machine)
    requires Ready(x, c) && x.program[c.fn].code[c.pc].Branch? && Step(x.program, c, n)
    ensures n.Running? && Safe(x, n.cpu)
  {
    var f, R := x.program[c.fn], x.records[c.fn];
    var t := f.code[c.pc].target;
    if ProbeTotal(f.code, c.pc).Some? {
      var total := ProbeTotal(f.code, c.pc).value;
      ProbeRecorded(x.program, f, R, c.pc - 5, total);
      ProbeCloses(x.program, f, R, c.pc - 5, total, c, n.cpu);
      StillSafe(x, c, n.cpu);
    } else if Jumps(x.program, f, t, c, n) {
      TakenSafe(x, c, n);
    } else {
      FallsSafe(x, c, n.cpu);
    }
  }

  lemma TakenSafe(x: Certificate, c: Cpu, n: Machine)
    requires Ready(x, c) && x.program[c.fn].code[c.pc].Branch? && ProbeTotal(x.program[c.fn].code, c.pc).None?
    requires Jumps(x.program, x.program[c.fn], x.program[c.fn].code[c.pc].target, c, n)
    ensures n.Running? && Safe(x, n.cpu)
  {
    var f, R := x.program[c.fn], x.records[c.fn];
    var t := f.code[c.pc].target;
    BranchRecorded(x.program, f, R, c.pc);
    if InCode(f, t) {
      LocalJumpSafe(x, c, n.cpu, t.local.value);
    } else {
      ControlAgrees(f.code, R, c);
      TailSafe(x, c, n.cpu, Edge(c.pc, t.callee.value, TailEdge, 0));
    }
  }

  lemma JumpRecorded(program: Program, f: Function, R: map<nat, State>, pc: nat)
    requires ClosedAt(program, f, R, pc) && f.code[pc].Jump?
    ensures f.code[pc].target.direct
    ensures InCode(f, f.code[pc].target) ==>
              f.code[pc].target.local.value in R && R[f.code[pc].target.local.value] == R[pc]
    ensures !InCode(f, f.code[pc].target) ==> LeavesByTail(program, f, R, pc)
  {
    var e := Examine(program, f, pc, R[pc]).value;
    assert forall i :: 0 <= i < |e.successors| ==> e.successors[i] in e.successors;
    assert InCode(f, f.code[pc].target) ==> e.successors[0] == Point(f.code[pc].target.local.value, R[pc]);
  }

  lemma JumpSafe(x: Certificate, c: Cpu, n: Machine)
    requires Ready(x, c) && x.program[c.fn].code[c.pc].Jump? && Step(x.program, c, n)
    ensures n.Running? && Safe(x, n.cpu)
  {
    var f, R := x.program[c.fn], x.records[c.fn];
    var t := f.code[c.pc].target;
    JumpRecorded(x.program, f, R, c.pc);
    ControlAgrees(f.code, R, c);
    if InCode(f, t) {
      LocalJumpSafe(x, c, n.cpu, t.local.value);
    } else {
      TailSafe(x, c, n.cpu, Edge(c.pc, t.callee.value, TailEdge, 0));
    }
  }

  lemma CallRecorded(program: Program, f: Function, R: map<nat, State>, pc: nat)
    requires ClosedAt(program, f, R, pc) && f.code[pc].Call?
    ensures f.code[pc].target.direct && Known(program, f.code[pc].target) && R[pc].depth >= 0
    ensures Edge(pc, f.code[pc].target.callee.value, CallEdge, R[pc].depth)
            in Examine(program, f, pc, R[pc]).value.edges
    ensures pc + 1 < |f.code| ==> pc + 1 in R && R[pc + 1] == R[pc]
  {
    var e := Examine(program, f, pc, R[pc]).value;
    assert pc + 1 < |f.code| ==> e.successors[0] in e.successors;
  }

  /** The caller is suspended with exactly the recorded state after the call. */
  lemma CallSuspends(x: Certificate, c: Cpu)
    requires Ready(x, c) && x.program[c.fn].code[c.pc].Call?
    ensures Resumes(x, Frame(c.fn, c.pc + 1, c.entry, c.regs(RBP)), c.rsp)
  {
    var f, R := x.program[c.fn], x.records[c.fn];
    CallRecorded(x.program, f, R, c.pc);
    ControlAgrees(f.code, R, c);
    AfterControl(f.code, c.pc);
    PeakAt(x, c.fn, c.pc);
  }

  lemma CallSafe(x: Certificate, c: Cpu, n: Machine)
    requires Ready(x, c) && x.program[c.fn].code[c.pc].Call? && Step(x.program, c, n)
    ensures n.Running? && Safe(x, n.cpu)
  {
    var f, R := x.program[c.fn], x.records[c.fn];
    CallRecorded(x.program, f, R, c.pc);
    ControlAgrees(f.code, R, c);
    var d := n.cpu;
    EdgeSettled(x, c.fn, c.pc, Edge(c.pc, d.fn, CallEdge, R[c.pc].depth));
    Entered(x, d);
    CallSuspends(x, c);
    FramesAfterCall(x, c, d, Frame(c.fn, c.pc + 1, c.entry, c.regs(RBP)));
  }

  lemma FramesAfterCall(x: Certificate, c: Cpu, d: Cpu, frame: Frame)
    requires Safe(x, c) && d.frames == c.frames + [frame] && frame.entry == c.entry && d.entry == c.rsp - 8
             && Resumes(x, frame, c.rsp)
    ensures forall i {:trigger ResumesAt(x, d, i)} :: 0 <= i < |d.frames| ==> ResumesAt(x, d, i)
  {
    forall i | 0 <= i < |d.frames| ensures ResumesAt(x, d, i) {
      if i < |c.frames| {
        assert ResumesAt(x, c, i);
        assert Top(d, i) == Top(c, i);
      }
    }
  }

  lemma ReturnSafe(x: Certificate, c: Cpu, n: Machine)
    requires Ready(x, c) && x.program[c.fn].code[c.pc].Return? && Step(x.program, c, n)
    ensures n.Running? && Safe(x, n.cpu)
  {
    var f, R := x.program[c.fn], x.records[c.fn];
    ControlAgrees(f.code, R, c);
    assert c.rsp == c.entry;
    var d, last := n.cpu, |c.frames| - 1;
    assert ResumesAt(x, c, last);
    Resumed(x, c.frames[last], d);
    FramesAfterReturn(x, c, d, last);
  }

  lemma FramesAfterReturn(x: Certificate, c: Cpu, d: Cpu, last: nat)
    requires Safe(x, c) && |c.frames| == last + 1 && d.frames == c.frames[..last] && d.entry == c.frames[last].entry
    ensures forall i {:trigger ResumesAt(x, d, i)} :: 0 <= i < |d.frames| ==> ResumesAt(x, d, i)
  {
    forall i | 0 <= i < |d.frames| ensures ResumesAt(x, d, i) {
      assert ResumesAt(x, c, i);
      assert Top(d, i) == Top(c, i);
    }
  }

  lemma Resumed(x: Certificate, frame: Frame, d: Cpu)
    requires Resumes(x, frame, d.rsp) && d.fn == frame.fn && d.pc == frame.pc && d.entry == frame.entry
    ensures At(x, d)
  {
  }

  /** Every step of a proved program leads to a safe state; only past the end of a function does it lead out of the
      program. */
  lemma StepSafe(x: Certificate, c: Cpu, n: Machine)
    requires Certified(x) && Safe(x, c) && Step(x.program, c, n)
    requires c.pc < |x.program[c.fn].code| ==> RightWhereNeeded(x, c)
    ensures n.Running? ==> Safe(x, n.cpu)
    ensures n.Wild? <==> c.pc == |x.program[c.fn].code|
  {
    if c.pc < |x.program[c.fn].code| {
      InstructionSafe(x, c, n);
    }
  }

  lemma InstructionSafe(x: Certificate, c: Cpu, n: Machine)
    requires Certified(x) && Safe(x, c) && Step(x.program, c, n) && c.pc < |x.program[c.fn].code|
             && RightWhereNeeded(x, c)
    ensures n.Running? && Safe(x, n.cpu)
  {
    GetReady(x, c);
    var op := x.program[c.fn].code[c.pc];
    if op.Call? {
      CallSafe(x, c, n);
    } else if op.Jump? {
      JumpSafe(x, c, n);
    } else if op.Branch? {
      BranchSafe(x, c, n);
    } else if op.Return? {
      ReturnSafe(x, c, n);
    } else {
      StraightSafe(x, c, n);
    }
  }

  /** The machine left the program at `i`: it ran past the last instruction of a function. */
  ghost predicate FellOff(program: Program, run: seq<Machine>, i: nat)
    requires i < |run|
  {
    && i > 0 && run[i - 1].Running? && run[i - 1].cpu.fn in program
    && run[i - 1].cpu.pc == |program[run[i - 1].cpu.fn].code|
  }

  /** What the proved bound means at one state of a run. */
  ghost predicate WithinBound(program: Program, base: int, maximum: int, c: Cpu) {
    && c.fn in program
    && base - c.rsp <= maximum
    && (c.pc < |program[c.fn].code| ==>
         var op := program[c.fn].code[c.pc];
         && !op.Unmodelled?
         && (op.Return? ==> !op.operand && c.rsp == c.entry)
         && (op.Call? ==> base - (c.rsp - 8) <= maximum)
         && OperandsWithin(program, base, maximum, c, op))
  }

  /** Operands on the stack pointer, and those on a frame pointer that the analysis knows, lie within the bound. */
  ghost predicate OperandsWithin(program: Program, base: int, maximum: int, c: Cpu, op: Op)
    requires c.fn in program
  {
    && (forall a :: a in Accesses(op) && a.base.OnStackPointer? ==> base - Address(a, c) <= maximum)
    && forall a, s :: a in Accesses(op) && Reached(program, program[c.fn], Point(c.pc, s)) && Reach(a, s).Some?
         ==> base - Address(a, c) <= maximum
  }

  /** An operand on a frame pointer that the analysis knows at this instruction. */
  ghost predicate RbpOperand(program: Program, a: nat, pc: nat)
    requires a in program && pc < |program[a].code|
  {
    exists operand, s :: operand in Accesses(program[a].code[pc]) && operand.base.OnFramePointer?
                         && Reached(program, program[a], Point(pc, s)) && s.rbp.Some?
  }

  lemma SafeIsBounded(x: Certificate, c: Cpu)
    requires Certified(x) && Safe(x, c)
    requires c.pc < |x.program[c.fn].code| && RbpOperand(x.program, c.fn, c.pc) ==> RbpRight(x, c)
    ensures WithinBound(x.program, x.base, x.totals[x.root].maximum, c)
  {
    if c.pc >= |x.program[c.fn].code| {
      assert SettledAt(x.graph, x.totals, x.rank, c.fn);
    } else {
      GetReady(x, c);
      OperandsBounded(x, c);
      ReturnOrCallBounded(x, c);
      ModelledAt(x, c);
    }
  }

  lemma ModelledAt(x: Certificate, c: Cpu)
    requires Ready(x, c)
    ensures !x.program[c.fn].code[c.pc].Unmodelled?
  {
    if !IsControl(x.program[c.fn].code[c.pc]) {
      StraightRecorded(x.program, x.program[c.fn], x.records[c.fn], c.pc);
    }
  }

  lemma OperandsBounded(x: Certificate, c: Cpu)
    requires Ready(x, c) && (RbpOperand(x.program, c.fn, c.pc) ==> RbpRight(x, c))
    ensures x.base - c.rsp <= x.totals[x.root].maximum
    ensures OperandsWithin(x.program, x.base, x.totals[x.root].maximum, c, x.program[c.fn].code[c.pc])
  {
    BoundedAt(x, c);
    assert RecordedAt(x, c.fn);
    ConsistentIsExact(x.program, x.program[c.fn], x.records[c.fn]);
  }

  lemma ReturnOrCallBounded(x: Certificate, c: Cpu)
    requires Ready(x, c)
    ensures x.program[c.fn].code[c.pc].Return? ==> !x.program[c.fn].code[c.pc].operand && c.rsp == c.entry
    ensures x.program[c.fn].code[c.pc].Call? ==> x.base - (c.rsp - 8) <= x.totals[x.root].maximum
  {
    var f, R := x.program[c.fn], x.records[c.fn];
    var op := f.code[c.pc];
    if op.Return? || op.Call? {
      ControlAgrees(f.code, R, c);
    }
    if op.Call? {
      CallRecorded(x.program, f, R, c.pc);
      var e := Edge(c.pc, op.target.callee.value, CallEdge, R[c.pc].depth);
      EdgeSettled(x, c.fn, c.pc, e);
      PeakNotNegative(x, e.target);
    }
  }

  ghost function Record(program: Program, graph: Graph, a: nat): (R: map<nat, State>)
    requires DescribedAt(program, graph, a)
    ensures Analysed(program, program[a], R, graph[a])
  {
    var R :| Analysed(program, program[a], R, graph[a]);
    R
  }

  ghost predicate Carries(program: Program, graph: Graph, records: map<nat, map<nat, State>>, a: nat) {
    a in graph && a in program && a in records && Analysed(program, program[a], records[a], graph[a])
  }

  lemma RecordsExist(program: Program, graph: Graph) returns (records: map<nat, map<nat, State>>)
    requires Describes(program, graph)
    ensures forall a {:trigger Carries(program, graph, records, a)} ::
              a in graph ==> Carries(program, graph, records, a)
  {
    forall a | a in graph ensures DescribedAt(program, graph, a) {
    }
    records := map a | a in graph :: Record(program, graph, a);
  }

  lemma CertificateExists(program: Program, root: nat, base: int, graph: Graph, totals: map<nat, Total>,
                          rank: map<nat, nat>)
    returns (x: Certificate)
    requires Established(program, root, graph, totals, rank) && Admissible(program, root, base)
    ensures Certified(x) && x.program == program && x.root == root && x.base == base && x.totals == totals
            && root in totals
  {
    var records := RecordsExist(program, graph);
    x := Certificate(program, root, base, graph, totals, rank, records);
    forall a | a in totals ensures RecordedAt(x, a) {
      assert SettledAt(graph, totals, rank, a);
      assert Carries(program, graph, records, a);
    }
  }
}
