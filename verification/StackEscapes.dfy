/** Control flow that is read off the code is run by the machine, so the conditions for keeping within the bound
    are exact. */
module StackEscapes {
  import opened Outcome
  import opened StackCode
  import opened StackLocal
  import opened StackProve
  import opened StackMachine
  import opened StackEnds
  import opened StackBounds

  // ---- Reached states --------------------------------------------------------------------

  ghost predicate RunTo(x: Certificate, m: Machine) {
    exists run :: Run(x.program, x.root, x.base, run) && run[|run| - 1] == m
  }

  /** A run gets here, and the stack pointer is where the analysis has it; the frame pointer may be spoiled. */
  ghost predicate Reaches(x: Certificate, c: Cpu) { RunTo(x, Running(c)) && Safe(x, c) }

  lemma RunToNext(x: Certificate, c: Cpu, n: Machine)
    requires RunTo(x, Running(c)) && Step(x.program, c, n)
    ensures RunTo(x, n)
  {
    var run :| Run(x.program, x.root, x.base, run) && run[|run| - 1] == Running(c);
    RunExtends(x, run, c, n);
  }

  lemma ReachesNext(x: Certificate, c: Cpu, d: Cpu)
    requires Certified(x) && Reaches(x, c) && Step(x.program, c, Running(d))
    requires c.pc < |x.program[c.fn].code| ==> RightWhereNeeded(x, c)
    ensures Reaches(x, d)
  {
    RunToNext(x, c, Running(d));
    StepSafe(x, c, Running(d));
  }

  lemma RunExtends(x: Certificate, run: seq<Machine>, c: Cpu, n: Machine)
    requires Run(x.program, x.root, x.base, run) && run[|run| - 1] == Running(c) && Step(x.program, c, n)
    ensures Run(x.program, x.root, x.base, run + [n]) && (run + [n])[|run|] == n
  {
    var longer := run + [n];
    forall i | 0 < i < |longer| ensures StepsAt(x.program, longer, i) {
      assert i < |run| ==> StepsAt(x.program, run, i);
    }
  }

  lemma ReachedIsSafe(x: Certificate, c: Cpu)
    requires Certified(x) && Reaches(x, c)
    ensures Safe(x, c)
    ensures c.pc < |x.program[c.fn].code| ==> Ready(x, c)
  {
    if c.pc < |x.program[c.fn].code| {
      GetReady(x, c);
    }
  }

  /** The stack pointer is compared only inside probe loops, so the flag before any other branch is open. */
  ghost predicate ComparesInProbes(program: Program) {
    forall a, pc: nat ::
        a in program && pc < |program[a].code| && program[a].code[pc].CompareRsp? ==> ClosesNext(program[a], pc)
  }

  predicate ClosesNext(f: Function, pc: nat) { ProbeTotal(f.code, pc + 1).Some? }

  /** A reached state of an activation at `pc`; before an open branch it has the wanted flag. */
  ghost predicate Attained(x: Certificate, frames: seq<Frame>, entry: int, a: nat, pc: nat, flag: bool, c: Cpu) {
    && Reaches(x, c) && c.frames == frames && c.entry == entry && c.fn == a && c.pc == pc && a in x.program
    && (FreeBranch(x.program[a], pc) ==> c.equal == flag)
  }

  ghost predicate CanEnter(x: Certificate, frames: seq<Frame>, entry: int, a: nat, flag: bool) {
    exists c :: Attained(x, frames, entry, a, 0, flag, c)
  }

  /** The function is entered on these frames, with either flag. */
  ghost predicate Enterable(x: Certificate, frames: seq<Frame>, entry: int, a: nat) {
    CanEnter(x, frames, entry, a, true) && CanEnter(x, frames, entry, a, false)
  }

  // ---- Single steps ----------------------------------------------------------------------

  function Updated(regs: nat -> int, r: nat, v: int): nat -> int { (q: nat) => if q == r then v else regs(q) }

  /** What a straight-line instruction leads to, keeping everything it leaves open. */
  function Executed(op: Op, c: Cpu, flag: bool): Cpu {
    var d := c.(pc := c.pc + 1, equal := flag);
    match op
    case Push(_, _) => d.(rsp := c.rsp - 8)
    case Pop(_) => d.(rsp := c.rsp + 8)
    case Leave => d.(rsp := c.regs(RBP) + 8)
    case SubRsp(n) => d.(rsp := c.rsp - n)
    case AddRsp(n) => d.(rsp := c.rsp + n)
    case LeaRsp(n) => d.(rsp := c.rsp + n)
    case RspFromRbp => d.(rsp := c.regs(RBP))
    case AlignRsp => d.(rsp := c.rsp - c.rsp % 16)
    case CopyRsp(r) => d.(regs := Updated(c.regs, r, c.rsp))
    case SubRegister(n, r) => d.(regs := Updated(c.regs, r, c.regs(r) - n))
    case CompareRsp(r) => d.(equal := c.regs(r) == c.rsp)
    case _ => d
  }

  lemma StraightSteps(x: Certificate, c: Cpu, flag: bool)
    requires Certified(x) && Reaches(x, c) && c.fn in x.program && c.pc < |x.program[c.fn].code|
             && !IsControl(x.program[c.fn].code[c.pc])
    requires RightWhereNeeded(x, c)
    ensures Reaches(x, Executed(x.program[c.fn].code[c.pc], c, flag))
  {
    var op, d := x.program[c.fn].code[c.pc], Executed(x.program[c.fn].code[c.pc], c, flag);
    ReachedIsSafe(x, c);
    StraightRecorded(x.program, x.program[c.fn], x.records[c.fn], c.pc);
    ExecutedExecutes(op, c, flag);
    ReachesNext(x, c, d);
  }

  lemma ExecutedExecutes(op: Op, c: Cpu, flag: bool)
    requires !IsControl(op) && !op.Unmodelled?
    ensures Executes(op, c, Executed(op, c, flag))
  {
  }

  /** A jump, or a branch taken or not, inside the function. */
  lemma LocalSteps(x: Certificate, c: Cpu, to: nat, flag: bool)
    requires Certified(x) && Reaches(x, c) && c.fn in x.program && Goes(x.program[c.fn], c.pc, to)
    requires x.program[c.fn].code[c.pc].Jump? || FreeBranch(x.program[c.fn], c.pc)
    requires FreeBranch(x.program[c.fn], c.pc) ==> c.equal == (to == c.pc + 1)
    ensures Reaches(x, c.(pc := to, equal := flag))
  {
    var f, d := x.program[c.fn], c.(pc := to, equal := flag);
    ReachedIsSafe(x, c);
    if f.code[c.pc].Jump? {
      JumpRecorded(x.program, f, x.records[c.fn], c.pc);
    } else {
      BranchRecorded(x.program, f, x.records[c.fn], c.pc);
    }
    ReachesNext(x, c, d);
  }

  function Leaving(c: Cpu, callee: nat, flag: bool): Cpu { c.(fn := callee, pc := 0, equal := flag) }

  lemma TailSteps(x: Certificate, c: Cpu, flag: bool)
    requires Certified(x) && Reaches(x, c) && c.fn in x.program && TailSite(x.program, x.program[c.fn], c.pc)
    requires FreeBranch(x.program[c.fn], c.pc) ==> !c.equal
    ensures Reaches(x, Leaving(c, CalleeAt(x.program, x.program[c.fn], c.pc), flag))
  {
    var f := x.program[c.fn];
    ReachedIsSafe(x, c);
    if f.code[c.pc].Jump? {
      JumpRecorded(x.program, f, x.records[c.fn], c.pc);
    } else {
      assert ProbeTotal(f.code, c.pc).None?;
      BranchRecorded(x.program, f, x.records[c.fn], c.pc);
    }
    ReachesNext(x, c, Leaving(c, CalleeAt(x.program, f, c.pc), flag));
  }

  function Suspended(c: Cpu): Frame { Frame(c.fn, c.pc + 1, c.entry, c.regs(RBP)) }

  function Calling(c: Cpu, callee: nat, flag: bool): Cpu {
    c.(frames := c.frames + [Suspended(c)], fn := callee, pc := 0, entry := c.rsp - 8, rsp := c.rsp - 8, equal := flag)
  }

  lemma CallSteps(x: Certificate, c: Cpu, flag: bool)
    requires Certified(x) && Reaches(x, c) && c.fn in x.program && CallSite(x.program, x.program[c.fn], c.pc)
    ensures Reaches(x, Calling(c, CalleeAt(x.program, x.program[c.fn], c.pc), flag))
  {
    ReachedIsSafe(x, c);
    CallRecorded(x.program, x.program[c.fn], x.records[c.fn], c.pc);
    ReachesNext(x, c, Calling(c, CalleeAt(x.program, x.program[c.fn], c.pc), flag));
  }

  function Returned(c: Cpu, flag: bool): Cpu
    requires c.frames != []
  {
    var last := |c.frames| - 1; var frame := c.frames[last];
    Cpu(c.frames[..last], frame.fn, frame.pc, frame.entry, c.entry + 8, Updated(c.regs, RBP, frame.rbp), flag)
  }

  lemma ReturnSteps(x: Certificate, c: Cpu, flag: bool)
    requires Certified(x) && Reaches(x, c) && c.fn in x.program && ReturnSite(x.program[c.fn], c.pc) && c.frames != []
    ensures Reaches(x, Returned(c, flag))
  {
    ReachedIsSafe(x, c);
    ReturnOrCallBounded(x, c);
    ReachesNext(x, c, Returned(c, flag));
  }

  // ---- Probe loops -----------------------------------------------------------------------

  /** The place of an instruction in one turn of a probe loop, counted down. */
  function Turn(k: nat, pc: nat): nat { if pc <= k + 2 then 3 else if pc <= k + 5 then k + 9 - pc else 0 }

  /** How far the stack pointer is above the loop's limit. */
  function Room(code: seq<Op>, k: nat, c: Cpu): int
    requires k < |code| && code[k].CopyRsp?
  {
    c.rsp - c.regs(code[k].register)
  }

  /** A running loop has not passed its limit. */
  lemma RoomLeft(x: Certificate, c: Cpu, k: nat, total: int)
    requires Certified(x) && Reaches(x, c) && c.fn in x.program && InProbe(x.program[c.fn].code, k, total, c.pc)
             && k + 1 < c.pc
    ensures 0 <= Room(x.program[c.fn].code, k, c)
  {
    ReachedIsSafe(x, c);
    assert Probing(x.program[c.fn].code, x.records[c.fn], k, total, c);
  }

  lemma RoomAfter(code: seq<Op>, c: Cpu, k: nat, total: int, flag: bool)
    requires InProbe(code, k, total, c.pc) && k + 1 < c.pc < k + 5
    ensures var e := Executed(code[c.pc], c, flag);
            Moves(c, e, c.pc + 1) && e.regs == c.regs
              && Room(code, k, e) == Room(code, k, c) - (if c.pc == k + 2 then PROBE else 0)
  {
    assert c.pc == k + 2 || c.pc == k + 3 || c.pc == k + 4;
  }

  lemma ProbeStep(x: Certificate, c: Cpu, k: nat, total: int, flag: bool)
    requires Certified(x) && Reaches(x, c) && c.fn in x.program && InProbe(x.program[c.fn].code, k, total, c.pc)
             && k + 1 < c.pc < k + 5
    ensures var code := x.program[c.fn].code; var e := Executed(code[c.pc], c, flag);
            && Reaches(x, e) && Moves(c, e, c.pc + 1) && e.regs == c.regs
            && Room(code, k, e) == Room(code, k, c) - (if c.pc == k + 2 then PROBE else 0)
  {
    RoomAfter(x.program[c.fn].code, c, k, total, flag);
    StraightInProbe(x.program[c.fn].code, c.pc, k, total);
    StraightSteps(x, c, flag);
  }

  lemma StraightInProbe(code: seq<Op>, pc: nat, k: nat, total: int)
    requires InProbe(code, k, total, pc) && k + 1 < pc < k + 5
    ensures !IsControl(code[pc]) && !NeedsRbp(code[pc])
  {
    assert pc == k + 2 || pc == k + 3 || pc == k + 4;
  }

  /** The loop's branch goes round or leaves, as the flag says. */
  lemma ProbeBranches(x: Certificate, c: Cpu, k: nat, total: int, flag: bool)
    requires Certified(x) && Reaches(x, c) && c.fn in x.program && ProbeAt(x.program[c.fn].code, k, total)
             && c.pc == k + 5
    ensures Reaches(x, c.(pc := if c.equal then k + 6 else k + 2, equal := flag))
  {
    ReachesNext(x, c, c.(pc := if c.equal then k + 6 else k + 2, equal := flag));
  }

  /** A running probe loop comes to its end. */
  lemma {:induction false} ProbeSteps(x: Certificate, c: Cpu, k: nat, total: int, flag: bool) returns (d: Cpu)
    requires Certified(x) && Reaches(x, c) && c.fn in x.program && InProbe(x.program[c.fn].code, k, total, c.pc)
             && c.pc > k + 1
    ensures Reaches(x, d) && Moves(c, d, k + 6) && d.equal == flag && d.regs == c.regs
    decreases Room(x.program[c.fn].code, k, c), Turn(k, c.pc)
  {
    var code := x.program[c.fn].code;
    RoomLeft(x, c, k, total);
    if c.pc < k + 5 {
      ProbeStep(x, c, k, total, flag);
      d := ProbeSteps(x, Executed(code[c.pc], c, flag), k, total, flag);
    } else {
      ProbeBranches(x, c, k, total, flag);
      d := c.(pc := if c.equal then k + 6 else k + 2, equal := flag);
      if !c.equal {
        d := ProbeSteps(x, d, k, total, flag);
      }
    }
  }

  // ---- Control flow is run ---------------------------------------------------------------

  lemma EnterWith(x: Certificate, frames: seq<Frame>, entry: int, a: nat, flag: bool) returns (c: Cpu)
    requires Enterable(x, frames, entry, a)
    ensures Attained(x, frames, entry, a, 0, flag, c)
  {
    assert CanEnter(x, frames, entry, a, flag);
    c :| Attained(x, frames, entry, a, 0, flag, c);
  }

  /** What a step that keeps the frame pointer, or is rightly recorded, does to it. */
  ghost predicate Carries(x: Certificate, c: Cpu, d: Cpu)
    requires c.fn in x.program && c.fn in x.records && c.pc < |x.program[c.fn].code| && d.fn in x.records
  {
    && (KeepsRbp(x.program[c.fn].code[c.pc]) ==> d.regs(RBP) == c.regs(RBP))
    && (RbpRight(x, c) ==> RbpRight(x, d))
  }

  /** From one reached instruction to the next, when no call lies between. */
  lemma GoOn(x: Certificate, c: Cpu, to: nat, flag: bool) returns (d: Cpu)
    requires Certified(x) && ComparesInProbes(x.program) && Reaches(x, c) && c.fn in x.program
    requires Goes(x.program[c.fn], c.pc, to) && !x.program[c.fn].code[c.pc].Call?
    requires FreeBranch(x.program[c.fn], c.pc) ==> c.equal == (to == c.pc + 1)
    requires RightWhereNeeded(x, c)
    ensures Attained(x, c.frames, c.entry, c.fn, to, flag, d) && Carries(x, c, d)
  {
    var f := x.program[c.fn];
    var op := f.code[c.pc];
    if op.Jump? || FreeBranch(f, c.pc) {
      LocalSteps(x, c, to, flag);
      d := c.(pc := to, equal := flag);
      LocalCarries(x, c, d);
    } else if op.Branch? {
      d := GoThroughProbe(x, c, flag);
    } else {
      d := GoStraight(x, c, flag);
    }
  }

  lemma GoThroughProbe(x: Certificate, c: Cpu, flag: bool) returns (d: Cpu)
    requires Certified(x) && Reaches(x, c) && c.fn in x.program && ProbeTotal(x.program[c.fn].code, c.pc).Some?
    ensures Attained(x, c.frames, c.entry, c.fn, c.pc + 1, flag, d) && Carries(x, c, d)
  {
    var code := x.program[c.fn].code;
    var total := ProbeTotal(code, c.pc).value;
    assert InProbe(code, c.pc - 5, total, c.pc);
    d := ProbeSteps(x, c, c.pc - 5, total, flag);
    ReachedIsSafe(x, c);
    ProbeRecorded(x.program, x.program[c.fn], x.records[c.fn], c.pc - 5, total);
  }

  /** A jump or a branch goes where the recorded state is the same. */
  lemma LocalCarries(x: Certificate, c: Cpu, d: Cpu)
    requires Certified(x) && Reaches(x, c) && c.fn in x.program && Goes(x.program[c.fn], c.pc, d.pc)
    requires x.program[c.fn].code[c.pc].Jump? || FreeBranch(x.program[c.fn], c.pc)
    requires d.fn == c.fn && d.entry == c.entry && d.regs == c.regs
    ensures Carries(x, c, d)
  {
    ReachedIsSafe(x, c);
    RecordsInCode(x, c.fn);
    if d.pc in x.records[c.fn] {
      LocalRecorded(x.program, x.program[c.fn], x.records[c.fn], c.pc, d.pc);
    }
  }

  lemma LocalRecorded(program: Program, f: Function, R: map<nat, State>, pc: nat, to: nat)
    requires ClosedAt(program, f, R, pc) && Goes(f, pc, to) && (f.code[pc].Jump? || FreeBranch(f, pc))
    requires to in R && to < |f.code|
    ensures R[to] == R[pc]
  {
    if f.code[pc].Jump? {
      JumpRecorded(program, f, R, pc);
    } else {
      BranchRecorded(program, f, R, pc);
    }
  }

  lemma GoStraight(x: Certificate, c: Cpu, flag: bool) returns (d: Cpu)
    requires Certified(x) && ComparesInProbes(x.program) && Reaches(x, c) && c.fn in x.program
    requires c.pc < |x.program[c.fn].code| && !IsControl(x.program[c.fn].code[c.pc]) && RightWhereNeeded(x, c)
    ensures Attained(x, c.frames, c.entry, c.fn, c.pc + 1, flag, d) && Carries(x, c, d)
  {
    var f := x.program[c.fn];
    StraightSteps(x, c, flag);
    d := Executed(f.code[c.pc], c, flag);
    assert f.code[c.pc].CompareRsp? ==> ClosesNext(f, c.pc);
    ExecutedFlag(f.code[c.pc], c, flag);
    StraightCarries(x, c, flag);
  }

  lemma StraightCarries(x: Certificate, c: Cpu, flag: bool)
    requires Certified(x) && Reaches(x, c) && c.fn in x.program
    requires c.pc < |x.program[c.fn].code| && !IsControl(x.program[c.fn].code[c.pc])
    ensures Executed(x.program[c.fn].code[c.pc], c, flag).fn == c.fn
            && Carries(x, c, Executed(x.program[c.fn].code[c.pc], c, flag))
  {
    var op, d := x.program[c.fn].code[c.pc], Executed(x.program[c.fn].code[c.pc], c, flag);
    ExecutedKeeps(op, c, flag);
    if RbpRight(x, c) {
      StraightRight(x, c, d, flag);
    }
  }

  lemma ExecutedKeeps(op: Op, c: Cpu, flag: bool)
    requires !IsControl(op)
    ensures var d := Executed(op, c, flag);
            d.fn == c.fn && d.entry == c.entry && d.pc == c.pc + 1
            && (KeepsRbp(op) || op.SpoilRbp? ==> d.regs(RBP) == c.regs(RBP))
  {
  }

  lemma StraightRight(x: Certificate, c: Cpu, d: Cpu, flag: bool)
    requires Certified(x) && Reaches(x, c) && c.fn in x.program && c.pc < |x.program[c.fn].code|
    requires !IsControl(x.program[c.fn].code[c.pc]) && d == Executed(x.program[c.fn].code[c.pc], c, flag)
             && RbpRight(x, c)
    ensures d.fn == c.fn && RbpRight(x, d)
  {
    var f, R := x.program[c.fn], x.records[c.fn];
    ReachedIsSafe(x, c);
    StraightRecorded(x.program, f, R, c.pc);
    CopyOutside(f.code, R, c);
    ExecutedExecutes(f.code[c.pc], c, flag);
    ExecutedKeeps(f.code[c.pc], c, flag);
    RbpSound(f, f.code[c.pc], R[c.pc], c, d);
  }

  lemma ExecutedFlag(op: Op, c: Cpu, flag: bool)
    ensures var d := Executed(op, c, flag);
            d.frames == c.frames && d.entry == c.entry && d.fn == c.fn && d.pc == c.pc + 1
              && (!op.CompareRsp? ==> d.equal == flag)
  {
  }

  /** Entering the callee of a reached call or tail jump. */
  lemma EnterCallee(x: Certificate, c: Cpu)
    requires Certified(x) && Reaches(x, c) && c.fn in x.program && CallSite(x.program, x.program[c.fn], c.pc)
    ensures Enterable(x, c.frames + [Suspended(c)], c.rsp - 8, CalleeAt(x.program, x.program[c.fn], c.pc))
  {
    var b := CalleeAt(x.program, x.program[c.fn], c.pc);
    CallSteps(x, c, true);
    CallSteps(x, c, false);
    assert Attained(x, c.frames + [Suspended(c)], c.rsp - 8, b, 0, true, Calling(c, b, true));
    assert Attained(x, c.frames + [Suspended(c)], c.rsp - 8, b, 0, false, Calling(c, b, false));
  }

  lemma EnterTail(x: Certificate, c: Cpu)
    requires Certified(x) && Reaches(x, c) && c.fn in x.program && TailSite(x.program, x.program[c.fn], c.pc)
    requires FreeBranch(x.program[c.fn], c.pc) ==> !c.equal
    ensures Enterable(x, c.frames, c.entry, CalleeAt(x.program, x.program[c.fn], c.pc))
  {
    var b := CalleeAt(x.program, x.program[c.fn], c.pc);
    TailSteps(x, c, true);
    TailSteps(x, c, false);
    assert Attained(x, c.frames, c.entry, b, 0, true, Leaving(c, b, true));
    assert Attained(x, c.frames, c.entry, b, 0, false, Leaving(c, b, false));
  }

  /** Control that gets to `pc` by the code gets there in a run, within the same activation. */
  lemma {:induction false} FlowIsRun(x: Certificate, frames: seq<Frame>, entry: int, a: nat, pc: nat, n: nat,
                                     flag: bool) returns (d: Cpu)
    requires Certified(x) && ComparesInProbes(x.program) && Enterable(x, frames, entry, a)
             && FlowsIn(x.program, a, pc, n)
    ensures Attained(x, frames, entry, a, pc, flag, d) && RbpRight(x, d)
    decreases n
  {
    if pc == 0 {
      d := EnterWith(x, frames, entry, a, flag);
      EntryRight(x, d);
    } else {
      var q: nat :| && Goes(x.program[a], q, pc) && FlowsIn(x.program, a, q, n - 1)
                    && (CallSite(x.program, x.program[a], q) ==>
                        ComesBackIn(x.program, CalleeAt(x.program, x.program[a], q), n - 1));
      var c := FlowIsRun(x, frames, entry, a, q, n - 1, pc == q + 1);
      if x.program[a].code[q].Call? {
        CallIsKnown(x, c);
        EnterCallee(x, c);
        d := ComeBackIsRun(x, c.frames, Suspended(c), c.rsp - 8, CalleeAt(x.program, x.program[a], q), n - 1, flag);
        CallCarries(x, c, d);
      } else {
        d := GoOn(x, c, pc, flag);
      }
    }
  }

  /** After a call the recorded state is the one before it. */
  lemma CallCarries(x: Certificate, c: Cpu, d: Cpu)
    requires Certified(x) && Reaches(x, c) && c.fn in x.program && CallSite(x.program, x.program[c.fn], c.pc)
    requires d.fn == c.fn && d.pc == c.pc + 1 && d.entry == c.entry && d.regs(RBP) == c.regs(RBP)
    ensures Carries(x, c, d)
  {
    ReachedIsSafe(x, c);
    RecordsInCode(x, c.fn);
    CallRecorded(x.program, x.program[c.fn], x.records[c.fn], c.pc);
  }

  lemma CallIsKnown(x: Certificate, c: Cpu)
    requires Certified(x) && Reaches(x, c) && c.fn in x.program && c.pc < |x.program[c.fn].code|
             && x.program[c.fn].code[c.pc].Call?
    ensures CallSite(x.program, x.program[c.fn], c.pc)
  {
    ReachedIsSafe(x, c);
    CallRecorded(x.program, x.program[c.fn], x.records[c.fn], c.pc);
  }

  /** A function that comes back by the code comes back to its caller in a run. */
  lemma {:induction false} ComeBackIsRun(x: Certificate, frames: seq<Frame>, frame: Frame, entry: int, a: nat, n: nat,
                                         flag: bool) returns (d: Cpu)
    requires Certified(x) && ComparesInProbes(x.program) && Enterable(x, frames + [frame], entry, a)
             && ComesBackIn(x.program, a, n)
    requires frame.fn in x.program
    ensures Attained(x, frames, frame.entry, frame.fn, frame.pc, flag, d) && d.regs(RBP) == frame.rbp
    decreases n
  {
    var q := WayBack(x.program, a, n);
    var c := FlowIsRun(x, frames + [frame], entry, a, q, n - 1, false);
    if ReturnSite(x.program[a], q) {
      ReturnSteps(x, c, flag);
      d := Returned(c, flag);
      assert c.frames[..|frames|] == frames;
    } else {
      EnterTail(x, c);
      d := ComeBackIsRun(x, frames, frame, entry, CalleeAt(x.program, x.program[a], q), n - 1, flag);
    }
  }

  lemma StartState(x: Certificate, flag: bool) returns (c: Cpu)
    requires Certified(x) && x.root in x.program
    ensures Attained(x, [], x.base, x.root, 0, flag, c)
  {
    c := Cpu([], x.root, 0, x.base, x.base, (r: nat) => 0, flag);
    assert Run(x.program, x.root, x.base, [Running(c)]);
    StartSafe(x, c);
  }

  /** Every function that control enters by the code is entered in a run. */
  lemma {:induction false} LiveIsEntered(x: Certificate, a: nat, n: nat) returns (frames: seq<Frame>, entry: int)
    requires Certified(x) && ComparesInProbes(x.program) && LiveIn(x.program, x.root, a, n)
    ensures Enterable(x, frames, entry, a)
    decreases n
  {
    if a == x.root {
      var c := StartState(x, true);
      var d := StartState(x, false);
      frames, entry := [], x.base;
      assert CanEnter(x, [], x.base, x.root, true) && CanEnter(x, [], x.base, x.root, false);
    } else {
      var b: nat, q: nat :| LiveIn(x.program, x.root, b, n - 1) && Hands(x.program, b, q, a);
      frames, entry := LiveIsEntered(x, b, n - 1);
      var m: nat :| FlowsIn(x.program, b, q, m);
      var c := FlowIsRun(x, frames, entry, b, q, m, false);
      if CallSite(x.program, x.program[b], q) {
        EnterCallee(x, c);
        frames, entry := c.frames + [Suspended(c)], c.rsp - 8;
      } else {
        EnterTail(x, c);
      }
    }
  }

  // ---- A spoiled frame pointer is carried ------------------------------------------------

  /** The run stays in the program and within the bound. */
  ghost predicate StaysBounded(program: Program, base: int, maximum: int, run: seq<Machine>) {
    forall i :: 0 <= i < |run| ==> run[i].Running? && WithinBound(program, base, maximum, run[i].cpu)
  }

  ghost predicate Violated(x: Certificate)
    requires x.root in x.totals
  {
    exists run :: Run(x.program, x.root, x.base, run) && !StaysBounded(x.program, x.base, x.totals[x.root].maximum, run)
  }

  lemma LastViolates(x: Certificate, m: Machine)
    requires x.root in x.totals && RunTo(x, m)
    requires m.Wild? || !WithinBound(x.program, x.base, x.totals[x.root].maximum, m.cpu)
    ensures Violated(x)
  {
    var run :| Run(x.program, x.root, x.base, run) && run[|run| - 1] == m;
    assert !StaysBounded(x.program, x.base, x.totals[x.root].maximum, run);
  }

  /** Loading the stack pointer from a frame pointer far down goes beyond the bound. */
  lemma LoadedTooDeep(x: Certificate, c: Cpu, v: int)
    requires Certified(x) && Reaches(x, c) && c.fn in x.program && c.pc < |x.program[c.fn].code|
             && NeedsRbp(x.program[c.fn].code[c.pc])
    requires x.root in x.totals && c.regs(RBP) == v && x.base - v > x.totals[x.root].maximum + 8
    ensures Violated(x)
  {
    var op := x.program[c.fn].code[c.pc];
    var d := Executed(op, c, false);
    ExecutedExecutes(op, c, false);
    RunToNext(x, c, Running(d));
    LastViolates(x, Running(d));
  }

  /** An overlooked write may put anything into the frame pointer. */
  lemma SpoilSteps(x: Certificate, c: Cpu, flag: bool, v: int) returns (d: Cpu)
    requires Certified(x) && ComparesInProbes(x.program) && Reaches(x, c) && c.fn in x.program
             && SpoilSite(x.program[c.fn], c.pc)
    ensures Attained(x, c.frames, c.entry, c.fn, c.pc + 1, flag, d) && d.regs(RBP) == v
  {
    d := c.(pc := c.pc + 1, equal := flag, regs := Updated(c.regs, RBP, v));
    assert Executes(x.program[c.fn].code[c.pc], c, d);
    ReachesNext(x, c, d);
  }

  /** Control that gets to `pc` after an overlooked write gets there in a run with any chosen value in the frame
      pointer, unless the stack pointer was loaded from that value on the way. */
  lemma {:induction false} StainIsRun(x: Certificate, frames: seq<Frame>, entry: int, a: nat, pc: nat, n: nat,
                                      flag: bool, v: int)
    returns (d: Option<Cpu>)
    requires Certified(x) && ComparesInProbes(x.program) && Enterable(x, frames, entry, a)
             && StainsIn(x.program, a, pc, n)
    requires x.root in x.totals && x.base - v > x.totals[x.root].maximum + 8
    ensures d.Some? ==> Attained(x, frames, entry, a, pc, flag, d.value) && d.value.regs(RBP) == v
    ensures d.None? ==> Violated(x)
    decreases n
  {
    var q := StainWay(x.program, a, pc, n);
    if SpoilSite(x.program[a], q) {
      var c := FlowIsRun(x, frames, entry, a, q, n - 1, false);
      var e := SpoilSteps(x, c, flag, v);
      d := Some(e);
    } else {
      var before := StainIsRun(x, frames, entry, a, q, n - 1, pc == q + 1, v);
      if before.None? {
        return None;
      }
      d := StainStep(x, before.value, pc, n, flag, v);
    }
  }

  lemma {:induction false} StainStep(x: Certificate, c: Cpu, pc: nat, n: nat, flag: bool, v: int)
    returns (d: Option<Cpu>)
    requires Certified(x) && ComparesInProbes(x.program) && Reaches(x, c) && c.fn in x.program && c.regs(RBP) == v
    requires Goes(x.program[c.fn], c.pc, pc) && KeepSite(x.program[c.fn], c.pc) && n > 0
    requires CallSite(x.program, x.program[c.fn], c.pc) ==>
               ComesBackIn(x.program, CalleeAt(x.program, x.program[c.fn], c.pc), n - 1)
    requires FreeBranch(x.program[c.fn], c.pc) ==> c.equal == (pc == c.pc + 1)
    requires x.root in x.totals && x.base - v > x.totals[x.root].maximum + 8
    ensures d.Some? ==> Attained(x, c.frames, c.entry, c.fn, pc, flag, d.value) && d.value.regs(RBP) == v
    ensures d.None? ==> Violated(x)
  {
    if NeedsRbp(x.program[c.fn].code[c.pc]) {
      LoadedTooDeep(x, c, v);
      d := None;
    } else if x.program[c.fn].code[c.pc].Call? {
      CallIsKnown(x, c);
      EnterCallee(x, c);
      var e := ComeBackIsRun(x, c.frames, Suspended(c), c.rsp - 8,
                             CalleeAt(x.program, x.program[c.fn], c.pc), n - 1, flag);
      d := Some(e);
    } else {
      var e := GoOn(x, c, pc, flag);
      d := Some(e);
    }
  }

  /** A value so far down that relying on it anywhere goes beyond the bound. */
  function TooDeep(x: Certificate, displacement: int): int
    requires x.root in x.totals
  {
    x.base - x.totals[x.root].maximum - 9 - (if displacement > 0 then displacement else 0)
  }

  /** An instruction that relies on a spoiled frame pointer lets a run go beyond the bound. */
  lemma LooseIsSeen(x: Certificate, a: nat, pc: nat)
    requires Certified(x) && ComparesInProbes(x.program) && Live(x.program, x.root, a) && Loose(x.program, a, pc)
    ensures x.root in x.totals && Violated(x)
  {
    assert RecordedAt(x, x.root);
    var k: nat :| LiveIn(x.program, x.root, a, k);
    var frames, entry := LiveIsEntered(x, a, k);
    var n: nat :| StainsIn(x.program, a, pc, n);
    if NeedsRbp(x.program[a].code[pc]) {
      var v := TooDeep(x, 0);
      var d := StainIsRun(x, frames, entry, a, pc, n, false, v);
      if d.Some? {
        LoadedTooDeep(x, d.value, v);
      }
    } else {
      LooseOperandIsSeen(x, frames, entry, a, pc, n);
    }
  }

  lemma LooseOperandIsSeen(x: Certificate, frames: seq<Frame>, entry: int, a: nat, pc: nat, n: nat)
    requires Certified(x) && ComparesInProbes(x.program) && Enterable(x, frames, entry, a)
             && StainsIn(x.program, a, pc, n)
    requires x.root in x.totals && pc < |x.program[a].code| && RbpOperand(x.program, a, pc)
    ensures Violated(x)
  {
    var operand, s :| operand in Accesses(x.program[a].code[pc]) && operand.base.OnFramePointer?
                      && Reached(x.program, x.program[a], Point(pc, s)) && s.rbp.Some?;
    var v := TooDeep(x, operand.displacement);
    var d := StainIsRun(x, frames, entry, a, pc, n, false, v);
    if d.Some? {
      assert Reach(operand, s).Some? && Address(operand, d.value) == v + operand.displacement;
      LastViolates(x, Running(d.value));
    }
  }

  // ---- The theorems ----------------------------------------------------------------------

  /** Soundness: no run of a proved program that is sealed and unspoiled leaves the program or has a deeper stack
      than the reported maximum. */
  lemma BoundIsSound(program: Program, root: nat, base: int, graph: Graph, totals: map<nat, Total>, rank: map<nat, nat>,
                     run: seq<Machine>)
    requires Established(program, root, graph, totals, rank) && Admissible(program, root, base)
    requires Sealed(program, root) && Unspoiled(program, root) && Run(program, root, base, run)
    ensures root in totals && StaysBounded(program, base, totals[root].maximum, run)
  {
    RunsAreBounded(program, root, base, graph, totals, rank, run);
    RootInProgram(program, root, graph, totals, rank);
    forall i | 0 <= i < |run| ensures run[i].Running? && WithinBound(program, base, totals[root].maximum, run[i].cpu) {
      assert StateOk(program, base, totals[root].maximum, run, i);
      NeverStrays(program, root, base, run);
      if run[i].Wild? {
        assert FellOff(program, run, i);
        RunAlive(program, root, base, run, i - 1);
      }
    }
  }

  lemma NeverStrays(program: Program, root: nat, base: int, run: seq<Machine>)
    requires root in program && Admissible(program, root, base) && Unspoiled(program, root)
             && Run(program, root, base, run)
    ensures forall n: nat :: n <= |run| ==> !Strayed(program, run, n)
  {
    forall i | 0 <= i < |run| ensures !LooseAt(program, run[i]) {
      RunAlive(program, root, base, run, i);
    }
  }

  lemma RootInProgram(program: Program, root: nat, graph: Graph, totals: map<nat, Total>, rank: map<nat, nat>)
    requires Established(program, root, graph, totals, rank)
    ensures root in program && root in totals
  {
    assert SettledAt(graph, totals, rank, root);
    assert DescribedAt(program, graph, root);
  }

  /** A program that is not sealed has a run that leaves it. */
  lemma OpenEndIsLeft(program: Program, root: nat, base: int, graph: Graph, totals: map<nat, Total>,
                      rank: map<nat, nat>)
    returns (run: seq<Machine>)
    requires Established(program, root, graph, totals, rank) && Admissible(program, root, base)
             && ComparesInProbes(program)
    requires !Sealed(program, root)
    ensures Run(program, root, base, run) && run[|run| - 1].Wild?
  {
    var x := CertificateExists(program, root, base, graph, totals, rank);
    var a :| Live(program, root, a) && !(a in program && !Flows(program, a, |program[a].code|));
    var n: nat :| LiveIn(program, root, a, n);
    var frames, entry := LiveIsEntered(x, a, n);
    var m: nat :| FlowsIn(program, a, |program[a].code|, m);
    var c := FlowIsRun(x, frames, entry, a, |program[a].code|, m, false);
    RunToNext(x, c, Wild);
    run :| Run(program, root, base, run) && run[|run| - 1] == Wild;
  }

  /** A program that is not unspoiled has a run beyond its bound. */
  lemma SpoiledIsSeen(program: Program, root: nat, base: int, graph: Graph, totals: map<nat, Total>,
                      rank: map<nat, nat>)
    returns (run: seq<Machine>)
    requires Established(program, root, graph, totals, rank) && Admissible(program, root, base)
             && ComparesInProbes(program)
    requires !Unspoiled(program, root)
    ensures root in totals && Run(program, root, base, run) && !StaysBounded(program, base, totals[root].maximum, run)
  {
    var x := CertificateExists(program, root, base, graph, totals, rank);
    var a, pc :| Live(program, root, a) && Loose(program, a, pc);
    LooseIsSeen(x, a, pc);
    run :| Run(program, root, base, run) && !StaysBounded(program, base, totals[root].maximum, run);
  }

  /** The exact condition: every run of a proved program stays in it and within the bound exactly when the program is
      sealed and unspoiled. */
  lemma StaysExactly(program: Program, root: nat, base: int, graph: Graph, totals: map<nat, Total>, rank: map<nat, nat>)
    requires Established(program, root, graph, totals, rank) && Admissible(program, root, base)
             && ComparesInProbes(program)
    ensures root in totals
    ensures Sealed(program, root) && Unspoiled(program, root) <==>
            forall run :: Run(program, root, base, run) ==> StaysBounded(program, base, totals[root].maximum, run)
  {
    RootInProgram(program, root, graph, totals, rank);
    if Sealed(program, root) && Unspoiled(program, root) {
      forall run | Run(program, root, base, run) ensures StaysBounded(program, base, totals[root].maximum, run) {
        BoundIsSound(program, root, base, graph, totals, rank, run);
      }
    } else if !Sealed(program, root) {
      var run := OpenEndIsLeft(program, root, base, graph, totals, rank);
      assert !StaysBounded(program, base, totals[root].maximum, run);
    } else {
      var run := SpoiledIsSeen(program, root, base, graph, totals, rank);
    }
  }

  /** Without an overlooked write nothing is spoiled. */
  lemma NoSpoilKeeps(program: Program, root: nat)
    requires forall a :: a in program ==> forall pc: nat :: !SpoilSite(program[a], pc)
    ensures Unspoiled(program, root)
  {
    forall a, pc | Live(program, root, a) ensures !Loose(program, a, pc) {
      if Stains(program, a, pc) {
        var n: nat :| StainsIn(program, a, pc, n);
        NoStain(program, a, pc, n);
      }
    }
  }

  lemma {:induction false} NoStain(program: Program, a: nat, pc: nat, n: nat)
    requires forall a :: a in program ==> forall pc: nat :: !SpoilSite(program[a], pc)
    ensures !StainsIn(program, a, pc, n)
    decreases n
  {
    if StainsIn(program, a, pc, n) {
      var q := StainWay(program, a, pc, n);
      NoStain(program, a, q, n - 1);
    }
  }

  /** Functions that end in a jump, a return or a halt seal the program. */
  lemma PlainEndsSeal(program: Program, root: nat)
    requires EndsPlainly(program)
    ensures Sealed(program, root)
  {
    forall a | Live(program, root, a) ensures a in program && !Flows(program, a, |program[a].code|) {
      var n: nat :| LiveIn(program, root, a, n);
      assert forall q: nat :: !Goes(program[a], q, |program[a].code|);
    }
  }

  /** `_prove` followed by any run. Until a run relies on a spoiled frame pointer it keeps within the reported
      maximum and the working limit as long as it is in the program. All runs do so, and stay in it, if the program
      is sealed and unspoiled, and, where only probe loops compare the stack pointer, only then. */
  method ProveSound(program: Program, root: nat) returns (r: Result<Report, ProofFailure>)
    requires root in program
    ensures r.Ok? ==> r.value.maximum <= WORKING_STACK_LIMIT
    ensures r.Ok? ==>
      forall base: int, run: seq<Machine> :: Admissible(program, root, base) && Run(program, root, base, run) ==>
        BoundedUntilLeft(program, base, r.value.maximum, run)
    ensures r.Ok? && Sealed(program, root) && Unspoiled(program, root) ==>
      forall base: int, run: seq<Machine> :: Admissible(program, root, base) && Run(program, root, base, run) ==>
        StaysBounded(program, base, r.value.maximum, run)
    ensures r.Ok? && ComparesInProbes(program) && !(Sealed(program, root) && Unspoiled(program, root)) ==>
      forall base: int :: Admissible(program, root, base) ==>
        exists run: seq<Machine> :: Run(program, root, base, run) && !StaysBounded(program, base, r.value.maximum, run)
    ensures r.Err? ==> Refuted(program, root, r.error)
    ensures r.Ok? ==> forall failure :: !Refuted(program, root, failure)
  {
    var result, graph, totals, rank := Prove(program, root);
    r := result;
    if r.Ok? {
      RunsOfProved(program, root, graph, totals, rank);
    }
  }

  lemma RunsOfProved(program: Program, root: nat, graph: Graph, totals: map<nat, Total>, rank: map<nat, nat>)
    requires Established(program, root, graph, totals, rank)
    ensures root in totals
    ensures forall base: int, run: seq<Machine> :: Admissible(program, root, base) && Run(program, root, base, run) ==>
      BoundedUntilLeft(program, base, totals[root].maximum, run)
    ensures Sealed(program, root) && Unspoiled(program, root) ==>
      forall base: int, run: seq<Machine> :: Admissible(program, root, base) && Run(program, root, base, run) ==>
        StaysBounded(program, base, totals[root].maximum, run)
    ensures ComparesInProbes(program) && !(Sealed(program, root) && Unspoiled(program, root)) ==>
      forall base: int :: Admissible(program, root, base) ==>
        exists run: seq<Machine> ::
            Run(program, root, base, run) && !StaysBounded(program, base, totals[root].maximum, run)
  {
    RootInProgram(program, root, graph, totals, rank);
    forall base: int, run: seq<Machine> | Admissible(program, root, base) && Run(program, root, base, run)
      ensures BoundedUntilLeft(program, base, totals[root].maximum, run)
      ensures Sealed(program, root) && Unspoiled(program, root) ==>
                StaysBounded(program, base, totals[root].maximum, run)
    {
      RunsAreBounded(program, root, base, graph, totals, rank, run);
      if Sealed(program, root) && Unspoiled(program, root) {
        BoundIsSound(program, root, base, graph, totals, rank, run);
      }
    }
    if ComparesInProbes(program) && !(Sealed(program, root) && Unspoiled(program, root)) {
      forall base: int | Admissible(program, root, base)
        ensures exists run: seq<Machine> ::
                  Run(program, root, base, run) && !StaysBounded(program, base, totals[root].maximum, run)
      {
        StaysExactly(program, root, base, graph, totals, rank);
      }
    }
  }

  // ---- A proved program that is left -----------------------------------------------------

  /** The entry function ends in its call, and the callee returns. */
  const OPEN_ENDED: Program :=
    map[0 := Function([Call(Target(true, None, Some(1)))], true, None), 1 := Function([Return(false)], false, None)]

  const ONLY_EDGE: Edge := Edge(0, 1, CallEdge, 0)
  const CALLER: Local := Local(0, 0, 0, [ONLY_EDGE])
  const CALLEE: Link := Link(1, BLANK, None)
  const GRAPH: Graph := map[0 := CALLER, 1 := BLANK]
  const TOTALS: map<nat, Total> :=
    map[0 := Total(8, [Link(0, CALLER, Some(ONLY_EDGE)), CALLEE]), 1 := Total(0, [CALLEE])]
  const RANK: map<nat, nat> := map[0 := 1, 1 := 0]

  /** A function of one instruction that neither moves the stack pointer nor goes on. */
  lemma SingleInstruction(program: Program, f: Function, edges: seq<Edge>)
    requires |f.code| == 1 && f.metadata.None?
             && Examine(program, f, 0, State(0, None)) == Ok(Examined([], edges, 0, 0))
    ensures Analysed(program, f, map[0 := State(0, None)], Local(0, 0, 0, edges))
  {
    var states, e := map[0 := State(0, None)], Examined([], edges, 0, 0);
    EntryReached(program, f);
    assert Observed(program, f, states, 0, e);
    assert forall edge :: edge in edges ==> EdgeFound(program, f, states, states.Keys, edge);
  }

  lemma OpenEndedDescribed()
    ensures Describes(OPEN_ENDED, GRAPH)
  {
    SingleInstruction(OPEN_ENDED, OPEN_ENDED[0], [ONLY_EDGE]);
    SingleInstruction(OPEN_ENDED, OPEN_ENDED[1], []);
    assert DescribedAt(OPEN_ENDED, GRAPH, 0) && DescribedAt(OPEN_ENDED, GRAPH, 1);
  }

  lemma OpenEndedSettled()
    ensures Settled(GRAPH, TOTALS, RANK)
  {
    assert IsWitness(GRAPH, [CALLEE], 1, 0);
    assert TOTALS[0].links[1..] == [CALLEE];
    assert SettledAt(GRAPH, TOTALS, RANK, 0) && SettledAt(GRAPH, TOTALS, RANK, 1);
  }

  lemma OpenEndedCalls(a: nat)
    ensures a in TOTALS <==> Called(GRAPH, 0, a)
  {
    if Called(GRAPH, 0, a) {
      var chain :| Connects(GRAPH, chain, 0, a);
      OpenEndedSettled();
      ChainDescends(GRAPH, TOTALS, RANK, GRAPH, chain, |chain| - 1);
    }
    assert Connects(GRAPH, [0], 0, 0);
    assert ONLY_EDGE in GRAPH[0].edges && LinkedAt(GRAPH, [0, 1], 1) && Connects(GRAPH, [0, 1], 0, 1);
  }

  /** The analyser accepts the program: a bound of eight bytes is established, and nothing refutes it. */
  lemma OpenEndedIsProved()
    ensures Established(OPEN_ENDED, 0, GRAPH, TOTALS, RANK) && TOTALS[0].maximum == 8 <= WORKING_STACK_LIMIT
    ensures forall failure :: !Refuted(OPEN_ENDED, 0, failure)
  {
    OpenEndedDescribed();
    OpenEndedSettled();
    forall a ensures a in TOTALS <==> Called(GRAPH, 0, a) {
      OpenEndedCalls(a);
    }
    forall failure ensures !Refuted(OPEN_ENDED, 0, failure) {
      EstablishedIsNotRefuted(OPEN_ENDED, 0, GRAPH, TOTALS, RANK, failure);
    }
  }

  /** The proved program is not sealed, and one of its runs leaves it. */
  lemma OpenEndedIsLeft() returns (run: seq<Machine>)
    ensures Admissible(OPEN_ENDED, 0, 0) && !Sealed(OPEN_ENDED, 0)
    ensures Run(OPEN_ENDED, 0, 0, run) && run[|run| - 1].Wild?
  {
    OpenEndedIsProved();
    RootIsLive(OPEN_ENDED, 0);
    FlowStarts(OPEN_ENDED, 0);
    FlowStarts(OPEN_ENDED, 1);
    ReturnComesBack(OPEN_ENDED, 1, 0);
    FlowGoes(OPEN_ENDED, 0, 0, 1);
    run := OpenEndIsLeft(OPEN_ENDED, 0, 0, GRAPH, TOTALS, RANK);
  }

  // ---- A proved, sealed program that is left ---------------------------------------------

  /** A frame is set up, the frame pointer is written unseen, and the frame is taken down through it. */
  const SPOILED: Program :=
    map[0 := Function([Push([], true), CopyRsp(RBP), SubRsp(16), SpoilRbp([]), Leave, Return(false)], true, None)]

  const SPOILED_STATES: map<nat, State> :=
    map[0 := State(0, None), 1 := State(8, None), 2 := State(8, Some(8)), 3 := State(24, Some(8)),
        4 := State(24, Some(8)), 5 := State(0, None)]

  const SPOILED_LOCAL: Local := Local(24, 24, 0, [])
  const SPOILED_GRAPH: Graph := map[0 := SPOILED_LOCAL]
  const SPOILED_TOTALS: map<nat, Total> := map[0 := Total(24, [Link(0, SPOILED_LOCAL, None)])]
  const SPOILED_RANK: map<nat, nat> := map[0 := 0]

  /** What the analysis finds at each instruction. */
  lemma SpoiledExamined(pc: nat)
    requires pc < 6
    ensures var s := SPOILED_STATES[pc];
            var after := if pc == 5 then 0 else SPOILED_STATES[pc + 1].depth;
            Examine(SPOILED, SPOILED[0], pc, s)
            == Ok(Examined(if pc == 5 then [] else [Point(pc + 1, SPOILED_STATES[pc + 1])], [], s.depth, after))
  {
    assert pc == 0 || pc == 1 || pc == 2 || pc == 3 || pc == 4 || pc == 5;
  }

  lemma {:induction false} SpoiledReached(pc: nat)
    requires pc < 6
    ensures Reached(SPOILED, SPOILED[0], Point(pc, SPOILED_STATES[pc]))
  {
    if pc == 0 {
      EntryReached(SPOILED, SPOILED[0]);
    } else {
      SpoiledReached(pc - 1);
      SpoiledExamined(pc - 1);
      ReachedStep(SPOILED, SPOILED[0], Point(pc - 1, SPOILED_STATES[pc - 1]), Point(pc, SPOILED_STATES[pc]));
    }
  }

  lemma SpoiledReports()
    ensures Reports(SPOILED, SPOILED[0], SPOILED_STATES, SPOILED_STATES.Keys, SPOILED_LOCAL)
  {
    var f, states := SPOILED[0], SPOILED_STATES;
    forall pc, e | pc in states.Keys && Observed(SPOILED, f, states, pc, e) ensures Covers(SPOILED_LOCAL, states[pc], e)
    {
      SpoiledExamined(pc);
    }
    SpoiledExamined(2);
    assert Observed(SPOILED, f, states, 2, Examined([Point(3, states[3])], [], 8, 24));
  }

  lemma SpoiledClosed(pc: nat)
    requires pc < 6
    ensures ClosedAt(SPOILED, SPOILED[0], SPOILED_STATES, pc)
  {
    SpoiledExamined(pc);
  }

  lemma SpoiledConsistent()
    ensures Consistent(SPOILED, SPOILED[0], SPOILED_STATES)
  {
    forall pc | pc in SPOILED_STATES ensures ClosedAt(SPOILED, SPOILED[0], SPOILED_STATES, pc) {
      SpoiledClosed(pc);
    }
  }

  lemma SpoiledAllReached()
    ensures AllReached(SPOILED, SPOILED[0], SPOILED_STATES)
  {
    forall pc | pc in SPOILED_STATES ensures Reached(SPOILED, SPOILED[0], Point(pc, SPOILED_STATES[pc])) {
      SpoiledReached(pc);
    }
  }

  lemma SpoiledAnalysed()
    ensures Analysed(SPOILED, SPOILED[0], SPOILED_STATES, SPOILED_LOCAL)
  {
    SpoiledConsistent();
    SpoiledAllReached();
    SpoiledReports();
  }

  lemma SpoiledSettled()
    ensures Settled(SPOILED_GRAPH, SPOILED_TOTALS, SPOILED_RANK)
  {
    assert SettledAt(SPOILED_GRAPH, SPOILED_TOTALS, SPOILED_RANK, 0);
  }

  lemma SpoiledCalls(a: nat)
    ensures a in SPOILED_TOTALS <==> Called(SPOILED_GRAPH, 0, a)
  {
    if Called(SPOILED_GRAPH, 0, a) {
      var chain :| Connects(SPOILED_GRAPH, chain, 0, a);
      SpoiledSettled();
      ChainDescends(SPOILED_GRAPH, SPOILED_TOTALS, SPOILED_RANK, SPOILED_GRAPH, chain, |chain| - 1);
    }
    assert Connects(SPOILED_GRAPH, [0], 0, 0);
  }

  /** The analyser accepts the program with a bound of twenty-four bytes, and nothing refutes it. */
  lemma SpoiledIsProved()
    ensures Established(SPOILED, 0, SPOILED_GRAPH, SPOILED_TOTALS, SPOILED_RANK) && SPOILED_TOTALS[0].maximum == 24
    ensures forall failure :: !Refuted(SPOILED, 0, failure)
  {
    SpoiledAnalysed();
    assert DescribedAt(SPOILED, SPOILED_GRAPH, 0);
    SpoiledSettled();
    forall a ensures a in SPOILED_TOTALS <==> Called(SPOILED_GRAPH, 0, a) {
      SpoiledCalls(a);
    }
    forall failure ensures !Refuted(SPOILED, 0, failure) {
      EstablishedIsNotRefuted(SPOILED, 0, SPOILED_GRAPH, SPOILED_TOTALS, SPOILED_RANK, failure);
    }
  }

  function SpoiledCpu(pc: nat, rsp: int, rbp: int): Cpu {
    Cpu([], 0, pc, 1600, rsp, (r: nat) => if r == RBP then rbp else 0, false)
  }

  const SPOILED_RUN: seq<Machine> :=
    [Running(SpoiledCpu(0, 1600, 0)), Running(SpoiledCpu(1, 1592, 0)), Running(SpoiledCpu(2, 1592, 1592)),
     Running(SpoiledCpu(3, 1576, 1592)), Running(SpoiledCpu(4, 1576, 0)), Running(SpoiledCpu(5, 8, 0)), Wild]

  /** The program is sealed, relies on a spoiled frame pointer, and one of its runs returns to somewhere else. */
  lemma SpoiledIsLeft()
    ensures Admissible(SPOILED, 0, 1600) && Sealed(SPOILED, 0) && !Unspoiled(SPOILED, 0)
    ensures Run(SPOILED, 0, 1600, SPOILED_RUN) && SPOILED_RUN[|SPOILED_RUN| - 1].Wild?
  {
    PlainEndsSeal(SPOILED, 0);
    SpoiledIsLoose();
    forall i | 0 < i < |SPOILED_RUN| ensures StepsAt(SPOILED, SPOILED_RUN, i) {
      SpoiledSteps(i);
    }
  }

  lemma SpoiledSteps(i: nat)
    requires 0 < i < |SPOILED_RUN|
    ensures StepsAt(SPOILED, SPOILED_RUN, i)
  {
    assert i == 1 || i == 2 || i == 3 || i == 4 || i == 5 || i == 6;
  }

  lemma SpoiledIsLoose()
    ensures !Unspoiled(SPOILED, 0)
  {
    RootIsLive(SPOILED, 0);
    FlowStarts(SPOILED, 0);
    FlowGoes(SPOILED, 0, 0, 1);
    FlowGoes(SPOILED, 0, 1, 2);
    FlowGoes(SPOILED, 0, 2, 3);
    StainStarts(SPOILED, 0, 3);
    assert Loose(SPOILED, 0, 4);
  }
}
