/** Runs of a proved program: within the bound, as long as no instruction relies on a frame pointer that was spoiled. */
module StackBounds {
  import opened Outcome
  import opened StackCode
  import opened StackLocal
  import opened StackProve
  import opened StackMachine
  import opened StackEnds

  // ---- The frame pointer -----------------------------------------------------------------

  /** Control may be here with a spoiled frame pointer; in a probe loop, also at the loop's head. */
  ghost predicate Excused(program: Program, a: nat, pc: nat)
    requires a in program
  {
    && Stains(program, a, pc)
    && forall k: nat, total: int :: InProbe(program[a].code, k, total, pc) && pc >= k + 2 ==> Stains(program, a, k + 2)
  }

  /** The frame pointer is right, or there is an excuse in the code. */
  ghost predicate RbpOk(x: Certificate, c: Cpu)
    requires c.fn in x.program && c.fn in x.records
  {
    c.pc < |x.program[c.fn].code| ==> RbpRight(x, c) || Excused(x.program, c.fn, c.pc)
  }

  /** The same of a suspended caller; its excuse lies at the call. */
  ghost predicate FrameOk(x: Certificate, frame: Frame)
    requires frame.fn in x.program && frame.fn in x.records
  {
    frame.pc in x.records[frame.fn] ==>
      || Agrees(x.records[frame.fn][frame.pc], frame.entry, frame.rbp)
      || (frame.pc > 0 && Stains(x.program, frame.fn, frame.pc - 1))
  }

  ghost predicate FrameOkAt(x: Certificate, c: Cpu, i: nat)
    requires i < |c.frames|
  {
    c.frames[i].fn in x.program && c.frames[i].fn in x.records && FrameOk(x, c.frames[i])
  }

  ghost predicate Trusted(x: Certificate, c: Cpu)
    requires c.fn in x.program && c.fn in x.records
  {
    RbpOk(x, c) && forall i {:trigger FrameOkAt(x, c, i)} :: 0 <= i < |c.frames| ==> FrameOkAt(x, c, i)
  }

  lemma StillTrusted(x: Certificate, c: Cpu, d: Cpu)
    requires c.fn in x.program && c.fn in x.records && Trusted(x, c) && d.frames == c.frames
    requires d.fn in x.program && d.fn in x.records && RbpOk(x, d)
    ensures Trusted(x, d)
  {
    forall i | 0 <= i < |d.frames| ensures FrameOkAt(x, d, i) {
      assert FrameOkAt(x, c, i);
    }
  }

  lemma ExcusedOutside(program: Program, a: nat, pc: nat)
    requires a in program && Stains(program, a, pc) && OutsideProbes(program[a].code, pc)
    ensures Excused(program, a, pc)
  {
  }

  /** What a straight-line instruction does to the excuse. */
  lemma ExcusedNext(program: Program, a: nat, pc: nat)
    requires a in program && Excused(program, a, pc) && KeepSite(program[a], pc) && !IsControl(program[a].code[pc])
    ensures Excused(program, a, pc + 1)
  {
    var code, next := program[a].code, pc + 1;
    assert Goes(program[a], pc, next);
    StainGoes(program, a, pc, next);
    forall k: nat, total: int | InProbe(code, k, total, next) && next >= k + 2 ensures Stains(program, a, k + 2) {
      if next > k + 2 {
        assert InProbe(code, k, total, pc);
      }
    }
  }

  lemma SpoiledNext(program: Program, a: nat, pc: nat)
    requires a in program && Flows(program, a, pc) && SpoilSite(program[a], pc)
    ensures Excused(program, a, pc + 1)
  {
    StainStarts(program, a, pc);
    SpoilOutside(program[a].code, pc);
  }

  lemma SpoilOutside(code: seq<Op>, pc: nat)
    requires pc < |code| && code[pc].SpoilRbp?
    ensures OutsideProbes(code, pc + 1)
  {
    var next := pc + 1;
    forall k: nat, total: int ensures !InProbe(code, k, total, next) {
      assert InProbe(code, k, total, next) ==>
        pc == k || pc == k + 1 || pc == k + 2 || pc == k + 3 || pc == k + 4;
    }
  }

  lemma StraightTrusted(x: Certificate, c: Cpu, d: Cpu)
    requires Ready(x, c) && Flows(x.program, c.fn, c.pc) && Trusted(x, c) && !IsControl(x.program[c.fn].code[c.pc])
    requires Moves(c, d, c.pc + 1) && Executes(x.program[c.fn].code[c.pc], c, d)
    ensures Trusted(x, d)
  {
    StraightOk(x, c, d);
    StillTrusted(x, c, d);
  }

  lemma StraightOk(x: Certificate, c: Cpu, d: Cpu)
    requires Ready(x, c) && Flows(x.program, c.fn, c.pc) && RbpOk(x, c) && !IsControl(x.program[c.fn].code[c.pc])
    requires Moves(c, d, c.pc + 1) && Executes(x.program[c.fn].code[c.pc], c, d)
    ensures RbpOk(x, d)
  {
    var op := x.program[c.fn].code[c.pc];
    if op.SpoilRbp? {
      SpoiledNext(x.program, c.fn, c.pc);
    } else if KeepsRbp(op) && !RbpRight(x, c) {
      ExcusedNext(x.program, c.fn, c.pc);
    } else {
      RecordRight(x.program, x.program[c.fn], x.records[c.fn], c, d);
    }
  }

  lemma RecordRight(program: Program, f: Function, R: map<nat, State>, c: Cpu, d: Cpu)
    requires ClosedAt(program, f, R, c.pc) && Here(f.code, R, c) && !IsControl(f.code[c.pc])
    requires Executes(f.code[c.pc], c, d) && d.entry == c.entry && !f.code[c.pc].SpoilRbp?
    requires KeepsRbp(f.code[c.pc]) ==> Agrees(R[c.pc], c.entry, c.regs(RBP))
    ensures c.pc + 1 in R && Agrees(R[c.pc + 1], d.entry, d.regs(RBP))
  {
    StraightRecorded(program, f, R, c.pc);
    CopyOutside(f.code, R, c);
    RightAfter(f, f.code[c.pc], R[c.pc], c, d);
  }

  /** The frame pointer is right after an instruction that writes it in sight of the analysis, or keeps it right. */
  lemma RightAfter(f: Function, op: Op, s: State, c: Cpu, d: Cpu)
    requires StackEffect(f, op, s).Ok? && !op.SpoilRbp? && Executes(op, c, d) && d.entry == c.entry
    requires op.CopyRsp? ==> Abstracts(s, c.entry, c.rsp)
    requires KeepsRbp(op) ==> Agrees(s, c.entry, c.regs(RBP))
    ensures Agrees(StackEffect(f, op, s).value, d.entry, d.regs(RBP))
  {
    if KeepsRbp(op) {
      RbpSound(f, op, s, c, d);
    } else {
      RbpWritten(f, op, s, c, d);
    }
  }

  /** A copy of the stack pointer is never inside a probe loop. */
  lemma CopyOutside(code: seq<Op>, R: map<nat, State>, c: Cpu)
    requires Here(code, R, c)
    ensures code[c.pc].CopyRsp? ==> Abstracts(R[c.pc], c.entry, c.rsp)
  {
    if code[c.pc].CopyRsp? {
      forall k: nat, total: int ensures !InProbe(code, k, total, c.pc) {
        assert InProbe(code, k, total, c.pc) ==>
          c.pc == k + 1 || c.pc == k + 2 || c.pc == k + 3 || c.pc == k + 4 || c.pc == k + 5;
      }
    }
  }

  /** An instruction that writes the frame pointer in sight of the analysis makes it right again, or unknown. */
  lemma RbpWritten(f: Function, op: Op, s: State, c: Cpu, d: Cpu)
    requires StackEffect(f, op, s).Ok? && !KeepsRbp(op) && !op.SpoilRbp? && Executes(op, c, d) && d.entry == c.entry
    requires op.CopyRsp? ==> Abstracts(s, c.entry, c.rsp)
    ensures Agrees(StackEffect(f, op, s).value, d.entry, d.regs(RBP))
  {
  }

  /** A jump, or either way out of a branch, inside the function. */
  lemma LocalTrusted(x: Certificate, c: Cpu, d: Cpu, to: nat)
    requires Ready(x, c) && Trusted(x, c) && (x.program[c.fn].code[c.pc].Jump? || x.program[c.fn].code[c.pc].Branch?)
    requires Moves(c, d, to) && SameRegisters(c, d) && to in x.records[c.fn]
             && x.records[c.fn][to].rbp == x.records[c.fn][c.pc].rbp
    requires Goes(x.program[c.fn], c.pc, to) || GoesRound(x.program[c.fn].code, c.pc, to)
    requires OutsideProbes(x.program[c.fn].code, to) || GoesRound(x.program[c.fn].code, c.pc, to)
    ensures Trusted(x, d)
  {
    if !RbpRight(x, c) {
      ExcusedJump(x.program, c.fn, c.pc, to);
    }
    StillTrusted(x, c, d);
  }

  /** The branch of a probe loop back to its head. */
  ghost predicate GoesRound(code: seq<Op>, pc: nat, to: nat) {
    exists k: nat, total: int :: ProbeAt(code, k, total) && pc == k + 5 && to == k + 2
  }

  lemma ExcusedJump(program: Program, a: nat, pc: nat, to: nat)
    requires a in program && Excused(program, a, pc) && pc < |program[a].code|
             && (program[a].code[pc].Jump? || program[a].code[pc].Branch?)
    requires (Goes(program[a], pc, to) && OutsideProbes(program[a].code, to)) || GoesRound(program[a].code, pc, to)
    ensures Excused(program, a, to)
  {
    var code := program[a].code;
    if GoesRound(code, pc, to) {
      var k: nat, total: int :| ProbeAt(code, k, total) && pc == k + 5 && to == k + 2;
      assert InProbe(code, k, total, pc);
      forall k': nat, total': int | InProbe(code, k', total', to) && to >= k' + 2 ensures Stains(program, a, k' + 2) {
        assert InProbe(code, k, total, to);
        ProbesApart(code, k, total, k', total', to);
      }
    } else {
      StainGoes(program, a, pc, to);
      ExcusedOutside(program, a, to);
    }
  }

  lemma EntryRight(x: Certificate, d: Cpu)
    requires Certified(x) && Tabled(x, d.fn) && d.pc == 0
    ensures RbpRight(x, d)
  {
    assert RecordedAt(x, d.fn);
  }

  lemma CallTrusted(x: Certificate, c: Cpu, d: Cpu)
    requires Ready(x, c) && Trusted(x, c) && x.program[c.fn].code[c.pc].Call? && Tabled(x, d.fn) && d.pc == 0
    requires d.frames == c.frames + [Frame(c.fn, c.pc + 1, c.entry, c.regs(RBP))]
    ensures Trusted(x, d)
  {
    EntryRight(x, d);
    CallRecorded(x.program, x.program[c.fn], x.records[c.fn], c.pc);
    PeakAt(x, c.fn, c.pc);
    forall i | 0 <= i < |d.frames| ensures FrameOkAt(x, d, i) {
      if i < |c.frames| {
        assert FrameOkAt(x, c, i);
      } else {
        CallerOk(x, c, d.frames[i]);
      }
    }
  }

  lemma CallerOk(x: Certificate, c: Cpu, frame: Frame)
    requires Ready(x, c) && RbpOk(x, c) && x.program[c.fn].code[c.pc].Call?
    requires frame == Frame(c.fn, c.pc + 1, c.entry, c.regs(RBP))
    ensures FrameOk(x, frame)
  {
    CallRecorded(x.program, x.program[c.fn], x.records[c.fn], c.pc);
    RecordsInCode(x, c.fn);
  }

  lemma RecordsInCode(x: Certificate, a: nat)
    requires Certified(x) && Tabled(x, a)
    ensures forall pc :: pc in x.records[a] ==> pc < |x.program[a].code|
  {
    forall pc | pc in x.records[a] ensures pc < |x.program[a].code| {
      PeakAt(x, a, pc);
    }
  }

  lemma ReturnTrusted(x: Certificate, c: Cpu, d: Cpu)
    requires Ready(x, c) && Trusted(x, c) && Alive(x.program, x.root, c) && ReturnSite(x.program[c.fn], c.pc)
             && c.frames != []
    requires var last := |c.frames| - 1; var frame := c.frames[last];
      d.frames == c.frames[..last] && d.fn == frame.fn && d.pc == frame.pc && d.entry == frame.entry
        && d.regs(RBP) == frame.rbp
    ensures d.fn in x.program && d.fn in x.records && Trusted(x, d)
  {
    var last := |c.frames| - 1;
    assert FrameOkAt(x, c, last) && WaitsAt(x.program, x.root, c, last);
    ReturnComesBack(x.program, c.fn, c.pc);
    ResumeOk(x, c.frames[last], c.fn, d);
    forall i | 0 <= i < |d.frames| ensures FrameOkAt(x, d, i) {
      assert FrameOkAt(x, c, i);
    }
  }

  lemma ResumeOk(x: Certificate, frame: Frame, inner: nat, d: Cpu)
    requires frame.fn in x.program && frame.fn in x.records && FrameOk(x, frame)
    requires Waits(x.program, x.root, frame, inner) && ComesBack(x.program, inner)
    requires d.fn == frame.fn && d.pc == frame.pc && d.entry == frame.entry && d.regs(RBP) == frame.rbp
    ensures RbpOk(x, d)
  {
    if !RbpRight(x, d) {
      var site: nat := frame.pc - 1;
      assert Goes(x.program[frame.fn], site, frame.pc);
      StainGoes(x.program, frame.fn, site, frame.pc);
      AfterControl(x.program[frame.fn].code, site);
      ExcusedOutside(x.program, frame.fn, frame.pc);
    }
  }

  lemma BranchTrusted(x: Certificate, c: Cpu, n: Machine)
    requires Ready(x, c) && Trusted(x, c) && x.program[c.fn].code[c.pc].Branch? && Step(x.program, c, n) && n.Running?
    requires Safe(x, n.cpu) && n.cpu.pc < |x.program[n.cpu.fn].code|
    ensures Trusted(x, n.cpu)
  {
    var f, R, d := x.program[c.fn], x.records[c.fn], n.cpu;
    var t := f.code[c.pc].target;
    if ProbeTotal(f.code, c.pc).Some? {
      ProbeTrusted(x, c, d, c.pc - 5, ProbeTotal(f.code, c.pc).value);
    } else {
      BranchRecorded(x.program, f, R, c.pc);
      if Jumps(x.program, f, t, c, n) {
        JumpTrusted(x, c, n);
      } else {
        FallTrusted(x, c, d);
      }
    }
  }

  lemma FallTrusted(x: Certificate, c: Cpu, d: Cpu)
    requires Ready(x, c) && Trusted(x, c) && FreeBranch(x.program[c.fn], c.pc) && c.pc + 1 < |x.program[c.fn].code|
    requires Moves(c, d, c.pc + 1) && SameRegisters(c, d)
    requires c.pc + 1 in x.records[c.fn] && x.records[c.fn][c.pc + 1] == x.records[c.fn][c.pc]
    ensures Trusted(x, d)
  {
    AfterControl(x.program[c.fn].code, c.pc);
    LocalTrusted(x, c, d, c.pc + 1);
  }

  lemma ProbeTrusted(x: Certificate, c: Cpu, d: Cpu, k: nat, total: int)
    requires Ready(x, c) && Trusted(x, c) && ProbeAt(x.program[c.fn].code, k, total) && c.pc == k + 5
    requires SameRegisters(c, d) && (Moves(c, d, k + 2) || Moves(c, d, k + 6))
    ensures Trusted(x, d)
  {
    var f, R := x.program[c.fn], x.records[c.fn];
    ProbeRecorded(x.program, f, R, k, total);
    assert InProbe(f.code, k, total, c.pc) && Probing(f.code, R, k, total, c);
    AfterControl(f.code, c.pc);
    if d.pc == k + 2 {
      RoundTrusted(x, c, d, k, total);
    } else {
      PastTrusted(x, c, d, k, total);
    }
  }

  lemma PastTrusted(x: Certificate, c: Cpu, d: Cpu, k: nat, total: int)
    requires Ready(x, c) && Trusted(x, c) && ProbeAt(x.program[c.fn].code, k, total) && c.pc == k + 5
    requires SameRegisters(c, d) && Moves(c, d, k + 6) && OutsideProbes(x.program[c.fn].code, k + 6)
    requires k + 6 in x.records[c.fn] && x.records[c.fn][k + 6].rbp == x.records[c.fn][c.pc].rbp
    ensures Trusted(x, d)
  {
    assert Goes(x.program[c.fn], c.pc, k + 6);
    LocalTrusted(x, c, d, k + 6);
  }

  lemma RoundTrusted(x: Certificate, c: Cpu, d: Cpu, k: nat, total: int)
    requires Ready(x, c) && Trusted(x, c) && ProbeAt(x.program[c.fn].code, k, total) && c.pc == k + 5
    requires SameRegisters(c, d) && Moves(c, d, k + 2)
    requires k + 2 in x.records[c.fn] && x.records[c.fn][k + 2].rbp == x.records[c.fn][c.pc].rbp
    ensures Trusted(x, d)
  {
    assert GoesRound(x.program[c.fn].code, c.pc, k + 2);
    LocalTrusted(x, c, d, k + 2);
  }

  /** A jump, or a taken branch outside the probe loops. */
  lemma JumpTrusted(x: Certificate, c: Cpu, n: Machine)
    requires Ready(x, c) && Trusted(x, c) && n.Running?
             && (x.program[c.fn].code[c.pc].Jump? || FreeBranch(x.program[c.fn], c.pc))
    requires Jumps(x.program, x.program[c.fn], x.program[c.fn].code[c.pc].target, c, n) && Tabled(x, n.cpu.fn)
    requires var t := x.program[c.fn].code[c.pc].target; InCode(x.program[c.fn], t) ==>
      t.local.value in x.records[c.fn] && x.records[c.fn][t.local.value] == x.records[c.fn][c.pc]
    ensures Trusted(x, n.cpu)
  {
    var f, d := x.program[c.fn], n.cpu;
    var t := f.code[c.pc].target;
    if t.direct && InCode(f, t) {
      JumpOutside(f.code, c.pc, t.local.value);
      LocalTrusted(x, c, d, t.local.value);
    } else {
      EntryRight(x, d);
      StillTrusted(x, c, d);
    }
  }

  /** A conditional branch outside the probe loops. */
  predicate FreeBranch(f: Function, pc: nat) { pc < |f.code| && f.code[pc].Branch? && ProbeTotal(f.code, pc).None? }

  lemma JumpOutside(code: seq<Op>, pc: nat, to: nat)
    requires ProbesGuarded(code) && JumpsTo(code, pc, to) && (code[pc].Branch? ==> ProbeTotal(code, pc).None?)
    ensures OutsideProbes(code, to)
  {
    forall k: nat, total: int ensures !InProbe(code, k, total, to) {
      assert InProbe(code, k, total, to) ==> pc == k + 5;
      assert InProbe(code, k, total, to) ==> ProbeAt(code, k, total) && IsProbe(code, k);
    }
  }

  /** Every step keeps the frame pointer right, or excused by the code. */
  lemma StepTrusted(x: Certificate, c: Cpu, n: Machine)
    requires Ready(x, c) && Trusted(x, c) && Alive(x.program, x.root, c) && Step(x.program, c, n) && n.Running?
             && Safe(x, n.cpu)
    ensures Trusted(x, n.cpu)
  {
    var op, d := x.program[c.fn].code[c.pc], n.cpu;
    if op.Call? {
      CalledTrusted(x, c, n);
    } else if op.Return? {
      ReturnedTrusted(x, c, n);
    } else if op.Jump? || op.Branch? {
      ControlTrusted(x, c, n);
    } else {
      StraightTrusted(x, c, d);
    }
  }

  lemma CalledTrusted(x: Certificate, c: Cpu, n: Machine)
    requires Ready(x, c) && Trusted(x, c) && x.program[c.fn].code[c.pc].Call? && Step(x.program, c, n) && n.Running?
             && Safe(x, n.cpu)
    ensures Trusted(x, n.cpu)
  {
    CallTrusted(x, c, n.cpu);
  }

  lemma ReturnedTrusted(x: Certificate, c: Cpu, n: Machine)
    requires Ready(x, c) && Trusted(x, c) && Alive(x.program, x.root, c) && x.program[c.fn].code[c.pc].Return?
    requires Step(x.program, c, n) && n.Running?
    ensures n.cpu.fn in x.program && n.cpu.fn in x.records && Trusted(x, n.cpu)
  {
    ReturnTrusted(x, c, n.cpu);
  }

  lemma ControlTrusted(x: Certificate, c: Cpu, n: Machine)
    requires Ready(x, c) && Trusted(x, c) && Step(x.program, c, n) && n.Running? && Safe(x, n.cpu)
    requires x.program[c.fn].code[c.pc].Jump? || x.program[c.fn].code[c.pc].Branch?
    ensures Trusted(x, n.cpu)
  {
    if x.program[c.fn].code[c.pc].Jump? {
      JumpRecorded(x.program, x.program[c.fn], x.records[c.fn], c.pc);
      JumpTrusted(x, c, n);
    } else if n.cpu.pc < |x.program[n.cpu.fn].code| {
      BranchTrusted(x, c, n);
    } else {
      StillTrusted(x, c, n.cpu);
    }
  }

  // ---- Runs ------------------------------------------------------------------------------

  /** The machine relies on a frame pointer that may be spoiled. */
  ghost predicate LooseAt(program: Program, m: Machine) { m.Running? && Loose(program, m.cpu.fn, m.cpu.pc) }

  /** It has done so before state `n`. */
  ghost predicate Strayed(program: Program, run: seq<Machine>, n: nat)
    requires n <= |run|
  {
    exists i :: 0 <= i < n && LooseAt(program, run[i])
  }

  /** Where the frame pointer is relied on and nothing is loose, it is right. */
  lemma RightUnlessLoose(x: Certificate, c: Cpu)
    requires c.fn in x.program && c.fn in x.records && c.pc < |x.program[c.fn].code| && RbpOk(x, c)
             && !Loose(x.program, c.fn, c.pc)
    ensures RightWhereNeeded(x, c) && (RbpOperand(x.program, c.fn, c.pc) ==> RbpRight(x, c))
  {
  }

  lemma {:induction false} RunSafe(x: Certificate, run: seq<Machine>, n: nat)
    requires Certified(x) && Run(x.program, x.root, x.base, run) && n < |run| && !Strayed(x.program, run, n)
    ensures if run[n].Running? then Safe(x, run[n].cpu) && Trusted(x, run[n].cpu) else FellOff(x.program, run, n)
    decreases n
  {
    if n == 0 {
      StartSafe(x, run[0].cpu);
    } else {
      RunSafe(x, run, n - 1);
      assert StepsAt(x.program, run, n) && !LooseAt(x.program, run[n - 1]);
      StillAliveAt(x, run, n - 1);
      RunNext(x, run, n);
    }
  }

  lemma StillAliveAt(x: Certificate, run: seq<Machine>, i: nat)
    requires Certified(x) && Run(x.program, x.root, x.base, run) && i < |run| && run[i].Running?
    ensures Alive(x.program, x.root, run[i].cpu)
  {
    assert RecordedAt(x, x.root);
    RunAlive(x.program, x.root, x.base, run, i);
  }

  lemma RunNext(x: Certificate, run: seq<Machine>, n: nat)
    requires Certified(x) && 0 < n < |run| && StepsAt(x.program, run, n) && !LooseAt(x.program, run[n - 1])
    requires Safe(x, run[n - 1].cpu) && Trusted(x, run[n - 1].cpu) && Alive(x.program, x.root, run[n - 1].cpu)
    ensures if run[n].Running? then Safe(x, run[n].cpu) && Trusted(x, run[n].cpu) else FellOff(x.program, run, n)
  {
    RunStep(x, run[n - 1].cpu, run[n]);
  }

  lemma StartSafe(x: Certificate, c: Cpu)
    requires Certified(x) && c.frames == [] && c.fn == x.root && c.pc == 0 && c.entry == c.rsp == x.base
    ensures Safe(x, c) && Trusted(x, c)
  {
    assert RecordedAt(x, x.root);
    Entered(x, c);
    EntryRight(x, c);
  }

  lemma RunStep(x: Certificate, c: Cpu, n: Machine)
    requires Certified(x) && Safe(x, c) && Trusted(x, c) && Alive(x.program, x.root, c) && Step(x.program, c, n)
    requires !Loose(x.program, c.fn, c.pc)
    ensures n.Running? ==> Safe(x, n.cpu) && Trusted(x, n.cpu)
    ensures n.Wild? <==> c.pc == |x.program[c.fn].code|
  {
    if c.pc < |x.program[c.fn].code| {
      RightUnlessLoose(x, c);
      GetReady(x, c);
      StepSafe(x, c, n);
      StepTrusted(x, c, n);
    }
  }

  /** What holds of every run of a proved program: until it relies on a spoiled frame pointer it is within the bound as
      long as it is in the program, and it leaves the program only past the last instruction of a function. */
  ghost predicate BoundedUntilLeft(program: Program, base: int, maximum: int, run: seq<Machine>) {
    forall i {:trigger StateOk(program, base, maximum, run, i)} ::
        0 <= i < |run| ==> StateOk(program, base, maximum, run, i)
  }

  ghost predicate StateOk(program: Program, base: int, maximum: int, run: seq<Machine>, i: nat)
    requires i < |run|
  {
    if run[i].Running? then WithinBound(program, base, maximum, run[i].cpu) || Strayed(program, run, i + 1)
    else FellOff(program, run, i) || Strayed(program, run, i)
  }

  lemma RunsAreBounded(program: Program, root: nat, base: int, graph: Graph, totals: map<nat, Total>,
                       rank: map<nat, nat>, run: seq<Machine>)
    requires Established(program, root, graph, totals, rank) && Admissible(program, root, base)
    requires Run(program, root, base, run)
    ensures root in totals && BoundedUntilLeft(program, base, totals[root].maximum, run)
  {
    var x := CertificateExists(program, root, base, graph, totals, rank);
    forall i | 0 <= i < |run| ensures StateOk(program, base, totals[root].maximum, run, i) {
      StateBounded(x, run, i);
    }
  }

  lemma StateBounded(x: Certificate, run: seq<Machine>, i: nat)
    requires Certified(x) && Run(x.program, x.root, x.base, run) && i < |run|
    ensures StateOk(x.program, x.base, x.totals[x.root].maximum, run, i)
  {
    if Strayed(x.program, run, i) {
      var j :| 0 <= j < i && LooseAt(x.program, run[j]);
    } else {
      RunSafe(x, run, i);
      if run[i].Running? && !LooseAt(x.program, run[i]) {
        var c := run[i].cpu;
        if c.pc < |x.program[c.fn].code| {
          RightUnlessLoose(x, c);
        }
        SafeIsBounded(x, c);
      }
    }
  }
}
