/** Control flow read off the code: where control can run past the last instruction of a function, and where it can
carry a frame pointer that was written behind the analyser's back.

The analysis drops the continuation of a call or a conditional branch that ends a function, and it overlooks writes
to parts of rbp.  Control really goes on there, and the frame pointer really changes there, so what a run does
depends on where the control flow leads from such instructions.
*/
module StackEnds {
  import opened Outcome
  import opened StackCode
  import opened StackLocal
  import opened StackProve
  import opened StackMachine

  // ---- Control flow of the code ----------------------------------------------------------

  /** Control may go on at `to`, which is `|f.code|` when it runs past the last instruction. */
  predicate Goes(f: Function, pc: nat, to: nat) {
    && pc < |f.code|
    && match f.code[pc]
       case Jump(t) => InCode(f, t) && to == t.local.value
       case Branch(_, t) => to == pc + 1 || (ProbeTotal(f.code, pc).None? && InCode(f, t) && to == t.local.value)
       case Return(_) => false
       case Halt => false
       case _ => to == pc + 1
  }

  predicate CallSite(program: Program, f: Function, pc: nat) {
    pc < |f.code| && f.code[pc].Call? && Known(program, f.code[pc].target)
  }

  predicate TailSite(program: Program, f: Function, pc: nat) {
    pc < |f.code| && (f.code[pc].Jump? || f.code[pc].Branch?) && !InCode(f, f.code[pc].target)
      && Known(program, f.code[pc].target)
  }

  predicate ReturnSite(f: Function, pc: nat) { pc < |f.code| && f.code[pc].Return? }

  /** The function entered from a call site or a tail site. */
  function CalleeAt(program: Program, f: Function, pc: nat): nat
    requires CallSite(program, f, pc) || TailSite(program, f, pc)
  {
    f.code[pc].target.callee.value
  }

  /** Control gets from the entry of `a` to `pc`, with `n` bounding the derivation; a call is passed only if its
      callee comes back. */
  ghost predicate FlowsIn(program: Program, a: nat, pc: nat, n: nat)
    decreases n, 0
  {
    && a in program && n > 0
    && (pc == 0 || exists q: nat {:trigger Goes(program[a], q, pc)} ::
          && Goes(program[a], q, pc) && FlowsIn(program, a, q, n - 1)
          && (CallSite(program, program[a], q) ==> ComesBackIn(program, CalleeAt(program, program[a], q), n - 1)))
  }

  /** Control gets from the entry of `a` to a return, in `a` itself or in a function it leaves to by a tail jump. */
  ghost predicate ComesBackIn(program: Program, a: nat, n: nat)
    decreases n, 0
  {
    && a in program && n > 0
    && exists q: nat {:trigger ReturnSite(program[a], q)} ::
         && FlowsIn(program, a, q, n - 1)
         && (ReturnSite(program[a], q)
             || (TailSite(program, program[a], q) && ComesBackIn(program, CalleeAt(program, program[a], q), n - 1)))
  }

  ghost predicate Flows(program: Program, a: nat, pc: nat) { exists n: nat :: FlowsIn(program, a, pc, n) }

  ghost predicate ComesBack(program: Program, a: nat) { exists n: nat :: ComesBackIn(program, a, n) }

  /** The instruction leaves the frame pointer as it is. */
  predicate KeepsRbp(op: Op) {
    && op != CopyRsp(RBP) && !op.Leave? && !op.WriteRbp? && !op.SpoilRbp?
    && !(op.Pop? && op.toRbp) && !(op.SubRegister? && op.register == RBP)
  }

  predicate SpoilSite(f: Function, pc: nat) { pc < |f.code| && f.code[pc].SpoilRbp? }

  predicate KeepSite(f: Function, pc: nat) { pc < |f.code| && KeepsRbp(f.code[pc]) }

  /** Control gets to `pc` with the frame pointer of an overlooked write. */
  ghost predicate StainsIn(program: Program, a: nat, pc: nat, n: nat)
    decreases n
  {
    && a in program && n > 0
    && exists q: nat {:trigger Goes(program[a], q, pc)} ::
         && Goes(program[a], q, pc)
         && (CallSite(program, program[a], q) ==> ComesBackIn(program, CalleeAt(program, program[a], q), n - 1))
         && ((SpoilSite(program[a], q) && FlowsIn(program, a, q, n - 1))
             || (KeepSite(program[a], q) && StainsIn(program, a, q, n - 1)))
  }

  ghost predicate Stains(program: Program, a: nat, pc: nat) { exists n: nat :: StainsIn(program, a, pc, n) }

  /** The instruction at `pc` relies on the frame pointer: for the stack pointer, or for an operand the analysis
      resolves. */
  ghost predicate Relies(program: Program, a: nat, pc: nat)
    requires a in program
  {
    pc < |program[a].code| && (NeedsRbp(program[a].code[pc]) || RbpOperand(program, a, pc))
  }

  ghost predicate Loose(program: Program, a: nat, pc: nat) {
    a in program && Stains(program, a, pc) && Relies(program, a, pc)
  }

  /** Control gets from the root to the entry of `a`. */
  ghost predicate LiveIn(program: Program, root: nat, a: nat, n: nat)
    decreases n
  {
    && a in program && n > 0
    && (a == root || exists b: nat, q: nat {:trigger Hands(program, b, q, a)} ::
          LiveIn(program, root, b, n - 1) && Hands(program, b, q, a))
  }

  /** Control reaches `q` in `b` and enters `a` from there. */
  ghost predicate Hands(program: Program, b: nat, q: nat, a: nat) {
    && b in program && Flows(program, b, q)
    && (CallSite(program, program[b], q) || TailSite(program, program[b], q)) && CalleeAt(program, program[b], q) == a
  }

  ghost predicate Live(program: Program, root: nat, a: nat) { exists n: nat :: LiveIn(program, root, a, n) }

  /** No function that control enters lets it run past its last instruction. */
  ghost predicate Sealed(program: Program, root: nat) {
    forall a {:trigger Live(program, root, a)} ::
        Live(program, root, a) ==> a in program && !Flows(program, a, |program[a].code|)
  }

  /** No function that control enters relies on the frame pointer of an overlooked write. */
  ghost predicate Unspoiled(program: Program, root: nat) {
    forall a, pc {:trigger Loose(program, a, pc)} :: Live(program, root, a) ==> !Loose(program, a, pc)
  }

  /** A sufficient condition that only looks at the last instruction of each function. */
  ghost predicate EndsPlainly(program: Program) {
    forall a :: a in program ==>
      program[a].code != [] && var last := program[a].code[|program[a].code| - 1];
        last.Jump? || last.Return? || last.Halt?
  }

  // ---- Rules -----------------------------------------------------------------------------

  lemma {:induction false} FlowsLater(program: Program, a: nat, pc: nat, n: nat, m: nat)
    requires FlowsIn(program, a, pc, n) && n <= m
    ensures FlowsIn(program, a, pc, m)
    decreases n
  {
    if pc != 0 {
      var q: nat :| && Goes(program[a], q, pc) && FlowsIn(program, a, q, n - 1)
                    && (CallSite(program, program[a], q) ==>
                        ComesBackIn(program, CalleeAt(program, program[a], q), n - 1));
      FlowsLater(program, a, q, n - 1, m - 1);
      if CallSite(program, program[a], q) {
        ComesBackLater(program, CalleeAt(program, program[a], q), n - 1, m - 1);
      }
    }
  }

  lemma {:induction false} ComesBackLater(program: Program, a: nat, n: nat, m: nat)
    requires ComesBackIn(program, a, n) && n <= m
    ensures ComesBackIn(program, a, m)
    decreases n
  {
    var q: nat := WayBack(program, a, n);
    FlowsLater(program, a, q, n - 1, m - 1);
    if !ReturnSite(program[a], q) {
      ComesBackLater(program, CalleeAt(program, program[a], q), n - 1, m - 1);
    }
  }

  /** Where a function that comes back returns or leaves. */
  lemma WayBack(program: Program, a: nat, n: nat) returns (q: nat)
    requires ComesBackIn(program, a, n)
    ensures n > 0 && a in program && FlowsIn(program, a, q, n - 1)
    ensures ReturnSite(program[a], q)
            || (TailSite(program, program[a], q) && ComesBackIn(program, CalleeAt(program, program[a], q), n - 1))
  {
    q :| && FlowsIn(program, a, q, n - 1)
         && (ReturnSite(program[a], q)
             || (TailSite(program, program[a], q) && ComesBackIn(program, CalleeAt(program, program[a], q), n - 1)));
  }

  lemma FlowStarts(program: Program, a: nat)
    requires a in program
    ensures Flows(program, a, 0)
  {
    assert FlowsIn(program, a, 0, 1);
  }

  lemma FlowGoes(program: Program, a: nat, q: nat, pc: nat)
    requires Flows(program, a, q) && a in program && Goes(program[a], q, pc)
    requires CallSite(program, program[a], q) ==> ComesBack(program, CalleeAt(program, program[a], q))
    ensures Flows(program, a, pc)
  {
    var m := 0;
    if CallSite(program, program[a], q) {
      var k: nat :| ComesBackIn(program, CalleeAt(program, program[a], q), k);
      m := FlowsBy(program, a, q, k);
      ComesBackLater(program, CalleeAt(program, program[a], q), k, m);
    } else {
      m := FlowsBy(program, a, q, 0);
    }
    assert FlowsIn(program, a, pc, m + 1);
  }

  lemma FlowsBy(program: Program, a: nat, q: nat, least: nat) returns (m: nat)
    requires Flows(program, a, q)
    ensures m >= least && FlowsIn(program, a, q, m)
  {
    var n: nat :| FlowsIn(program, a, q, n);
    m := if n > least then n else least;
    FlowsLater(program, a, q, n, m);
  }

  lemma ReturnComesBack(program: Program, a: nat, q: nat)
    requires Flows(program, a, q) && a in program && ReturnSite(program[a], q)
    ensures ComesBack(program, a)
  {
    var n := FlowsBy(program, a, q, 0);
    assert ComesBackIn(program, a, n + 1);
  }

  lemma TailComesBack(program: Program, a: nat, q: nat)
    requires Flows(program, a, q) && a in program && TailSite(program, program[a], q)
    requires ComesBack(program, CalleeAt(program, program[a], q))
    ensures ComesBack(program, a)
  {
    var k: nat :| ComesBackIn(program, CalleeAt(program, program[a], q), k);
    var m := FlowsBy(program, a, q, k);
    ComesBackLater(program, CalleeAt(program, program[a], q), k, m);
    assert !ReturnSite(program[a], q);
    assert ComesBackIn(program, a, m + 1);
  }

  lemma {:induction false} StainsLater(program: Program, a: nat, pc: nat, n: nat, m: nat)
    requires StainsIn(program, a, pc, n) && n <= m
    ensures StainsIn(program, a, pc, m)
    decreases n
  {
    var q := StainWay(program, a, pc, n);
    if CallSite(program, program[a], q) {
      ComesBackLater(program, CalleeAt(program, program[a], q), n - 1, m - 1);
    }
    if SpoilSite(program[a], q) {
      FlowsLater(program, a, q, n - 1, m - 1);
    } else {
      StainsLater(program, a, q, n - 1, m - 1);
    }
  }

  /** The instruction before a stained one: the overlooked write, or one that keeps the frame pointer. */
  lemma StainWay(program: Program, a: nat, pc: nat, n: nat) returns (q: nat)
    requires StainsIn(program, a, pc, n)
    ensures n > 0 && a in program && Goes(program[a], q, pc)
    ensures CallSite(program, program[a], q) ==> ComesBackIn(program, CalleeAt(program, program[a], q), n - 1)
    ensures (SpoilSite(program[a], q) && FlowsIn(program, a, q, n - 1))
            || (KeepSite(program[a], q) && StainsIn(program, a, q, n - 1))
  {
    q :| && Goes(program[a], q, pc)
         && (CallSite(program, program[a], q) ==> ComesBackIn(program, CalleeAt(program, program[a], q), n - 1))
         && ((SpoilSite(program[a], q) && FlowsIn(program, a, q, n - 1))
             || (KeepSite(program[a], q) && StainsIn(program, a, q, n - 1)));
  }

  lemma StainStarts(program: Program, a: nat, q: nat)
    requires Flows(program, a, q) && a in program && SpoilSite(program[a], q)
    ensures Stains(program, a, q + 1)
  {
    var n := FlowsBy(program, a, q, 0);
    assert Goes(program[a], q, q + 1);
    assert StainsIn(program, a, q + 1, n + 1);
  }

  lemma StainsBy(program: Program, a: nat, q: nat, least: nat) returns (m: nat)
    requires Stains(program, a, q)
    ensures m >= least && StainsIn(program, a, q, m)
  {
    var n: nat :| StainsIn(program, a, q, n);
    m := if n > least then n else least;
    StainsLater(program, a, q, n, m);
  }

  lemma StainGoes(program: Program, a: nat, q: nat, pc: nat)
    requires Stains(program, a, q) && a in program && KeepSite(program[a], q) && Goes(program[a], q, pc)
    requires CallSite(program, program[a], q) ==> ComesBack(program, CalleeAt(program, program[a], q))
    ensures Stains(program, a, pc)
  {
    var m := 0;
    if CallSite(program, program[a], q) {
      var k: nat :| ComesBackIn(program, CalleeAt(program, program[a], q), k);
      m := StainsBy(program, a, q, k);
      ComesBackLater(program, CalleeAt(program, program[a], q), k, m);
    } else {
      m := StainsBy(program, a, q, 0);
    }
    assert StainsIn(program, a, pc, m + 1);
  }

  lemma RootIsLive(program: Program, root: nat)
    requires root in program
    ensures Live(program, root, root)
  {
    assert LiveIn(program, root, root, 1);
  }

  lemma LiveHands(program: Program, root: nat, b: nat, q: nat, a: nat)
    requires Live(program, root, b) && Hands(program, b, q, a) && a in program
    ensures Live(program, root, a)
  {
    var n: nat :| LiveIn(program, root, b, n);
    assert LiveIn(program, root, a, n + 1);
  }

  // ---- Runs follow the control flow ------------------------------------------------------

  /** The function that runs on top of a suspended caller. */
  function Inner(c: Cpu, i: nat): nat
    requires i < |c.frames|
  {
    if i + 1 < |c.frames| then c.frames[i + 1].fn else c.fn
  }

  /** A suspended caller is at a call that control reaches, and what runs on top of it comes back only if the
      callee does. */
  ghost predicate Waits(program: Program, root: nat, frame: Frame, inner: nat) {
    && frame.fn in program && Live(program, root, frame.fn) && frame.pc > 0 && Flows(program, frame.fn, frame.pc - 1)
    && CallSite(program, program[frame.fn], frame.pc - 1)
    && (ComesBack(program, inner) ==> ComesBack(program, CalleeAt(program, program[frame.fn], frame.pc - 1)))
  }

  ghost predicate WaitsAt(program: Program, root: nat, c: Cpu, i: nat)
    requires i < |c.frames|
  {
    Waits(program, root, c.frames[i], Inner(c, i))
  }

  /** In a probe loop, control has come through the loop's head. */
  ghost predicate HeadFlows(program: Program, a: nat, pc: nat)
    requires a in program
  {
    forall k: nat, total: int :: InProbe(program[a].code, k, total, pc) && pc >= k + 2 ==> Flows(program, a, k + 2)
  }

  ghost predicate Alive(program: Program, root: nat, c: Cpu) {
    && c.fn in program && Live(program, root, c.fn) && Flows(program, c.fn, c.pc) && HeadFlows(program, c.fn, c.pc)
    && forall i {:trigger WaitsAt(program, root, c, i)} :: 0 <= i < |c.frames| ==> WaitsAt(program, root, c, i)
  }

  /** Another point of the same activation. */
  lemma StillAlive(program: Program, root: nat, c: Cpu, d: Cpu)
    requires Alive(program, root, c) && d.frames == c.frames && d.fn == c.fn
    requires Flows(program, d.fn, d.pc) && HeadFlows(program, d.fn, d.pc)
    ensures Alive(program, root, d)
  {
    forall i | 0 <= i < |d.frames| ensures WaitsAt(program, root, d, i) {
      assert WaitsAt(program, root, c, i);
    }
  }

  lemma StraightAlive(program: Program, root: nat, c: Cpu, d: Cpu)
    requires Alive(program, root, c) && c.pc < |program[c.fn].code| && !IsControl(program[c.fn].code[c.pc])
             && Moves(c, d, c.pc + 1)
    ensures Alive(program, root, d)
  {
    var code := program[c.fn].code;
    FlowGoes(program, c.fn, c.pc, d.pc);
    forall k: nat, total: int | InProbe(code, k, total, d.pc) && d.pc >= k + 2 ensures Flows(program, c.fn, k + 2) {
      if d.pc > k + 2 {
        assert InProbe(code, k, total, c.pc);
      }
    }
    StillAlive(program, root, c, d);
  }

  lemma OutsideHead(program: Program, a: nat, pc: nat)
    requires a in program && OutsideProbes(program[a].code, pc)
    ensures HeadFlows(program, a, pc)
  {
  }

  /** A jump or a taken branch inside the function. */
  lemma JumpAlive(program: Program, root: nat, c: Cpu, d: Cpu, to: nat)
    requires Alive(program, root, c) && ProbesGuarded(program[c.fn].code) && JumpsTo(program[c.fn].code, c.pc, to)
             && Moves(c, d, to)
    ensures Alive(program, root, d)
  {
    var f := program[c.fn];
    if ProbeTotal(f.code, c.pc).Some? && f.code[c.pc].Branch? {
      assert InProbe(f.code, c.pc - 5, ProbeTotal(f.code, c.pc).value, c.pc);
    } else {
      FlowGoes(program, c.fn, c.pc, to);
    }
    forall k: nat, total: int | InProbe(f.code, k, total, to) && to >= k + 2 ensures Flows(program, c.fn, k + 2) {
      assert to == k + 2;
    }
    StillAlive(program, root, c, d);
  }

  lemma FallAlive(program: Program, root: nat, c: Cpu, d: Cpu)
    requires Alive(program, root, c) && c.pc < |program[c.fn].code| && program[c.fn].code[c.pc].Branch?
             && Moves(c, d, c.pc + 1)
    ensures Alive(program, root, d)
  {
    FlowGoes(program, c.fn, c.pc, d.pc);
    AfterControl(program[c.fn].code, c.pc);
    OutsideHead(program, c.fn, d.pc);
    StillAlive(program, root, c, d);
  }

  lemma EnterAlive(program: Program, root: nat, b: nat, q: nat, a: nat)
    requires Live(program, root, b) && Hands(program, b, q, a) && a in program
    ensures Live(program, root, a) && Flows(program, a, 0) && HeadFlows(program, a, 0)
  {
    LiveHands(program, root, b, q, a);
    FlowStarts(program, a);
  }

  lemma TailAlive(program: Program, root: nat, c: Cpu, d: Cpu)
    requires Alive(program, root, c) && TailSite(program, program[c.fn], c.pc)
             && d.fn == CalleeAt(program, program[c.fn], c.pc) && d.pc == 0 && d.frames == c.frames
    ensures Alive(program, root, d)
  {
    EnterAlive(program, root, c.fn, c.pc, d.fn);
    forall i | 0 <= i < |d.frames| ensures WaitsAt(program, root, d, i) {
      assert WaitsAt(program, root, c, i);
      if i + 1 == |d.frames| {
        TailWaits(program, root, c, d, c.frames[i]);
      }
    }
  }

  lemma TailWaits(program: Program, root: nat, c: Cpu, d: Cpu, frame: Frame)
    requires c.fn in program && Flows(program, c.fn, c.pc) && Waits(program, root, frame, c.fn)
    requires TailSite(program, program[c.fn], c.pc) && d.fn == CalleeAt(program, program[c.fn], c.pc)
    ensures Waits(program, root, frame, d.fn)
  {
    if ComesBack(program, d.fn) {
      TailComesBack(program, c.fn, c.pc);
    }
  }

  lemma CallAlive(program: Program, root: nat, c: Cpu, d: Cpu)
    requires Alive(program, root, c) && CallSite(program, program[c.fn], c.pc)
             && d.fn == CalleeAt(program, program[c.fn], c.pc) && d.pc == 0
    requires |d.frames| == |c.frames| + 1 && d.frames[..|c.frames|] == c.frames
    requires d.frames[|c.frames|].fn == c.fn && d.frames[|c.frames|].pc == c.pc + 1
    ensures Alive(program, root, d)
  {
    EnterAlive(program, root, c.fn, c.pc, d.fn);
    var n := |c.frames|;
    forall i | 0 <= i < |d.frames| ensures WaitsAt(program, root, d, i) {
      if i < n {
        assert WaitsAt(program, root, c, i);
        assert d.frames[i] == d.frames[..n][i] && (i + 1 < n ==> d.frames[i + 1] == d.frames[..n][i + 1]);
        assert Inner(d, i) == Inner(c, i);
      }
    }
  }

  lemma ReturnAlive(program: Program, root: nat, c: Cpu, d: Cpu)
    requires Alive(program, root, c) && ReturnSite(program[c.fn], c.pc) && c.frames != []
    requires var last := |c.frames| - 1;
             d.frames == c.frames[..last] && d.fn == c.frames[last].fn && d.pc == c.frames[last].pc
    ensures Alive(program, root, d)
  {
    var last := |c.frames| - 1;
    assert WaitsAt(program, root, c, last);
    ReturnComesBack(program, c.fn, c.pc);
    ResumeFlows(program, root, c.frames[last], c.fn);
    forall i | 0 <= i < |d.frames| ensures WaitsAt(program, root, d, i) {
      assert WaitsAt(program, root, c, i);
      assert Inner(d, i) == Inner(c, i);
    }
  }

  lemma ResumeFlows(program: Program, root: nat, frame: Frame, inner: nat)
    requires Waits(program, root, frame, inner) && ComesBack(program, inner)
    ensures Flows(program, frame.fn, frame.pc) && HeadFlows(program, frame.fn, frame.pc)
  {
    FlowGoes(program, frame.fn, frame.pc - 1, frame.pc);
    AfterControl(program[frame.fn].code, frame.pc - 1);
    OutsideHead(program, frame.fn, frame.pc);
  }

  /** Every step that stays in the program follows the control flow. */
  lemma StepAlive(program: Program, root: nat, c: Cpu, n: Machine)
    requires Alive(program, root, c) && ProbesGuarded(program[c.fn].code) && Step(program, c, n) && n.Running?
    ensures Alive(program, root, n.cpu)
  {
    var f := program[c.fn];
    var op := f.code[c.pc];
    if op.Call? {
      CallAlive(program, root, c, n.cpu);
    } else if op.Return? {
      ReturnAlive(program, root, c, n.cpu);
    } else if op.Jump? || op.Branch? {
      if Jumps(program, f, op.target, c, n) {
        if InCode(f, op.target) {
          JumpAlive(program, root, c, n.cpu, op.target.local.value);
        } else {
          TailAlive(program, root, c, n.cpu);
        }
      } else {
        FallAlive(program, root, c, n.cpu);
      }
    } else {
      StraightAlive(program, root, c, n.cpu);
    }
  }

  lemma {:induction false} RunAlive(program: Program, root: nat, base: int, run: seq<Machine>, i: nat)
    requires root in program && Admissible(program, root, base) && Run(program, root, base, run) && i < |run|
    ensures run[i].Running? ==> Alive(program, root, run[i].cpu)
    decreases i
  {
    if i == 0 {
      RootIsLive(program, root);
      FlowStarts(program, root);
    } else {
      assert StepsAt(program, run, i);
      RunAlive(program, root, base, run, i - 1);
      if run[i].Running? {
        StepAlive(program, root, run[i - 1].cpu, run[i]);
      }
    }
  }
}
