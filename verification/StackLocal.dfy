/** The worklist analysis of one function: a single stack state for every reachable instruction. */
module StackLocal {
  import opened Outcome
  import opened StackCode

  const ENTRY: Point := Point(0, State(0, None))

  // ---- Control-flow paths ----------------------------------------------------------------

  ghost predicate Follows(program: Program, f: Function, a: Point, b: Point) {
    a.pc < |f.code| && Examine(program, f, a.pc, a.state).Ok?
      && b in Examine(program, f, a.pc, a.state).value.successors
  }

  ghost predicate StepAt(program: Program, f: Function, path: seq<Point>, i: int)
    requires 0 < i < |path|
  {
    Follows(program, f, path[i - 1], path[i])
  }

  /** A control-flow path from the function's entry, with the stack state folded along it. */
  ghost predicate Path(program: Program, f: Function, path: seq<Point>) {
    && |path| > 0 && path[0] == ENTRY
    && forall i {:trigger StepAt(program, f, path, i)} :: 0 < i < |path| ==> StepAt(program, f, path, i)
  }

  ghost predicate Reached(program: Program, f: Function, at: Point) {
    exists path :: Path(program, f, path) && path[|path| - 1] == at
  }

  /** No path meets an instruction the analysis rejects. */
  ghost predicate NeverRejected(program: Program, f: Function) {
    forall at :: Reached(program, f, at) ==> at.pc < |f.code| && Examine(program, f, at.pc, at.state).Ok?
  }

  /** All paths to an instruction fold to one state. */
  ghost predicate PathsAgree(program: Program, f: Function) {
    forall a, b :: Reached(program, f, a) && Reached(program, f, b) && a.pc == b.pc ==> a == b
  }

  lemma EntryReached(program: Program, f: Function)
    ensures Reached(program, f, ENTRY)
  {
    assert Path(program, f, [ENTRY]);
  }

  lemma ReachedStep(program: Program, f: Function, a: Point, b: Point)
    requires Reached(program, f, a) && Follows(program, f, a, b)
    ensures Reached(program, f, b)
  {
    var path :| Path(program, f, path) && path[|path| - 1] == a;
    var longer := path + [b];
    forall i | 0 < i < |longer| ensures StepAt(program, f, longer, i) {
      assert i < |path| ==> StepAt(program, f, path, i);
    }
    assert Path(program, f, longer);
  }

  // ---- Recorded states -------------------------------------------------------------------

  ghost predicate ClosedAt(program: Program, f: Function, states: map<nat, State>, pc: nat)
  {
    && pc in states && pc < |f.code| && Examine(program, f, pc, states[pc]).Ok?
    && forall b :: b in Examine(program, f, pc, states[pc]).value.successors ==>
       b.pc in states && states[b.pc] == b.state
  }

  /** One accepted state per instruction, closed under control flow from the entry. */
  ghost predicate Consistent(program: Program, f: Function, states: map<nat, State>) {
    && ENTRY.pc in states && states[ENTRY.pc] == ENTRY.state
    && forall pc {:trigger ClosedAt(program, f, states, pc)} :: pc in states ==> ClosedAt(program, f, states, pc)
  }

  /** Along every path, of any length, the folded state is the recorded one. */
  lemma {:induction false} PathIsRecorded(program: Program, f: Function, states: map<nat, State>,
                                          path: seq<Point>, i: nat)
    requires Consistent(program, f, states) && Path(program, f, path) && i < |path|
    ensures path[i].pc in states && states[path[i].pc] == path[i].state
    ensures path[i].pc < |f.code| && Examine(program, f, path[i].pc, path[i].state).Ok?
    decreases i
  {
    if i > 0 {
      PathIsRecorded(program, f, states, path, i - 1);
      assert ClosedAt(program, f, states, path[i - 1].pc);
      assert StepAt(program, f, path, i);
    }
    assert ClosedAt(program, f, states, path[i].pc);
  }

  lemma ConsistentIsExact(program: Program, f: Function, states: map<nat, State>)
    requires Consistent(program, f, states)
    ensures NeverRejected(program, f) && PathsAgree(program, f)
    ensures forall at :: Reached(program, f, at) ==> at.pc in states && states[at.pc] == at.state
  {
    forall at | Reached(program, f, at)
      ensures at.pc in states && states[at.pc] == at.state && at.pc < |f.code|
              && Examine(program, f, at.pc, at.state).Ok?
    {
      var path :| Path(program, f, path) && path[|path| - 1] == at;
      PathIsRecorded(program, f, states, path, |path| - 1);
    }
  }

  /** Every path that arrives at a return is at depth zero, and arrives nowhere above the entry. */
  lemma PathReturnsBalanced(program: Program, f: Function, states: map<nat, State>, path: seq<Point>, i: nat)
    requires Consistent(program, f, states) && Path(program, f, path) && i < |path|
    ensures path[i].pc < |f.code|
    ensures f.code[path[i].pc].Return? ==> path[i].state.depth == 0
    ensures path[i].state.depth >= 0
  {
    PathIsRecorded(program, f, states, path, i);
    if i > 0 {
      assert StepAt(program, f, path, i);
    }
  }

  // ---- What the analysis reports ---------------------------------------------------------

  datatype Local = Local(peak: int, maximumDepth: int, redZone: int, edges: seq<Edge>)

  const BLANK: Local := Local(0, 0, 0, [])

  function Include(l: Local, s: State, e: Examined): Local {
    Local(Max(Max(l.peak, e.memoryPeak), e.depth), Max(l.maximumDepth, e.depth),
          Max(l.redZone, e.memoryPeak - s.depth), l.edges + e.edges)
  }

  /** An instruction, the state before it and what examining it yields. */
  ghost predicate Observed(program: Program, f: Function, states: map<nat, State>, pc: nat, e: Examined) {
    pc in states && pc < |f.code| && Examine(program, f, pc, states[pc]) == Ok(e)
  }

  ghost predicate Covers(l: Local, s: State, e: Examined) {
    && e.memoryPeak <= l.peak && e.depth <= l.peak && e.depth <= l.maximumDepth
    && e.memoryPeak - s.depth <= l.redZone
    && forall edge :: edge in e.edges ==> edge in l.edges
  }

  ghost predicate AllCovered(program: Program, f: Function, states: map<nat, State>, done: set<nat>, l: Local) {
    forall pc, e :: pc in done && Observed(program, f, states, pc, e) ==> Covers(l, states[pc], e)
  }

  ghost predicate PeakAttained(program: Program, f: Function, states: map<nat, State>, done: set<nat>, peak: int) {
    peak == 0 || exists pc, e :: pc in done && Observed(program, f, states, pc, e) && peak == Max(e.memoryPeak, e.depth)
  }

  ghost predicate DepthAttained(program: Program, f: Function, states: map<nat, State>, done: set<nat>, depth: int) {
    depth == 0 || exists pc, e :: pc in done && Observed(program, f, states, pc, e) && depth == e.depth
  }

  ghost predicate ZoneAttained(program: Program, f: Function, states: map<nat, State>, done: set<nat>, zone: int) {
    zone == 0 || exists pc, e ::
        pc in done && Observed(program, f, states, pc, e) && zone == e.memoryPeak - states[pc].depth
  }

  ghost predicate EdgeFound(program: Program, f: Function, states: map<nat, State>, done: set<nat>, edge: Edge) {
    exists pc, e :: pc in done && Observed(program, f, states, pc, e) && edge in e.edges
  }

  /** The report covers every instruction of `done`, and nothing in it is without such an instruction. */
  ghost predicate Reports(program: Program, f: Function, states: map<nat, State>, done: set<nat>, l: Local) {
    && l.peak >= 0 && l.maximumDepth >= 0 && l.redZone >= 0
    && AllCovered(program, f, states, done, l) && PeakAttained(program, f, states, done, l.peak)
    && DepthAttained(program, f, states, done, l.maximumDepth) && ZoneAttained(program, f, states, done, l.redZone)
    && forall edge {:trigger EdgeFound(program, f, states, done, edge)} ::
         edge in l.edges ==> EdgeFound(program, f, states, done, edge)
  }

  /** Recording more states leaves the report of the finished ones true. */
  lemma ReportsMore(program: Program, f: Function, states: map<nat, State>, more: map<nat, State>,
                    done: set<nat>, l: Local)
    requires Reports(program, f, states, done, l)
    requires forall pc :: pc in states ==> pc in more && more[pc] == states[pc]
    requires forall pc :: pc in done ==> pc in states
    ensures Reports(program, f, more, done, l)
  {
    assert forall pc, e :: pc in done ==> (Observed(program, f, states, pc, e) <==> Observed(program, f, more, pc, e));
    forall edge | edge in l.edges ensures EdgeFound(program, f, more, done, edge) {
      assert EdgeFound(program, f, states, done, edge);
    }
  }

  lemma ReportsNext(program: Program, f: Function, states: map<nat, State>, done: set<nat>, l: Local,
                    pc: nat, e: Examined)
    requires Reports(program, f, states, done, l) && Observed(program, f, states, pc, e)
    ensures Reports(program, f, states, done + {pc}, Include(l, states[pc], e))
  {
    var l', done' := Include(l, states[pc], e), done + {pc};
    CoveredNext(program, f, states, done, l, pc, e);
    AttainedNext(program, f, states, done, l, pc, e);
    forall edge | edge in l'.edges ensures EdgeFound(program, f, states, done', edge) {
      EdgeFoundNext(program, f, states, done, l, pc, e, edge);
    }
  }

  lemma CoveredNext(program: Program, f: Function, states: map<nat, State>, done: set<nat>, l: Local,
                    pc: nat, e: Examined)
    requires AllCovered(program, f, states, done, l) && Observed(program, f, states, pc, e)
    ensures AllCovered(program, f, states, done + {pc}, Include(l, states[pc], e))
  {
    var l' := Include(l, states[pc], e);
    forall q, d | q in done + {pc} && Observed(program, f, states, q, d) ensures Covers(l', states[q], d) {
      if q in done {
        assert Covers(l, states[q], d);
      }
    }
  }

  lemma AttainedNext(program: Program, f: Function, states: map<nat, State>, done: set<nat>, l: Local,
                     pc: nat, e: Examined)
    requires Reports(program, f, states, done, l) && Observed(program, f, states, pc, e)
    ensures var l', done' := Include(l, states[pc], e), done + {pc};
            && PeakAttained(program, f, states, done', l'.peak)
            && DepthAttained(program, f, states, done', l'.maximumDepth)
            && ZoneAttained(program, f, states, done', l'.redZone)
  {
    assert pc in done + {pc} && Observed(program, f, states, pc, e);
    assert forall q :: q in done ==> q in done + {pc};
  }

  lemma EdgeFoundNext(program: Program, f: Function, states: map<nat, State>, done: set<nat>, l: Local, pc: nat,
                      e: Examined, edge: Edge)
    requires Reports(program, f, states, done, l) && Observed(program, f, states, pc, e) && edge in l.edges + e.edges
    ensures EdgeFound(program, f, states, done + {pc}, edge)
  {
    if edge in l.edges {
      assert EdgeFound(program, f, states, done, edge);
      var q, d :| q in done && Observed(program, f, states, q, d) && edge in d.edges;
      assert q in done + {pc};
    } else {
      assert pc in done + {pc};
    }
  }

  // ---- The worklist ----------------------------------------------------------------------

  ghost predicate NoRepeats(s: seq<nat>) { forall i, j :: 0 <= i < j < |s| ==> s[i] != s[j] }

  lemma SuccessorsInCode(program: Program, f: Function, pc: nat, s: State)
    requires pc < |f.code|
    ensures Examine(program, f, pc, s).Ok? ==>
              forall b :: b in Examine(program, f, pc, s).value.successors ==> b.pc < |f.code|
  {
  }

  /** Where two different states meet at one instruction. */
  ghost predicate Clash(states: map<nat, State>, successors: seq<Point>) {
    exists i: nat, v: State :: i < |successors| && v != successors[i].state
      && ((successors[i].pc in states && states[successors[i].pc] == v) || Point(successors[i].pc, v) in successors)
  }

  /** A recorded state that a successor contradicts was there before or comes from another successor. */
  lemma ClashAt(before: map<nat, State>, states: map<nat, State>, successors: seq<Point>, i: nat)
    requires i < |successors| && successors[i].pc in states && states[successors[i].pc] != successors[i].state
    requires forall pc :: pc in before ==> pc in states && states[pc] == before[pc]
    requires forall pc :: pc in states && pc !in before ==> Point(pc, states[pc]) in successors
    ensures Clash(before, successors)
  {
    var v := states[successors[i].pc];
    assert (successors[i].pc in before && before[successors[i].pc] == v) || Point(successors[i].pc, v) in successors;
  }

  /** Records the successors' states and queues the newly met instructions. */
  method Merge(before: map<nat, State>, queue: seq<nat>, successors: seq<Point>)
    returns (clash: bool, states: map<nat, State>, work: seq<nat>)
    requires NoRepeats(queue) && forall pc :: pc in queue ==> pc in before
    ensures clash ==> Clash(before, successors)
    ensures !clash ==> forall b :: b in successors ==> b.pc in states && states[b.pc] == b.state
    ensures forall pc :: pc in before ==> pc in states && states[pc] == before[pc]
    ensures forall pc :: pc in states && pc !in before ==> Point(pc, states[pc]) in successors
    ensures NoRepeats(work) && forall pc :: pc in work <==> pc in queue || (pc in states && pc !in before)
  {
    states, work, clash := before, queue, false;
    for i := 0 to |successors|
      invariant !clash
      invariant forall b :: b in successors[..i] ==> b.pc in states && states[b.pc] == b.state
      invariant forall pc :: pc in before ==> pc in states && states[pc] == before[pc]
      invariant forall pc :: pc in states && pc !in before ==> Point(pc, states[pc]) in successors
      invariant NoRepeats(work) && forall pc :: pc in work <==> pc in queue || (pc in states && pc !in before)
    {
      var Point(target, after) := successors[i];
      if target !in states {
        states := states[target := after];
        work := work + [target];
      } else if states[target] != after {
        ClashAt(before, states, successors, i);
        clash := true;
        return;
      }
    }
  }

  /** The loop's state: what is recorded, what is queued and what is finished. */
  ghost predicate Working(program: Program, f: Function, states: map<nat, State>, work: seq<nat>, done: set<nat>) {
    && ENTRY.pc in states && states[ENTRY.pc] == ENTRY.state
    && NoRepeats(work)
    && (forall pc :: pc in states <==> pc in work || pc in done)
    && (forall pc :: pc in work ==> pc !in done)
    && (forall pc :: pc in states ==> pc < |f.code| && Reached(program, f, Point(pc, states[pc])))
    && (forall pc {:trigger ClosedAt(program, f, states, pc)} :: pc in done ==> ClosedAt(program, f, states, pc))
  }

  lemma DoneFits(done: set<nat>, bound: nat)
    requires forall pc :: pc in done ==> pc < bound
    ensures |done| <= bound
  {
    if bound == 0 {
      assert done == {};
    } else {
      DoneFits(done - {bound - 1}, bound - 1);
      assert |done| <= |done - {bound - 1}| + 1;
    }
  }

  lemma WorkingNext(program: Program, f: Function, states: map<nat, State>, work: seq<nat>, done: set<nat>,
                    states': map<nat, State>, work': seq<nat>, pc: nat, e: Examined)
    requires Working(program, f, states, work + [pc], done)
    requires Observed(program, f, states, pc, e)
    requires forall b :: b in e.successors ==> b.pc in states' && states'[b.pc] == b.state
    requires forall q :: q in states ==> q in states' && states'[q] == states[q]
    requires forall q :: q in states' && q !in states ==> Point(q, states'[q]) in e.successors
    requires NoRepeats(work') && forall q :: q in work' <==> q in work || (q in states' && q !in states)
    ensures Working(program, f, states', work', done + {pc})
  {
    var queue := work + [pc];
    assert pc == queue[|work|] && forall i :: 0 <= i < |work| ==> work[i] == queue[i];
    SuccessorsInCode(program, f, pc, states[pc]);
    forall q | q in states' ensures q < |f.code| && Reached(program, f, Point(q, states'[q])) {
      if q !in states {
        ReachedStep(program, f, Point(pc, states[pc]), Point(q, states'[q]));
      }
    }
    forall q | q in done + {pc} ensures q in states' && ClosedAt(program, f, states', q) {
      if q != pc {
        assert ClosedAt(program, f, states, q);
      }
    }
  }

  /** A function the analysis has to reject, and for which reason. */
  ghost predicate Justifies(program: Program, f: Function, failure: ProofFailure) {
    if failure.RecursiveCallChain? || failure.StackLimitExceeded? then false
    else if failure.MissingDisassembly? then f.code == []
    else if failure.InconsistentStackMerge? then f.code != [] && !PathsAgree(program, f)
    else if failure.StackMetadataMismatch? then
      f.code != [] && NeverRejected(program, f) && PathsAgree(program, f) && MetadataExceeds(program, f)
    else f.code != [] && exists at :: Reached(program, f, at) && RejectedAt(program, f, at, failure)
  }

  ghost predicate RejectedAt(program: Program, f: Function, at: Point, failure: ProofFailure) {
    at.pc < |f.code| && Examine(program, f, at.pc, at.state) == Err(failure)
  }

  /** The compiler's frame size is more than any path of the function takes. */
  ghost predicate MetadataExceeds(program: Program, f: Function) {
    f.metadata.Some? && forall at :: Reached(program, f, at) ==> ShallowAt(program, f, at, f.metadata.value)
  }

  ghost predicate ShallowAt(program: Program, f: Function, at: Point, bound: int) {
    at.pc < |f.code| && Examine(program, f, at.pc, at.state).Ok?
      && Examine(program, f, at.pc, at.state).value.depth < bound
  }

  ghost predicate AllReached(program: Program, f: Function, states: map<nat, State>) {
    forall pc :: pc in states ==> Reached(program, f, Point(pc, states[pc]))
  }

  /** What a successful analysis establishes. */
  ghost predicate Analysed(program: Program, f: Function, states: map<nat, State>, l: Local) {
    && f.code != [] && Consistent(program, f, states)
    && AllReached(program, f, states) && Reports(program, f, states, states.Keys, l)
    && (f.metadata.Some? ==> f.metadata.value <= l.maximumDepth)
  }

  lemma ClashIsReached(program: Program, f: Function, states: map<nat, State>, pc: nat, e: Examined)
    requires Observed(program, f, states, pc, e) && Clash(states, e.successors)
    requires forall q :: q in states ==> Reached(program, f, Point(q, states[q]))
    ensures Justifies(program, f, InconsistentStackMerge)
  {
    var i: nat, v: State :| i < |e.successors| && v != e.successors[i].state
      && ((e.successors[i].pc in states && states[e.successors[i].pc] == v)
          || Point(e.successors[i].pc, v) in e.successors);
    var here := Point(pc, states[pc]);
    var there := e.successors[i];
    ReachedStep(program, f, here, there);
    if Point(there.pc, v) in e.successors {
      ReachedStep(program, f, here, Point(there.pc, v));
    }
    assert Reached(program, f, Point(there.pc, v));
  }

  lemma ExamineErrors(program: Program, f: Function, pc: nat, s: State)
    requires pc < |f.code|
    ensures var r := Examine(program, f, pc, s);
      r.Err? ==> r.error in {DynamicStackAdjustment, UnbalancedStack, UnresolvedControlEdge, UnrestoredTailCall,
                             UnterminatedFunction}
  {
  }

  lemma MetadataTooLarge(program: Program, f: Function, states: map<nat, State>, l: Local)
    requires Consistent(program, f, states) && Reports(program, f, states, states.Keys, l)
    requires f.metadata.Some? && f.metadata.value > l.maximumDepth
    ensures MetadataExceeds(program, f)
  {
    ConsistentIsExact(program, f, states);
    forall at | Reached(program, f, at) ensures ShallowAt(program, f, at, f.metadata.value) {
      assert Observed(program, f, states, at.pc, Examine(program, f, at.pc, at.state).value);
    }
  }

  lemma MetadataFits(program: Program, f: Function, states: map<nat, State>, depth: int)
    requires Consistent(program, f, states) && AllReached(program, f, states)
             && DepthAttained(program, f, states, states.Keys, depth)
    requires f.metadata.Some? ==> f.metadata.value <= depth
    ensures !MetadataExceeds(program, f)
  {
    EntryReached(program, f);
    if f.metadata.Some? {
      var deepest := DeepestPoint(program, f, states, depth);
      assert Reached(program, f, deepest) && !ShallowAt(program, f, deepest, f.metadata.value);
    }
  }

  /** A reached instruction that takes the reported depth. */
  lemma DeepestPoint(program: Program, f: Function, states: map<nat, State>, depth: int) returns (at: Point)
    requires Consistent(program, f, states) && AllReached(program, f, states)
             && DepthAttained(program, f, states, states.Keys, depth)
    ensures Reached(program, f, at) && !ShallowAt(program, f, at, depth)
  {
    if depth == 0 {
      EntryReached(program, f);
      at := ENTRY;
      assert ClosedAt(program, f, states, 0);
    } else {
      var pc, e :| pc in states.Keys && Observed(program, f, states, pc, e) && depth == e.depth;
      at := Point(pc, states[pc]);
    }
  }

  lemma Finished(program: Program, f: Function, states: map<nat, State>, done: set<nat>)
    requires Working(program, f, states, [], done)
    ensures done == states.Keys && AllReached(program, f, states) && Consistent(program, f, states)
    ensures NeverRejected(program, f) && PathsAgree(program, f)
  {
    ConsistentIsExact(program, f, states);
  }

  lemma RejectedIsJustified(program: Program, f: Function, states: map<nat, State>, work: seq<nat>,
                            done: set<nat>, pc: nat)
    requires Working(program, f, states, work, done) && pc in states
    requires pc < |f.code| && Examine(program, f, pc, states[pc]).Err?
    ensures Justifies(program, f, Examine(program, f, pc, states[pc]).error)
  {
    ExamineErrors(program, f, pc, states[pc]);
    assert RejectedAt(program, f, Point(pc, states[pc]), Examine(program, f, pc, states[pc]).error);
  }

  lemma QueueSplits(program: Program, f: Function, states: map<nat, State>, work: seq<nat>, done: set<nat>)
    requires Working(program, f, states, work, done) && work != []
    ensures var last := work[|work| - 1]; var rest := work[..|work| - 1];
      && last in states && last < |f.code| && work == rest + [last] && last !in done
      && NoRepeats(rest) && (forall pc :: pc in rest ==> pc in states) && |done| < |f.code|
  {
    var last := work[|work| - 1];
    assert last in work;
    DoneFits(done + {last}, |f.code|);
  }

  /** `_local_analysis`. */
  method LocalAnalysis(program: Program, f: Function)
    returns (r: Result<Local, ProofFailure>, ghost recorded: map<nat, State>)
    ensures r.Ok? ==> Analysed(program, f, recorded, r.value)
    ensures r.Err? ==> Justifies(program, f, r.error)
  {
    recorded := map[];
    if f.code == [] {
      return Err(MissingDisassembly), recorded;
    }
    var states, work, l := map[0 := State(0, None)], [0], BLANK;
    ghost var done: set<nat> := {};
    EntryReached(program, f);
    while work != []
      invariant Working(program, f, states, work, done)
      invariant Reports(program, f, states, done, l)
      decreases |f.code| - |done|
    {
      QueueSplits(program, f, states, work, done);
      var pc := work[|work| - 1];
      work := work[..|work| - 1];
      var state := states[pc];
      var examined := Examine(program, f, pc, state);
      if examined.Err? {
        RejectedIsJustified(program, f, states, work + [pc], done, pc);
        return Err(examined.error), recorded;
      }
      var e := examined.value;
      ReportsNext(program, f, states, done, l, pc, e);
      l := Include(l, state, e);
      var clash, states', work' := Merge(states, work, e.successors);
      if clash {
        ClashIsReached(program, f, states, pc, e);
        return Err(InconsistentStackMerge), recorded;
      }
      WorkingNext(program, f, states, work, done, states', work', pc, e);
      ReportsMore(program, f, states, states', done + {pc}, l);
      states, work, done := states', work', done + {pc};
    }
    Finished(program, f, states, done);
    recorded := states;
    if f.metadata.Some? && f.metadata.value > l.maximumDepth {
      MetadataTooLarge(program, f, states, l);
      return Err(StackMetadataMismatch), recorded;
    }
    r := Ok(l);
  }

  /** The analysis accepts a function or names a reason, never both: acceptance is decided by the paths alone. */
  lemma AnalysedIsNotRejected(program: Program, f: Function, states: map<nat, State>, l: Local, failure: ProofFailure)
    requires Analysed(program, f, states, l)
    ensures !Justifies(program, f, failure)
  {
    ConsistentIsExact(program, f, states);
    MetadataFits(program, f, states, l.maximumDepth);
  }

  lemma RecordedBelow(program: Program, f: Function, s: map<nat, State>, t: map<nat, State>)
    requires AllReached(program, f, s) && Consistent(program, f, t)
    ensures forall pc :: pc in s ==> pc in t && t[pc] == s[pc]
  {
    ConsistentIsExact(program, f, t);
    forall pc | pc in s ensures pc in t && t[pc] == s[pc] {
      assert Reached(program, f, Point(pc, s[pc]));
    }
  }

  /** Two successful analyses of a function record the same states and report the same bounds and edges. */
  lemma AnalysisIsDetermined(program: Program, f: Function, s: map<nat, State>, t: map<nat, State>, l: Local, m: Local)
    requires Analysed(program, f, s, l) && Analysed(program, f, t, m)
    ensures s == t
    ensures l.peak == m.peak && l.maximumDepth == m.maximumDepth && l.redZone == m.redZone
    ensures forall edge :: edge in l.edges <==> edge in m.edges
  {
    SameRecord(program, f, s, t);
    ReportBelow(program, f, s, l, m);
    ReportBelow(program, f, s, m, l);
  }

  lemma SameRecord(program: Program, f: Function, s: map<nat, State>, t: map<nat, State>)
    requires AllReached(program, f, s) && Consistent(program, f, s) && AllReached(program, f, t)
             && Consistent(program, f, t)
    ensures s == t
  {
    RecordedBelow(program, f, s, t);
    RecordedBelow(program, f, t, s);
  }

  lemma ReportBelow(program: Program, f: Function, s: map<nat, State>, l: Local, m: Local)
    requires Reports(program, f, s, s.Keys, l) && Reports(program, f, s, s.Keys, m)
    ensures l.peak <= m.peak && l.maximumDepth <= m.maximumDepth && l.redZone <= m.redZone
    ensures forall edge :: edge in l.edges ==> edge in m.edges
  {
    assert forall pc, e :: Observed(program, f, s, pc, e) ==> pc in s.Keys && Covers(m, s[pc], e);
    forall edge | edge in l.edges ensures edge in m.edges {
      assert EdgeFound(program, f, s, s.Keys, edge);
    }
  }

  lemma ReportedEdge(program: Program, f: Function, states: map<nat, State>, l: Local, edge: Edge)
    requires Reports(program, f, states, states.Keys, l) && edge in l.edges
    ensures edge.target in program
    ensures edge.source in states && edge.source < |f.code|
  {
    assert EdgeFound(program, f, states, states.Keys, edge);
    var pc, e :| pc in states.Keys && Observed(program, f, states, pc, e) && edge in e.edges;
    ExaminedEdge(program, f, pc, states[pc], edge);
  }

  lemma ExaminedEdge(program: Program, f: Function, pc: nat, s: State, edge: Edge)
    requires pc < |f.code| && Examine(program, f, pc, s).Ok? && edge in Examine(program, f, pc, s).value.edges
    ensures edge.target in program && edge.source == pc
  {
  }
}
