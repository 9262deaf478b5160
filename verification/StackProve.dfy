/** The memoised walk over the call graph that adds frames into one bound for the whole program. */
module StackProve {
  import opened Outcome
  import opened StackCode
  import opened StackLocal

  const WORKING_STACK_LIMIT: int := 108 * 1024

  /** The functions analysed so far, each with its own figures and outgoing edges. */
  type Graph = map<nat, Local>

  /** Bytes a caller keeps below its own entry while the callee runs, the return address included. */
  function Cost(e: Edge): int { if e.kind.TailEdge? then 0 else e.depth + 8 }

  // ---- Call chains -----------------------------------------------------------------------

  /** One line of the reported chain: a function, its local figures and the edge taken out of it. */
  datatype Link = Link(address: nat, local: Local, via: Option<Edge>)

  /** A chain of control edges starting in `a` whose costs and final local peak add up to `total`. */
  ghost predicate IsWitness(graph: Graph, chain: seq<Link>, a: nat, total: int)
    decreases |chain|
  {
    && |chain| > 0 && chain[0].address == a && a in graph && chain[0].local == graph[a]
    && match chain[0].via
       case None => |chain| == 1 && total == graph[a].peak
       case Some(e) => e in graph[a].edges && IsWitness(graph, chain[1..], e.target, total - Cost(e))
  }

  ghost predicate CallsTo(graph: Graph, a: nat, b: nat) {
    a in graph && exists e :: e in graph[a].edges && e.target == b
  }

  ghost predicate LinkedAt(graph: Graph, chain: seq<nat>, i: int)
    requires 0 < i < |chain|
  {
    CallsTo(graph, chain[i - 1], chain[i])
  }

  ghost predicate Linked(graph: Graph, chain: seq<nat>) {
    forall i {:trigger LinkedAt(graph, chain, i)} :: 0 < i < |chain| ==> LinkedAt(graph, chain, i)
  }

  ghost predicate Connects(graph: Graph, chain: seq<nat>, a: nat, b: nat) {
    |chain| > 0 && chain[0] == a && chain[|chain| - 1] == b && Linked(graph, chain)
  }

  /** `b` is reached from `a` by calls and tail jumps. */
  ghost predicate Called(graph: Graph, a: nat, b: nat) {
    exists chain :: Connects(graph, chain, a, b)
  }

  ghost predicate Cycle(graph: Graph, c: seq<nat>) {
    |c| >= 2 && Connects(graph, c, c[0], c[0])
  }

  lemma LinkedExtends(graph: Graph, chain: seq<nat>, b: nat)
    requires Linked(graph, chain) && (chain != [] ==> CallsTo(graph, chain[|chain| - 1], b))
    ensures Linked(graph, chain + [b])
  {
    var longer := chain + [b];
    forall i | 0 < i < |longer| ensures LinkedAt(graph, longer, i) {
      assert i < |chain| ==> LinkedAt(graph, chain, i);
    }
  }

  lemma LinkedSlice(graph: Graph, chain: seq<nat>, from: nat, upTo: nat)
    requires Linked(graph, chain) && from <= upTo <= |chain|
    ensures Linked(graph, chain[from..upTo])
  {
    var slice := chain[from..upTo];
    forall i | 0 < i < |slice| ensures LinkedAt(graph, slice, i) {
      assert LinkedAt(graph, chain, from + i);
    }
  }

  // ---- Growth of the graph ---------------------------------------------------------------

  ghost predicate Extends(graph: Graph, larger: Graph) {
    forall a :: a in graph ==> a in larger && larger[a] == graph[a]
  }

  lemma LinkedLarger(graph: Graph, larger: Graph, chain: seq<nat>)
    requires Extends(graph, larger) && Linked(graph, chain)
    ensures Linked(larger, chain)
  {
    forall i | 0 < i < |chain| ensures LinkedAt(larger, chain, i) {
      assert LinkedAt(graph, chain, i);
    }
  }

  lemma {:induction false} WitnessLarger(graph: Graph, larger: Graph, chain: seq<Link>, a: nat, total: int)
    requires Extends(graph, larger) && IsWitness(graph, chain, a, total)
    ensures IsWitness(larger, chain, a, total)
    decreases |chain|
  {
    if chain[0].via.Some? {
      WitnessLarger(graph, larger, chain[1..], chain[0].via.value.target, total - Cost(chain[0].via.value));
    }
  }

  // ---- Settled functions -----------------------------------------------------------------

  datatype Total = Total(maximum: int, links: seq<Link>)

  ghost predicate EdgeBelow(totals: map<nat, Total>, rank: map<nat, nat>, a: nat, e: Edge) {
    && a in totals && e.target in totals && Cost(e) + totals[e.target].maximum <= totals[a].maximum
    && a in rank && e.target in rank && rank[e.target] < rank[a]
  }

  /** The bound of `a` covers its own peak and every edge out of it, and is attained by its chain. */
  ghost predicate SettledAt(graph: Graph, totals: map<nat, Total>, rank: map<nat, nat>, a: nat) {
    && a in graph && a in totals && a in rank && rank[a] < |totals|
    && IsWitness(graph, totals[a].links, a, totals[a].maximum)
    && graph[a].peak <= totals[a].maximum
    && forall e :: e in graph[a].edges ==> EdgeBelow(totals, rank, a, e)
  }

  ghost predicate Settled(graph: Graph, totals: map<nat, Total>, rank: map<nat, nat>) {
    forall a {:trigger SettledAt(graph, totals, rank, a)} :: a in totals ==> SettledAt(graph, totals, rank, a)
  }

  /** `a` was settled after every other function. */
  ghost predicate Highest(totals: map<nat, Total>, rank: map<nat, nat>, a: nat) {
    a in totals && a in rank && forall b :: b in totals && b != a ==> b in rank && rank[b] < rank[a]
  }

  lemma SettledLarger(graph: Graph, larger: Graph, totals: map<nat, Total>, rank: map<nat, nat>)
    requires Extends(graph, larger) && Settled(graph, totals, rank)
    ensures Settled(larger, totals, rank)
  {
    forall a | a in totals ensures SettledAt(larger, totals, rank, a) {
      assert SettledAt(graph, totals, rank, a);
      WitnessLarger(graph, larger, totals[a].links, a, totals[a].maximum);
    }
  }

  ghost predicate Capped(totals: map<nat, Total>, e: Edge, bound: int) {
    e.target in totals && Cost(e) + totals[e.target].maximum <= bound
  }

  /** The first `n` edges are settled and within the bound. */
  ghost predicate CappedUpTo(totals: map<nat, Total>, edges: seq<Edge>, n: int, bound: int) {
    n <= |edges| && forall j {:trigger edges[j]} :: 0 <= j < n ==> Capped(totals, edges[j], bound)
  }

  lemma CappedNext(totals: map<nat, Total>, totals': map<nat, Total>, edges: seq<Edge>, n: nat, bound: int, bound': int)
    requires CappedUpTo(totals, edges, n, bound) && n < |edges| && bound <= bound'
    requires Kept(totals, totals') && Capped(totals', edges[n], bound')
    ensures CappedUpTo(totals', edges, n + 1, bound')
  {
  }

  ghost predicate Kept(totals: map<nat, Total>, totals': map<nat, Total>) {
    forall a :: a in totals ==> a in totals' && totals'[a] == totals[a]
  }

  lemma WitnessPrepend(graph: Graph, totals: map<nat, Total>, rank: map<nat, nat>, a: nat, e: Edge)
    requires Settled(graph, totals, rank) && a in graph && e in graph[a].edges && e.target in totals
    ensures IsWitness(graph, [Link(a, graph[a], Some(e))] + totals[e.target].links, a,
                      Cost(e) + totals[e.target].maximum)
  {
    assert SettledAt(graph, totals, rank, e.target);
    assert ([Link(a, graph[a], Some(e))] + totals[e.target].links)[1..] == totals[e.target].links;
  }

  /** The largest candidate among the function's own peak and its first `n` edges. */
  ghost predicate Best(graph: Graph, totals: map<nat, Total>, a: nat, n: int, t: Total) {
    && a in graph && IsWitness(graph, t.links, a, t.maximum) && graph[a].peak <= t.maximum
    && CappedUpTo(totals, graph[a].edges, n, t.maximum)
  }

  lemma BestNext(graph: Graph, graph': Graph, totals: map<nat, Total>, totals': map<nat, Total>, rank: map<nat, nat>,
                 a: nat, n: nat, t: Total, t': Total)
    requires Best(graph, totals, a, n, t) && n < |graph[a].edges|
    requires Extends(graph, graph') && Kept(totals, totals') && Settled(graph', totals', rank)
    requires graph[a].edges[n].target in totals'
    requires var e := graph[a].edges[n]; var child := totals'[e.target];
      t' == if Cost(e) + child.maximum > t.maximum
            then Total(Cost(e) + child.maximum, [Link(a, graph[a], Some(e))] + child.links) else t
    ensures Best(graph', totals', a, n + 1, t')
  {
    WitnessLarger(graph, graph', t.links, a, t.maximum);
    WitnessPrepend(graph', totals', rank, a, graph[a].edges[n]);
    CappedNext(totals, totals', graph[a].edges, n, t.maximum, t'.maximum);
  }

  /** Settling one more function keeps the settled ones. */
  lemma SettleNext(graph: Graph, totals: map<nat, Total>, rank: map<nat, nat>, a: nat, t: Total)
    requires Settled(graph, totals, rank) && a !in totals && a in graph
    requires Best(graph, totals, a, |graph[a].edges|, t)
    ensures Settled(graph, totals[a := t], rank[a := |totals|])
    ensures Highest(totals[a := t], rank[a := |totals|], a)
  {
    var totals', rank' := totals[a := t], rank[a := |totals|];
    assert |totals'| == |totals| + 1;
    forall b | b in totals ensures b in rank && rank[b] < |totals| {
      assert SettledAt(graph, totals, rank, b);
    }
    forall b | b in totals' ensures SettledAt(graph, totals', rank', b) {
      if b != a {
        assert SettledAt(graph, totals, rank, b);
        assert forall e :: e in graph[b].edges ==> EdgeBelow(totals, rank, b, e);
      } else {
        assert forall e :: e in graph[a].edges ==> Capped(totals, e, t.maximum);
      }
    }
  }

  /** Equal local figures wherever both graphs have a function. */
  ghost predicate Agree(graph: Graph, other: Graph) {
    forall a :: a in graph && a in other ==>
      graph[a].peak == other[a].peak && forall e :: e in graph[a].edges <==> e in other[a].edges
  }

  /** Every call chain stays within the settled bound of the function it starts in. */
  lemma {:induction false} ChainBounded(graph: Graph, totals: map<nat, Total>, rank: map<nat, nat>,
                                        other: Graph, chain: seq<Link>, a: nat, total: int)
    requires Settled(graph, totals, rank) && Agree(graph, other) && a in totals && IsWitness(other, chain, a, total)
    ensures total <= totals[a].maximum
    decreases |chain|
  {
    assert SettledAt(graph, totals, rank, a);
    match chain[0].via
    case None =>
    case Some(e) =>
      assert EdgeBelow(totals, rank, a, e);
      ChainBounded(graph, totals, rank, other, chain[1..], e.target, total - Cost(e));
  }

  /** Along every call chain from a settled function the ranks go strictly down. */
  lemma {:induction false} ChainDescends(graph: Graph, totals: map<nat, Total>, rank: map<nat, nat>,
                                         other: Graph, chain: seq<nat>, i: nat)
    requires Settled(graph, totals, rank) && Agree(graph, other) && Linked(other, chain) && i < |chain|
             && chain[0] in totals
    ensures chain[i] in totals && chain[i] in rank && chain[0] in rank && rank[chain[i]] + i <= rank[chain[0]]
    decreases i
  {
    assert SettledAt(graph, totals, rank, chain[0]);
    if i > 0 {
      ChainDescends(graph, totals, rank, other, chain, i - 1);
      assert LinkedAt(other, chain, i);
      var e :| e in other[chain[i - 1]].edges && e.target == chain[i];
      assert SettledAt(graph, totals, rank, chain[i - 1]);
      assert EdgeBelow(totals, rank, chain[i - 1], e);
    }
  }

  // ---- The graph of a program ------------------------------------------------------------

  ghost predicate DescribedAt(program: Program, graph: Graph, a: nat) {
    a in graph && a in program && exists states :: Analysed(program, program[a], states, graph[a])
  }

  /** Every entry is what the local analysis of that function establishes. */
  ghost predicate Describes(program: Program, graph: Graph) {
    forall a {:trigger DescribedAt(program, graph, a)} :: a in graph ==> DescribedAt(program, graph, a)
  }

  lemma DescribedAgree(program: Program, graph: Graph, other: Graph, a: nat)
    requires DescribedAt(program, graph, a) && DescribedAt(program, other, a)
    ensures graph[a].peak == other[a].peak && forall e :: e in graph[a].edges <==> e in other[a].edges
  {
    var s :| Analysed(program, program[a], s, graph[a]);
    var t :| Analysed(program, program[a], t, other[a]);
    AnalysisIsDetermined(program, program[a], s, t, graph[a], other[a]);
  }

  lemma GraphIsDetermined(program: Program, graph: Graph, other: Graph)
    requires Describes(program, graph) && Describes(program, other)
    ensures Agree(graph, other)
  {
    forall a | a in graph && a in other
      ensures graph[a].peak == other[a].peak && forall e :: e in graph[a].edges <==> e in other[a].edges
    {
      DescribedAgree(program, graph, other, a);
    }
  }

  /** Edges found by the local analysis lead to functions of the program. */
  lemma EdgeInProgram(program: Program, graph: Graph, a: nat, e: Edge)
    requires Describes(program, graph) && a in graph && e in graph[a].edges
    ensures e.target in program
  {
    assert DescribedAt(program, graph, a);
    var states :| Analysed(program, program[a], states, graph[a]);
    ReportedEdge(program, program[a], states, graph[a], e);
  }

  /** Why a program may be rejected. */
  ghost predicate Refuted(program: Program, root: nat, failure: ProofFailure) {
    exists graph :: Describes(program, graph) && RefutedBy(program, graph, root, failure)
  }

  ghost predicate RefutedBy(program: Program, graph: Graph, root: nat, failure: ProofFailure) {
    match failure
    case RecursiveCallChain(cycle) => Cycle(graph, cycle) && Called(graph, root, cycle[0])
    case StackLimitExceeded => exists chain, total ::
                                 IsWitness(graph, chain, root, total) && total > WORKING_STACK_LIMIT
    case _ => exists a :: a in program && Called(graph, root, a) && Justifies(program, program[a], failure)
  }

  /** The final tables: exactly the functions reached from the root are settled, the root last. */
  ghost predicate Established(program: Program, root: nat, graph: Graph, totals: map<nat, Total>, rank: map<nat, nat>) {
    && Describes(program, graph) && Settled(graph, totals, rank) && Highest(totals, rank, root)
    && forall a {:trigger Called(graph, root, a)} :: a in totals <==> Called(graph, root, a)
  }

  /** The root is nobody's callee. */
  lemma RootIsNoTarget(program: Program, root: nat, graph: Graph, totals: map<nat, Total>, rank: map<nat, nat>, a: nat)
    requires Established(program, root, graph, totals, rank) && a in totals
    ensures !CallsTo(graph, a, root)
  {
    assert SettledAt(graph, totals, rank, a);
    assert forall e :: e in graph[a].edges ==> EdgeBelow(totals, rank, a, e);
  }

  lemma NotRefutedBy(program: Program, root: nat, graph: Graph, totals: map<nat, Total>, rank: map<nat, nat>,
                     other: Graph, failure: ProofFailure)
    requires Established(program, root, graph, totals, rank) && totals[root].maximum <= WORKING_STACK_LIMIT
    requires Describes(program, other)
    ensures !RefutedBy(program, other, root, failure)
  {
    GraphIsDetermined(program, graph, other);
    forall a | Called(other, root, a) ensures a in totals && a in graph {
      CalledIsSettled(graph, totals, rank, other, root, a);
    }
    match failure
    case RecursiveCallChain(c) =>
      if Cycle(other, c) && c[0] in totals {
        ChainDescends(graph, totals, rank, other, c, |c| - 1);
        assert false;
      }
    case StackLimitExceeded =>
      forall chain, total | IsWitness(other, chain, root, total) ensures total <= WORKING_STACK_LIMIT {
        ChainBounded(graph, totals, rank, other, chain, root, total);
      }
    case _ =>
      forall a | a in program && Called(other, root, a) ensures !Justifies(program, program[a], failure) {
        DescribedNotRejected(program, graph, a, failure);
      }
  }

  lemma CalledIsSettled(graph: Graph, totals: map<nat, Total>, rank: map<nat, nat>, other: Graph, root: nat, a: nat)
    requires Settled(graph, totals, rank) && Agree(graph, other) && root in totals && Called(other, root, a)
    ensures a in totals && a in graph
  {
    var chain :| Connects(other, chain, root, a);
    ChainDescends(graph, totals, rank, other, chain, |chain| - 1);
    assert SettledAt(graph, totals, rank, a);
  }

  lemma DescribedNotRejected(program: Program, graph: Graph, a: nat, failure: ProofFailure)
    requires Describes(program, graph) && a in graph
    ensures a in program && !Justifies(program, program[a], failure)
  {
    assert DescribedAt(program, graph, a);
    var states :| Analysed(program, program[a], states, graph[a]);
    AnalysedIsNotRejected(program, program[a], states, graph[a], failure);
  }

  /** A program that is proved has no reason to be rejected. */
  lemma EstablishedIsNotRefuted(program: Program, root: nat, graph: Graph, totals: map<nat, Total>, rank: map<nat, nat>,
                                failure: ProofFailure)
    requires Established(program, root, graph, totals, rank) && totals[root].maximum <= WORKING_STACK_LIMIT
    ensures !Refuted(program, root, failure)
  {
    forall other | Describes(program, other) ensures !RefutedBy(program, other, root, failure) {
      NotRefutedBy(program, root, graph, totals, rank, other, failure);
    }
  }

  // ---- The walk --------------------------------------------------------------------------

  /** The walk's position: a path of calls from the root whose members are not settled yet. */
  ghost predicate Visiting(program: Program, graph: Graph, root: nat, visiting: seq<nat>, totals: map<nat, Total>) {
    && Linked(graph, visiting) && NoRepeats(visiting)
    && (visiting != [] ==> visiting[0] == root)
    && (forall v :: v in visiting ==> v in program && v !in totals)
    && (forall a {:trigger Called(graph, root, a)} :: a in totals ==> Called(graph, root, a))
    && (forall a :: a in graph ==> a in totals || a in visiting)
  }

  ghost predicate Arrives(graph: Graph, root: nat, visiting: seq<nat>, address: nat) {
    if visiting == [] then address == root else CallsTo(graph, visiting[|visiting| - 1], address)
  }

  lemma ArrivesCalled(program: Program, graph: Graph, root: nat, visiting: seq<nat>,
                      totals: map<nat, Total>, address: nat)
    requires Visiting(program, graph, root, visiting, totals) && Arrives(graph, root, visiting, address)
    ensures Called(graph, root, address)
  {
    LinkedExtends(graph, visiting, address);
    assert Connects(graph, visiting + [address], root, address);
  }

  lemma CycleFound(program: Program, graph: Graph, root: nat, visiting: seq<nat>, totals: map<nat, Total>,
                   address: nat, k: nat)
    requires Visiting(program, graph, root, visiting, totals) && Arrives(graph, root, visiting, address)
    requires k < |visiting| && visiting[k] == address
    ensures Cycle(graph, visiting[k..] + [address]) && Called(graph, root, (visiting[k..] + [address])[0])
  {
    LinkedSlice(graph, visiting, k, |visiting|);
    assert visiting[k..|visiting|] == visiting[k..];
    LinkedExtends(graph, visiting[k..], address);
    LinkedSlice(graph, visiting, 0, k + 1);
    assert Connects(graph, visiting[0..k + 1], root, address);
  }

  lemma VisitingLarger(program: Program, graph: Graph, larger: Graph, root: nat, visiting: seq<nat>,
                       totals: map<nat, Total>)
    requires Extends(graph, larger) && Visiting(program, graph, root, visiting, totals)
    requires forall a :: a in larger ==> a in totals || a in visiting
    ensures Visiting(program, larger, root, visiting, totals)
  {
    LinkedLarger(graph, larger, visiting);
    forall a | a in totals ensures Called(larger, root, a) {
      CalledLarger(graph, larger, root, a);
    }
  }

  lemma CalledLarger(graph: Graph, larger: Graph, a: nat, b: nat)
    requires Extends(graph, larger) && Called(graph, a, b)
    ensures Called(larger, a, b)
  {
    var chain :| Connects(graph, chain, a, b);
    LinkedLarger(graph, larger, chain);
    assert Connects(larger, chain, a, b);
  }

  lemma DescribesNext(program: Program, graph: Graph, a: nat, l: Local, states: map<nat, State>)
    requires Describes(program, graph) && a in program && Analysed(program, program[a], states, l)
    ensures Describes(program, graph[a := l])
  {
    var larger := graph[a := l];
    forall b | b in larger ensures DescribedAt(program, larger, b) {
      if b != a {
        assert DescribedAt(program, graph, b);
      }
    }
  }

  /** The whole state of the walk. */
  ghost predicate Walking(program: Program, graph: Graph, totals: map<nat, Total>, rank: map<nat, nat>, root: nat,
                          visiting: seq<nat>) {
    Describes(program, graph) && Settled(graph, totals, rank) && Visiting(program, graph, root, visiting, totals)
  }

  /** Stepping into a function that is neither settled nor on the path. */
  lemma Enter(program: Program, graph: Graph, totals: map<nat, Total>, rank: map<nat, nat>, root: nat,
              visiting: seq<nat>,
              address: nat, l: Local, states: map<nat, State>)
    requires Walking(program, graph, totals, rank, root, visiting) && Arrives(graph, root, visiting, address)
    requires address in program && address !in visiting && address !in totals && address !in graph
    requires Analysed(program, program[address], states, l)
    ensures Walking(program, graph[address := l], totals, rank, root, visiting + [address])
    ensures Called(graph[address := l], root, address) && Extends(graph, graph[address := l])
  {
    EnterGraph(program, graph, graph[address := l], totals, rank, root, visiting, address, l, states);
  }

  lemma EnterGraph(program: Program, graph: Graph, larger: Graph, totals: map<nat, Total>, rank: map<nat, nat>,
                   root: nat, visiting: seq<nat>,
                   address: nat, l: Local, states: map<nat, State>)
    requires Walking(program, graph, totals, rank, root, visiting) && Arrives(graph, root, visiting, address)
    requires address in program && address !in visiting && address !in totals && address !in graph
    requires Analysed(program, program[address], states, l) && larger == graph[address := l]
    ensures Walking(program, larger, totals, rank, root, visiting + [address])
    ensures Called(larger, root, address) && Extends(graph, larger)
  {
    DescribesNext(program, graph, address, l, states);
    SettledLarger(graph, larger, totals, rank);
    EnterPath(program, graph, larger, totals, root, visiting, address);
  }

  lemma EnterPath(program: Program, graph: Graph, larger: Graph, totals: map<nat, Total>, root: nat,
                  visiting: seq<nat>, address: nat)
    requires Visiting(program, graph, root, visiting, totals) && Arrives(graph, root, visiting, address)
    requires address in program && address !in visiting && address !in totals
    requires Extends(graph, larger) && forall a :: a in larger ==> a in graph || a == address
    ensures Visiting(program, larger, root, visiting + [address], totals) && Called(larger, root, address)
  {
    ArrivesCalled(program, graph, root, visiting, totals, address);
    CalledLarger(graph, larger, root, address);
    LinkedExtends(graph, visiting, address);
    VisitingLarger(program, graph, larger, root, visiting + [address], totals);
  }

  /** Settling the function on top of the path and stepping out of it. */
  lemma Depart(program: Program, graph: Graph, totals: map<nat, Total>, rank: map<nat, nat>, root: nat, path: seq<nat>,
               a: nat, t: Total)
    requires Walking(program, graph, totals, rank, root, path + [a]) && Called(graph, root, a) && a in graph
    requires Best(graph, totals, a, |graph[a].edges|, t)
    ensures Walking(program, graph, totals[a := t], rank[a := |totals|], root, path)
    ensures Highest(totals[a := t], rank[a := |totals|], a) && a !in totals
  {
    assert (path + [a])[|path|] == a;
    assert a in path + [a];
    SettleNext(graph, totals, rank, a, t);
    LinkedSlice(graph, path + [a], 0, |path|);
    assert (path + [a])[0..|path|] == path;
    assert forall i :: 0 <= i < |path| ==> path[i] == (path + [a])[i];
  }

  lemma ArrivedIsRefuted(program: Program, graph: Graph, root: nat, address: nat, failure: ProofFailure)
    requires Describes(program, graph) && address in program && Called(graph, root, address)
    requires Justifies(program, program[address], failure)
    ensures Refuted(program, root, failure)
  {
    assert RefutedBy(program, graph, root, failure);
  }

  /** The functions that are not on the path. */
  ghost function OffPath(program: Program, visiting: seq<nat>): set<nat> { set a | a in program && a !in visiting }

  ghost function Room(program: Program, visiting: seq<nat>): nat { |OffPath(program, visiting)| }

  lemma RoomShrinks(program: Program, visiting: seq<nat>, address: nat)
    requires address in program && address !in visiting
    ensures Room(program, visiting + [address]) < Room(program, visiting)
  {
    var off := OffPath(program, visiting);
    assert address in off;
    assert OffPath(program, visiting + [address]) == off - {address};
  }

  method IndexOf(s: seq<nat>, a: nat) returns (k: nat)
    requires a in s
    ensures k < |s| && s[k] == a && a !in s[..k]
  {
    k := 0;
    while s[k] != a
      invariant k < |s| && a !in s[..k]
      invariant a in s[k..]
      decreases |s| - k
    {
      k := k + 1;
    }
  }

  datatype Report = Report(maximum: int, slack: int, reachable: set<nat>, links: seq<Link>)

  /** The state shared by the recursive calls of `visit`. */
  class Prover {
    const program: Program
    ghost const root: nat
    var locals: Graph
    var totals: map<nat, Total>
    var visiting: seq<nat>
    ghost var rank: map<nat, nat>

    ghost predicate Valid()
      reads this
    {
      Walking(program, locals, totals, rank, root, visiting)
    }

    constructor (program: Program, ghost root: nat)
      ensures Valid() && this.program == program && this.root == root
      ensures locals == map[] && totals == map[] && visiting == []
    {
      this.program, this.root, locals, totals, visiting, rank := program, root, map[], map[], [], map[];
    }

    /** `visit`: settles `address` and everything it calls. */
    method Visit(address: nat) returns (r: Result<Total, ProofFailure>)
      requires Valid() && address in program && Arrives(locals, root, visiting, address)
      modifies this
      ensures r.Ok? ==> Valid() && visiting == old(visiting) && Extends(old(locals), locals)
      ensures r.Ok? ==> Kept(old(totals), totals)
      ensures r.Ok? ==> address in totals && totals[address] == r.value
      ensures r.Ok? && address !in old(totals) ==> Highest(totals, rank, address)
      ensures r.Err? ==> Refuted(program, root, r.error)
      decreases Room(program, visiting), 0, 0
    {
      if address in totals {
        return Ok(totals[address]);
      }
      if address in visiting {
        var k := IndexOf(visiting, address);
        CycleFound(program, locals, root, visiting, totals, address, k);
        assert RefutedBy(program, locals, root, RecursiveCallChain(visiting[k..] + [address]));
        return Err(RecursiveCallChain(visiting[k..] + [address]));
      }
      RoomShrinks(program, visiting, address);
      ghost var path := visiting;
      var analysis, states := LocalAnalysis(program, program[address]);
      if analysis.Err? {
        ArrivesCalled(program, locals, root, visiting, totals, address);
        ArrivedIsRefuted(program, locals, root, address, analysis.error);
        return Err(analysis.error);
      }
      Enter(program, locals, totals, rank, root, visiting, address, analysis.value, states);
      visiting := visiting + [address];
      locals := locals[address := analysis.value];
      r := VisitEdges(address, path, locals[address]);
    }

    /** The loop over the edges of the function on top of the path. */
    method VisitEdges(address: nat, ghost path: seq<nat>, l: Local) returns (r: Result<Total, ProofFailure>)
      requires Valid() && visiting == path + [address] && address in locals && locals[address] == l
      requires Called(locals, root, address)
      modifies this
      ensures r.Ok? ==> Valid() && visiting == path && Extends(old(locals), locals)
      ensures r.Ok? ==> Kept(old(totals), totals)
      ensures r.Ok? ==> address in totals && totals[address] == r.value
      ensures r.Ok? ==> Highest(totals, rank, address)
      ensures r.Err? ==> Refuted(program, root, r.error)
      decreases Room(program, visiting), 1, 0
    {
      var best := Total(l.peak, [Link(address, l, None)]);
      for i := 0 to |l.edges|
        invariant Valid() && visiting == path + [address] && Extends(old(locals), locals)
        invariant Kept(old(totals), totals)
        invariant Best(locals, totals, address, i, best)
      {
        best :- VisitEdge(address, path, l, i, best);
      }
      CalledLarger(old(locals), locals, root, address);
      Depart(program, locals, totals, rank, root, path, address, best);
      rank := rank[address := |totals|];
      totals := totals[address := best];
      visiting := visiting[..|visiting| - 1];
      return Ok(best);
    }

    /** One edge: the callee is settled, and the best chain so far takes it into account. */
    method VisitEdge(address: nat, ghost path: seq<nat>, l: Local, i: nat, best: Total)
      returns (r: Result<Total, ProofFailure>)
      requires Valid() && visiting == path + [address] && address in locals && locals[address] == l && i < |l.edges|
      requires Best(locals, totals, address, i, best)
      modifies this
      ensures r.Ok? ==>
                Valid() && visiting == path + [address] && Extends(old(locals), locals) && Kept(old(totals), totals)
      ensures r.Ok? ==> Best(locals, totals, address, i + 1, r.value)
      ensures r.Err? ==> Refuted(program, root, r.error)
      decreases Room(program, visiting), 0, 1
    {
      var e := l.edges[i];
      assert CallsTo(locals, address, e.target);
      EdgeInProgram(program, locals, address, e);
      ghost var smaller, fewer := locals, totals;
      var child :- Visit(e.target);
      var candidate := Cost(e) + child.maximum;
      var next := if candidate > best.maximum
                  then Total(candidate, [Link(address, l, Some(e))] + child.links) else best;
      BestNext(smaller, locals, fewer, totals, rank, address, i, best, next);
      return Ok(next);
    }
  }

  /** `_prove`. */
  method Prove(program: Program, root: nat)
    returns (r: Result<Report, ProofFailure>, ghost graph: Graph, ghost totals: map<nat, Total>,
             ghost rank: map<nat, nat>)
    requires root in program
    ensures r.Ok? ==>
              Established(program, root, graph, totals, rank) && totals[root] == Total(r.value.maximum, r.value.links)
    ensures r.Ok? ==> r.value.maximum <= WORKING_STACK_LIMIT && r.value.slack == WORKING_STACK_LIMIT - r.value.maximum
    ensures r.Ok? ==> IsWitness(graph, r.value.links, root, r.value.maximum)
    ensures r.Ok? ==> forall chain, total :: IsWitness(graph, chain, root, total) ==> total <= r.value.maximum
    ensures r.Ok? ==> forall a :: a in r.value.reachable <==> Called(graph, root, a)
    ensures r.Err? ==> Refuted(program, root, r.error)
    ensures r.Ok? ==> forall failure :: !Refuted(program, root, failure)
  {
    graph, totals, rank := map[], map[], map[];
    var prover := new Prover(program, root);
    var best :- prover.Visit(root);
    graph, totals, rank := prover.locals, prover.totals, prover.rank;
    assert SettledAt(graph, totals, rank, root);
    if best.maximum > WORKING_STACK_LIMIT {
      assert RefutedBy(program, graph, root, StackLimitExceeded);
      return Err(StackLimitExceeded), graph, totals, rank;
    }
    SettledIsReachable(program, root, graph, totals, rank);
    forall chain, total | IsWitness(graph, chain, root, total) ensures total <= best.maximum {
      ChainBounded(graph, totals, rank, graph, chain, root, total);
    }
    forall failure ensures !Refuted(program, root, failure) {
      EstablishedIsNotRefuted(program, root, graph, totals, rank, failure);
    }
    r := Ok(Report(best.maximum, WORKING_STACK_LIMIT - best.maximum, prover.totals.Keys, best.links));
  }

  lemma SettledIsReachable(program: Program, root: nat, graph: Graph, totals: map<nat, Total>, rank: map<nat, nat>)
    requires Settled(graph, totals, rank) && root in totals && forall a :: a in totals ==> Called(graph, root, a)
    ensures forall a :: a in totals <==> Called(graph, root, a)
  {
    forall a | Called(graph, root, a) ensures a in totals {
      var chain :| Connects(graph, chain, root, a);
      ChainDescends(graph, totals, rank, graph, chain, |chain| - 1);
    }
  }
}
