/** Attestation of a page table against its plan (`validate_graph`). */
module Attestation {
  import opened Words
  import opened Regions
  import opened Outcome
  import opened TransitionTypes
  import opened MappingSet
  import opened Transition
  import opened PageEntry
  import opened PageTree
  import opened PageWalk
  import opened UefiPageTables
  import opened PlanImage
  import opened Population
  import opened GraphWalk

  /** What attestation certifies: one tree of exactly the planned tables, holding the planned leaves. */
  ghost predicate Certified(mem: seq<Page>, base: nat, nodes: seq<Node>, all: seq<Mapping>, used: nat)
    requires AllPlaced(all)
  {
    |nodes| == used && Tree(mem, nodes, base) && LeavesAgree(mem, nodes, LeavesOf(all))
  }

  // ---- The explicit stack ----------------------------------------------------------------

  datatype Item = Item(page: nat, level: nat, prefix: nat)

  ghost predicate ItemOk(it: Item, w: Walk) {
    it.page < |w.nodes| && |w.nodes| == |w.progress| <= |w.visited| && w.visited[it.page] && w.progress[it.page] == 0
    && w.nodes[it.page].level == it.level && w.nodes[it.page].prefix == it.prefix
  }

  ghost predicate Pending(stack: seq<Item>, i: int) { exists s :: 0 <= s < |stack| && stack[s].page == i }

  /** The stack holds each reached, unexamined table once; `current` is being examined. */
  ghost predicate StackOk(stack: seq<Item>, w: Walk, current: int) {
    && |w.nodes| == |w.progress| <= |w.visited|
    && (forall s :: 0 <= s < |stack| ==> ItemOk(stack[s], w) && stack[s].page != current)
    && (forall s, t :: 0 <= s < t < |stack| ==> stack[s].page != stack[t].page)
    && (forall i {:trigger w.progress[i]} ::
          0 <= i < |w.nodes| && w.visited[i] && w.progress[i] < 512 && i != current ==> Pending(stack, i))
  }

  ghost function StackPages(stack: seq<Item>): set<nat> { set s | 0 <= s < |stack| :: stack[s].page }

  lemma {:induction false} StackSize(stack: seq<Item>)
    requires forall s, t :: 0 <= s < t < |stack| ==> stack[s].page != stack[t].page
    ensures |StackPages(stack)| == |stack|
  {
    if stack != [] {
      var n := |stack| - 1;
      StackSize(stack[..n]);
      assert StackPages(stack) == StackPages(stack[..n]) + {stack[n].page} by {
        forall x | x in StackPages(stack) ensures x in StackPages(stack[..n]) + {stack[n].page} {
          var s :| 0 <= s < |stack| && stack[s].page == x;
          if s < n { assert stack[..n][s].page == x; }
        }
        forall x | x in StackPages(stack[..n]) ensures x in StackPages(stack) {
          var s :| 0 <= s < n && stack[..n][s].page == x;
          assert stack[s].page == x;
        }
      }
    } else {
      assert StackPages(stack) == {};
    }
  }

  /** The stack never holds as many tables as there are. */
  lemma StackRoom(stack: seq<Item>, w: Walk, current: nat)
    requires StackOk(stack, w, current) && current < |w.nodes|
    ensures |stack| < |w.nodes|
  {
    StackSize(stack);
    PageRangeSize(0, |w.nodes|);
    assert StackPages(stack) <= PageRange(0, |w.nodes|) - {current};
    SubsetSize(StackPages(stack), PageRange(0, |w.nodes|) - {current});
  }

  lemma StackAdvance(stack: seq<Item>, w: Walk, p: nat)
    requires StackOk(stack, w, p) && p < |w.nodes|
    ensures StackOk(stack, Advance(w, p), p)
  {
    var w' := Advance(w, p);
    forall s | 0 <= s < |stack| ensures ItemOk(stack[s], w') { assert ItemOk(stack[s], w); }
    forall i | 0 <= i < |w'.nodes| && w'.visited[i] && w'.progress[i] < 512 && i != p ensures Pending(stack, i) {
      assert w.progress[i] == w'.progress[i];
    }
  }

  lemma StackReach(stack: seq<Item>, w: Walk, p: nat, c: nat)
    requires StackOk(stack, w, p) && p < |w.nodes| && c < |w.nodes| && !w.visited[c] && c != p && w.nodes[p].level > 1
    ensures StackOk(stack + [Item(c, w.nodes[p].level - 1, w.nodes[p].prefix * 512 + w.progress[p])], Reach(w, p, c), p)
  {
    var w' := Reach(w, p, c);
    var item := Item(c, w.nodes[p].level - 1, w.nodes[p].prefix * 512 + w.progress[p]);
    var stack' := stack + [item];
    forall s | 0 <= s < |stack| ensures ItemOk(stack[s], w') { assert ItemOk(stack[s], w); }
    forall i | 0 <= i < |w'.nodes| && w'.visited[i] && w'.progress[i] < 512 && i != p ensures Pending(stack', i) {
      if i == c {
        assert stack'[|stack|].page == c;
      } else {
        assert w.progress[i] == w'.progress[i];
        var s :| 0 <= s < |stack| && stack[s].page == i;
        assert stack'[s].page == i;
      }
    }
  }

  // ---- Agreement with a certified tree ---------------------------------------------------

  ghost predicate Agrees(w: Walk, nodes: seq<Node>) {
    |nodes| == |w.nodes| <= |w.visited|
    && forall i {:trigger w.nodes[i]} :: 0 <= i < |w.nodes| && w.visited[i] ==> w.nodes[i] == nodes[i]
  }

  /** In a certified table every examined entry passes: it links a table not reached before. */
  lemma CertifiedEntry(l: Layout, mem: seq<Page>, all: seq<Mapping>, nodes: seq<Node>, w: Walk, p: nat)
    requires l.Ok() && |mem| == l.capacity && AllPlaced(all) && Certified(mem, l.base, nodes, all, |w.nodes|)
    requires WalkOk(mem, l.base, all, w) && Agrees(w, nodes)
    requires p < |w.nodes| && w.visited[p] && w.nodes[p].level > 1 && w.progress[p] < 512 && mem[p][w.progress[p]] != 0
    ensures var e := mem[p][w.progress[p]];
            && IsPresent(e) && TableBitsOk(e, l.limit) && IsWritable(e)
            && StorageIndex(l, e - e % 4096).Some?
            && var c := StorageIndex(l, e - e % 4096).value;
               0 < c < |w.nodes| && !w.visited[c] && e == TableEntry(l.base, c)
               && nodes[c] == Node(w.nodes[p].level - 1, w.nodes[p].prefix * 512 + w.progress[p], p)
  {
    var j := w.progress[p];
    assert w.nodes[p] == nodes[p];
    assert ClosedAt(mem, nodes, l.base, p, j);
    var c := ChildIndex(mem[p][j], l.base);
    EntryResolves(l, c);
    assert w.visited[c] ==> w.nodes[c] == nodes[c] && NodeSeen(mem, l.base, w, c);
    assert NodeSeen(mem, l.base, w, p);
    ChildShape(w.nodes[p], j);
  }

  /** In a certified table every nonzero leaf entry is the expected one. */
  lemma CertifiedLeaf(mem: seq<Page>, base: nat, all: seq<Mapping>, nodes: seq<Node>, w: Walk, p: nat)
    requires AllPlaced(all) && Certified(mem, base, nodes, all, |w.nodes|)
    requires WalkOk(mem, base, all, w) && Agrees(w, nodes)
    requires p < |w.nodes| && w.visited[p] && w.nodes[p].level == 1 && w.progress[p] < 512 && mem[p][w.progress[p]] != 0
    ensures IsPresent(mem[p][w.progress[p]])
    ensures ExpectedLeaf(all, CanonicalAddress(w.nodes[p].prefix * 512 + w.progress[p])) == Some(mem[p][w.progress[p]])
  {
    var j := w.progress[p];
    var pn := w.nodes[p].prefix * 512 + j;
    assert w.nodes[p] == nodes[p];
    assert NodeSeen(mem, base, w, p);
    assert pn / 512 == nodes[p].prefix && pn % 512 == j;
    LeafIs(mem, nodes, p, pn);
    ExpectedIsLeaf(all, pn);
    LeafNonzero(all, pn);
  }

  /** At the end of the walk every table of a certified tree has been reached. */
  lemma AllReached(mem: seq<Page>, base: nat, all: seq<Mapping>, nodes: seq<Node>, w: Walk, level: nat, i: nat)
    requires AllPlaced(all) && Certified(mem, base, nodes, all, |w.nodes|)
    requires WalkOk(mem, base, all, w) && Agrees(w, nodes)
    requires forall k :: 0 <= k < |w.nodes| && w.visited[k] ==> w.progress[k] == 512
    requires i < |nodes| && nodes[i].level == level && level <= 4
    ensures w.visited[i]
    decreases 4 - level
  {
    if i > 0 {
      assert NodeOk(nodes, i) && LinkedAt(mem, nodes, base, i);
      var p, j := nodes[i].parent, nodes[i].prefix % 512;
      AllReached(mem, base, all, nodes, w, level + 1, p);
      assert w.nodes[p] == nodes[p];
      assert EntryDone(mem, base, w, p, j);
      EntryChild(base, i);
    }
  }

  /** The leaves met are then all the planned ones. */
  lemma AllLeavesMet(mem: seq<Page>, base: nat, all: seq<Mapping>, nodes: seq<Node>, w: Walk)
    requires AllPlaced(all) && Certified(mem, base, nodes, all, |w.nodes|)
    requires WalkOk(mem, base, all, w) && Agrees(w, nodes) && Complete(w)
    ensures w.seen == PagesOf(all)
  {
    forall x | x in PagesOf(all) ensures x in w.seen { PlannedSeen(mem, base, all, nodes, w, x); }
    forall x | x in w.seen ensures x in PagesOf(all) { SeenPlanned(mem, base, all, w, x); }
  }

  lemma PlannedSeen(mem: seq<Page>, base: nat, all: seq<Mapping>, nodes: seq<Node>, w: Walk, x: nat)
    requires AllPlaced(all) && Certified(mem, base, nodes, all, |w.nodes|)
    requires WalkOk(mem, base, all, w) && Agrees(w, nodes) && Complete(w) && x in PagesOf(all)
    ensures x in w.seen
  {
    LeavesOfDomain(all);
    assert LeafAt(mem, nodes, x) == LeavesOf(all)[x];
    LeafNonzero(all, x);
    var p: nat :| At(nodes, p, 1, Region(x, 1));
    LeafIs(mem, nodes, p, x);
    assert w.nodes[p] == nodes[p];
    assert LeafDone(mem, all, w, p, x % 512) && w.nodes[p].prefix * 512 + x % 512 == x;
  }

  // ---- The walk --------------------------------------------------------------------------

  /** What the walk keeps while one table is being examined; `target` is a certified tree, if any. */
  ghost predicate Walking(l: Layout, mem: seq<Page>, all: seq<Mapping>, w: Walk, stack: seq<Item>, current: int,
                          target: Option<seq<Node>>)
    requires AllPlaced(all)
  {
    && l.Ok() && |mem| == l.capacity && WalkOk(mem, l.base, all, w) && StackOk(stack, w, current)
    && (target.Some? ==> Certified(mem, l.base, target.value, all, |w.nodes|) && Agrees(w, target.value))
  }

  /** The walk after one more entry of table `p`. */
  ghost predicate OneMore(w: Walk, w': Walk, p: nat, leaf: nat)
    requires p < |w.nodes| == |w.progress|
  {
    && |w'.nodes| == |w'.progress| == |w.nodes| <= |w'.visited|
    && w'.progress[p] == w.progress[p] + 1 && w'.nodes[p] == w.nodes[p] && w'.visited[p]
    && |w'.seen| == |w.seen| + leaf && Finished(w') == FinishedBut(w, p, w.progress[p] + 1)
  }

  /** Examines a nonzero intermediate entry; an error proves that no tree can be certified. */
  method ExamineLink(l: Layout, ghost mem: seq<Page>, entry: Word, ghost all: seq<Mapping>, used: nat,
                     p: nat, j: nat, level: nat, prefix: nat, visited: seq<bool>, stack: seq<Item>,
                     ghost w: Walk, ghost target: Option<seq<Node>>)
    returns (error: Option<PageTableError>, visited': seq<bool>, stack': seq<Item>, ghost w': Walk)
    requires AllPlaced(all) && Walking(l, mem, all, w, stack, p, target)
    requires visited == w.visited && used == |w.nodes| && p < used && visited[p] && w.progress[p] == j < 512
    requires level == w.nodes[p].level > 1 && prefix == w.nodes[p].prefix && entry == mem[p][j] != 0
    ensures error.Some? ==> target.None?
    ensures error.None? ==>
              Walking(l, mem, all, w', stack', p, target) && visited' == w'.visited && OneMore(w, w', p, 0)
  {
    error, visited', stack', w' := None, visited, stack, w;
    if target.Some? { CertifiedLink(l, mem, all, target.value, w, p, entry); }
    var child := CheckLink(l, entry, used, visited);
    if child.Err? { error := Some(child.error); return; }
    StackRoom(stack, w, p);
    if |stack| >= l.capacity { error := Some(SharedOrCyclicTable); return; }
    var c := child.value;
    var item := Item(c, level - 1, prefix * 512 + j);
    visited' := visited[c := true];
    stack' := stack + [item];
    w' := LinkStep(l, mem, all, w, stack, p, c, target, item);
  }

  /** The checks on a nonzero intermediate entry, up to the table it links. */
  function CheckLink(l: Layout, entry: Word, used: nat, visited: seq<bool>): (r: Result<nat, PageTableError>)
    requires used <= |visited|
    ensures r.Ok? <==> && IsPresent(entry) && TableBitsOk(entry, l.limit) && IsWritable(entry)
                       && StorageIndex(l, entry - entry % 4096).Some?
                       && StorageIndex(l, entry - entry % 4096).value < used
                       && !visited[StorageIndex(l, entry - entry % 4096).value]
    ensures r.Ok? ==> StorageIndex(l, entry - entry % 4096) == Some(r.value) && r.value < used && !visited[r.value]
  {
    if !IsPresent(entry) then Err(NonPresentEntryNotZero)
    else if !TableBitsOk(entry, l.limit) || !IsWritable(entry) then Err(IntermediateEntryFlagsInvalid)
    else
      var child := StorageIndex(l, entry - entry % 4096);
      if child.None? then Err(CorruptIntermediateEntry)
      else if child.value >= used then Err(ReachableUnusedCapacity)
      else if visited[child.value] then Err(SharedOrCyclicTable)
      else Ok(child.value)
  }

  lemma CertifiedLink(l: Layout, mem: seq<Page>, all: seq<Mapping>, nodes: seq<Node>, w: Walk, p: nat, entry: Word)
    requires l.Ok() && |mem| == l.capacity && AllPlaced(all) && Certified(mem, l.base, nodes, all, |w.nodes|)
    requires WalkOk(mem, l.base, all, w) && Agrees(w, nodes)
    requires p < |w.nodes| && w.visited[p] && w.nodes[p].level > 1 && w.progress[p] < 512
             && entry == mem[p][w.progress[p]] != 0
    ensures |w.nodes| <= |w.visited| && CheckLink(l, entry, |w.nodes|, w.visited).Ok?
    ensures nodes[CheckLink(l, entry, |w.nodes|, w.visited).value] ==
            Node(w.nodes[p].level - 1, w.nodes[p].prefix * 512 + w.progress[p], p)
  {
    CertifiedEntry(l, mem, all, nodes, w, p);
  }

  /** The walk after a link to a new table. */
  lemma LinkStep(l: Layout, mem: seq<Page>, all: seq<Mapping>, w: Walk, stack: seq<Item>, p: nat, c: nat,
                 target: Option<seq<Node>>, item: Item)
    returns (w': Walk)
    requires AllPlaced(all) && Walking(l, mem, all, w, stack, p, target)
    requires p < |w.nodes| && w.visited[p] && w.progress[p] < 512 && w.nodes[p].level > 1
    requires var entry := mem[p][w.progress[p]];
      IsPresent(entry) && TableBitsOk(entry, l.limit) && IsWritable(entry)
        && StorageIndex(l, entry - entry % 4096) == Some(c)
    requires c < |w.nodes| && !w.visited[c]
    requires target.Some? ==> target.value[c] == Node(w.nodes[p].level - 1, w.nodes[p].prefix * 512 + w.progress[p], p)
    requires item == Item(c, w.nodes[p].level - 1, w.nodes[p].prefix * 512 + w.progress[p])
    ensures Walking(l, mem, all, w', stack + [item], p, target) && OneMore(w, w', p, 0)
            && w'.visited == w.visited[c := true]
  {
    w' := Reach(w, p, c);
    LinkWord(l, mem[p][w.progress[p]], c);
    ReachOk(mem, l.base, all, w, p, c);
    StackReach(stack, w, p, c);
  }

  /** Examines a nonzero leaf entry. */
  method ExamineLeaf(l: Layout, ghost mem: seq<Page>, entry: Word, all: seq<Mapping>, p: nat, j: nat, prefix: nat,
                     ghost stack: seq<Item>, ghost w: Walk, ghost target: Option<seq<Node>>)
    returns (error: Option<PageTableError>, ghost w': Walk)
    requires AllPlaced(all) && Walking(l, mem, all, w, stack, p, target)
    requires p < |w.nodes| && w.visited[p] && w.progress[p] == j < 512
    requires w.nodes[p].level == 1 && prefix == w.nodes[p].prefix && entry == mem[p][j] != 0
    ensures error.Some? ==> target.None?
    ensures error.None? ==>
              Walking(l, mem, all, w', stack, p, target) && w'.visited == w.visited && OneMore(w, w', p, 1)
  {
    error, w' := None, w;
    if target.Some? { CertifiedLeaf(mem, l.base, all, target.value, w, p); }
    if !IsPresent(entry) { error := Some(NonPresentEntryNotZero); return; }
    var expected := ExpectedLeaf(all, CanonicalAddress(prefix * 512 + j));
    if expected.None? { error := Some(UnexpectedLeaf); return; }
    if entry != expected.value { error := Some(LeafPlanMismatch); return; }
    LeafStep(l, mem, all, w, stack, p, target);
    w' := Meet(w, p);
  }

  /** The walk after an expected leaf. */
  lemma LeafStep(l: Layout, mem: seq<Page>, all: seq<Mapping>, w: Walk, stack: seq<Item>, p: nat,
                 target: Option<seq<Node>>)
    requires AllPlaced(all) && Walking(l, mem, all, w, stack, p, target)
    requires p < |w.nodes| && w.visited[p] && w.progress[p] < 512 && w.nodes[p].level == 1 && mem[p][w.progress[p]] != 0
    requires ExpectedLeaf(all, CanonicalAddress(w.nodes[p].prefix * 512 + w.progress[p])) == Some(mem[p][w.progress[p]])
    ensures Walking(l, mem, all, Meet(w, p), stack, p, target) && Meet(w, p).visited == w.visited
            && OneMore(w, Meet(w, p), p, 1)
  {
    MeetOk(mem, l.base, all, w, p);
    var met := w.(seen := Meet(w, p).seen);
    assert Meet(w, p) == Advance(met, p);
    StackMet(stack, w, met.seen, p);
    StackAdvance(stack, met, p);
    FinishedAdvance(w, p);
    FinishedAdvance(met, p);
  }

  lemma StackMet(stack: seq<Item>, w: Walk, seen: set<nat>, p: nat)
    requires StackOk(stack, w, p)
    ensures StackOk(stack, w.(seen := seen), p) && Finished(w.(seen := seen)) == Finished(w)
  {
    var w' := w.(seen := seen);
    forall s | 0 <= s < |stack| ensures ItemOk(stack[s], w') { assert ItemOk(stack[s], w); }
  }

  lemma FinishedAdvance(w: Walk, p: nat)
    requires p < |w.nodes| == |w.progress| && w.progress[p] < 512
    ensures Finished(Advance(w, p)) == FinishedBut(w, p, w.progress[p] + 1)
  {
  }

  /** Examines the next entry of table `p`. */
  method ExamineEntry(l: Layout, ghost mem: seq<Page>, entry: Word, all: seq<Mapping>, used: nat,
                      p: nat, j: nat, level: nat, prefix: nat, visited: seq<bool>, stack: seq<Item>,
                      ghost w: Walk, ghost target: Option<seq<Node>>)
    returns (error: Option<PageTableError>, visited': seq<bool>, stack': seq<Item>, leaf: nat, ghost w': Walk)
    requires AllPlaced(all) && Walking(l, mem, all, w, stack, p, target)
    requires visited == w.visited && used == |w.nodes| && p < used && visited[p] && w.progress[p] == j < 512
    requires level == w.nodes[p].level && prefix == w.nodes[p].prefix && entry == mem[p][j]
    ensures error.Some? ==> target.None?
    ensures error.None? ==>
              Walking(l, mem, all, w', stack', p, target) && visited' == w'.visited && OneMore(w, w', p, leaf)
  {
    assert NodeSeen(mem, l.base, w, p);
    leaf := 0;
    if entry == 0 {
      AdvanceOk(mem, l.base, all, w, p);
      StackAdvance(stack, w, p);
      error, visited', stack', w' := None, visited, stack, Advance(w, p);
    } else if level > 1 {
      error, visited', stack', w' :=
        ExamineLink(l, mem, entry, all, used, p, j, level, prefix, visited, stack, w, target);
    } else {
      error, w' := ExamineLeaf(l, mem, entry, all, p, j, prefix, stack, w, target);
      visited', stack', leaf := visited, stack, 1;
    }
  }

  /** Examines all entries of the table just popped. */
  method ExaminePage(l: Layout, ghost mem: seq<Page>, page: Page, all: seq<Mapping>, used: nat, item: Item,
                     visited: seq<bool>, stack: seq<Item>, ghost w: Walk, ghost target: Option<seq<Node>>)
    returns (error: Option<PageTableError>, visited': seq<bool>, stack': seq<Item>, leaves: nat, ghost w': Walk)
    requires AllPlaced(all) && Walking(l, mem, all, w, stack, item.page, target) && ItemOk(item, w)
    requires visited == w.visited && used == |w.nodes| && item.page < |mem| && page == mem[item.page]
    ensures error.Some? ==> target.None?
    ensures error.None? ==> Walking(l, mem, all, w', stack', -1, target) && visited' == w'.visited && |w'.nodes| == used
                            && |w'.seen| == |w.seen| + leaves
                            && item.page !in Finished(w) && Finished(w') == Finished(w) + {item.page}
  {
    var p := item.page;
    error, visited', stack', leaves, w' := None, visited, stack, 0, w;
    for j := 0 to 512
      invariant Walking(l, mem, all, w', stack', p, target) && visited' == w'.visited && |w'.nodes| == used
      invariant error.None? && w'.progress[p] == j && w'.nodes[p] == w.nodes[p] && visited'[p]
      invariant |w'.seen| == |w.seen| + leaves && Finished(w') == FinishedBut(w, p, j)
    {
      var leaf;
      error, visited', stack', leaf, w' :=
        ExamineEntry(l, mem, page[j], all, used, p, j, item.level, item.prefix, visited', stack', w', target);
      if error.Some? { return; }
      leaves := leaves + leaf;
    }
    StackFinish(stack', w', p);
  }

  lemma StackFinish(stack: seq<Item>, w: Walk, p: nat)
    requires StackOk(stack, w, p) && p < |w.nodes| && w.progress[p] == 512
    ensures StackOk(stack, w, -1)
  {
  }

  /** The pages whose entries have all been examined. */
  ghost function Finished(w: Walk): set<nat> { set i | 0 <= i < |w.progress| && w.progress[i] == 512 }

  ghost function FinishedBut(w: Walk, p: nat, k: nat): set<nat> { if k == 512 then Finished(w) + {p} else Finished(w) }

  /** A word that passed the checks is the link to the page it resolves to. */
  lemma LinkWord(l: Layout, e: Word, c: nat)
    requires l.Ok() && IsPresent(e) && TableBitsOk(e, l.limit) && IsWritable(e)
             && StorageIndex(l, e - e % 4096) == Some(c)
    ensures e == TableEntry(l.base, c)
  {
    LinkBits(e, e / 4096, e % 4096);
  }

  lemma LinkBits(e: Word, page: nat, low: nat)
    requires e == 4096 * page + low && low < 4 && IsPresent(e) && IsWritable(e)
    ensures low == 3
  {
    DivModUnique(e, 2, 2048 * page + low / 2, low % 2);
    DivModUnique(2048 * page + low / 2, 2, 1024 * page, low / 2);
  }

  /** Where the walk begins. */
  ghost function Start(capacity: nat, used: nat): Walk
    requires 0 < used <= capacity
  {
    Walk(seq(capacity, i => i == 0), seq(used, i => Node(4, 0, 0)), seq(used, i => 0), {})
  }

  lemma StartOk(l: Layout, mem: seq<Page>, all: seq<Mapping>, used: nat, target: Option<seq<Node>>)
    requires AllPlaced(all) && l.Ok() && |mem| == l.capacity && 0 < used <= l.capacity
    requires target.Some? ==> Certified(mem, l.base, target.value, all, used)
    ensures Walking(l, mem, all, Start(l.capacity, used), [Item(0, 4, 0)], -1, target)
    ensures Finished(Start(l.capacity, used)) == {}
  {
    var w, stack := Start(l.capacity, used), [Item(0, 4, 0)];
    forall i | 0 <= i < |w.nodes| && w.visited[i] ensures NodeSeen(mem, l.base, w, i) {}
    assert StackOk(stack, w, -1) by {
      assert ItemOk(stack[0], w);
      forall i | 0 <= i < |w.nodes| && w.visited[i] ensures Pending(stack, i) { assert stack[0].page == i; }
    }
  }

  /** Outcome of the walk: the tables reached, how many were popped and how many leaves were met. */
  method WalkGraph(l: Layout, pages: array<Page>, all: seq<Mapping>, used: nat, ghost target: Option<seq<Node>>)
    returns (error: Option<PageTableError>, visited: seq<bool>, popped: nat, leaves: nat, ghost w: Walk)
    requires AllPlaced(all) && l.Ok() && pages.Length == l.capacity && 0 < used <= l.capacity
    requires target.Some? ==> Certified(pages[..], l.base, target.value, all, used)
    ensures error.Some? ==> target.None?
    ensures error.None? ==> Walking(l, pages[..], all, w, [], -1, target) && visited == w.visited && |w.nodes| == used
                            && leaves == |w.seen| && popped == |Finished(w)|
  {
    ghost var mem := pages[..];
    var stack := [Item(0, 4, 0)];
    visited := seq(pages.Length, i => i == 0);
    w := Start(l.capacity, used);
    error, popped, leaves := None, 0, 0;
    StartOk(l, mem, all, used, target);
    while stack != []
      invariant Walking(l, mem, all, w, stack, -1, target) && visited == w.visited && |w.nodes| == used
      invariant error.None? && leaves == |w.seen| && popped == |Finished(w)| <= used
      decreases used - popped
    {
      var item := stack[|stack| - 1];
      StackPop(stack, w);
      var more;
      ghost var before := Finished(w);
      error, visited, stack, more, w :=
        ExaminePage(l, mem, pages[item.page], all, used, item, visited, stack[..|stack| - 1], w, target);
      if error.Some? { return; }
      leaves := leaves + more;
      popped := popped + 1;
      FinishedBound(w);
    }
  }

  lemma StackPop(stack: seq<Item>, w: Walk)
    requires StackOk(stack, w, -1) && stack != []
    ensures ItemOk(stack[|stack| - 1], w) && StackOk(stack[..|stack| - 1], w, stack[|stack| - 1].page)
  {
    var n := |stack| - 1;
    var rest, p := stack[..n], stack[n].page;
    forall s | 0 <= s < |rest| ensures ItemOk(rest[s], w) && rest[s].page != p { assert rest[s] == stack[s]; }
    forall i | 0 <= i < |w.nodes| && w.visited[i] && w.progress[i] < 512 && i != p ensures Pending(rest, i) {
      var s :| 0 <= s < |stack| && stack[s].page == i;
      assert rest[s].page == i;
    }
  }

  lemma FinishedBound(w: Walk)
    ensures |Finished(w)| <= |w.progress|
  {
    PageRangeSize(0, |w.progress|);
    SubsetSize(Finished(w), PageRange(0, |w.progress|));
  }

  // ---- The temporary path ----------------------------------------------------------------

  /** The words along the recorded path link its pages, and its leaf is zero. */
  ghost predicate PathLinked(mem: seq<Page>, base: nat, path: seq<nat>, pn: nat) {
    && |path| == 4 && path[0] == 0 && (forall d :: 0 <= d < 4 ==> path[d] < |mem|)
    && (forall d {:trigger path[d + 1]} ::
          0 <= d < 3 ==> mem[path[d]][Index(pn, 4 - d)] == TableEntry(base, path[d + 1]))
    && mem[path[3]][pn % 512] == 0
  }

  /** One step of the path: the entry must be a clean link to the recorded page. */
  function CheckPathLink(l: Layout, entry: Word, next: nat): Option<PageTableError> {
    if !TableBitsOk(entry, l.limit) || !IsPresent(entry) || !IsWritable(entry) then Some(IntermediateEntryFlagsInvalid)
    else
      match StorageIndex(l, entry - entry % 4096)
      case None => Some(TemporaryMappingInvalid)
      case Some(child) => if child != next then Some(TemporaryMappingInvalid) else None
  }

  lemma PathLinkExact(l: Layout, entry: Word, next: nat)
    requires l.Ok()
    ensures CheckPathLink(l, entry, next).None? <==> next < l.capacity && entry == TableEntry(l.base, next)
  {
    if next < l.capacity { EntryResolves(l, next); }
    if CheckPathLink(l, entry, next).None? { LinkWord(l, entry, next); }
  }

  /** `validate_temporary_path`. */
  method ValidateTemporaryPath(l: Layout, pages: array<Page>, path: TemporaryPath, ghost pn: nat)
    returns (error: Option<PageTableError>)
    requires l.Ok() && pages.Length == l.capacity && |path.pageIndices| == 4 && |path.reservation.indices| == 4
    requires pn == PageNumber(path.reservation.virtualAddress)
    ensures error.None? <==> IndexesFor(path.reservation.virtualAddress) == path.reservation.indices
                             && PathLinked(pages[..], l.base, path.pageIndices, pn)
  {
    var indexes := path.reservation.indices;
    if IndexesFor(path.reservation.virtualAddress) != indexes { return Some(TemporaryMappingInvalid); }
    IndexPath(path.reservation.virtualAddress);
    var page := path.pageIndices[0];
    if page != 0 { return Some(TemporaryMappingInvalid); }
    for depth := 0 to 3
      invariant page == path.pageIndices[depth] && page < pages.Length
      invariant LinkedTo(pages[..], l.base, path.pageIndices, pn, depth)
    {
      var entry, next := pages[page][indexes[depth]], path.pageIndices[depth + 1];
      error := CheckPathLink(l, entry, next);
      PathLinkExact(l, entry, next);
      LinkedNext(pages[..], l.base, path.pageIndices, pn, depth);
      if error.Some? { return; }
      page := next;
    }
    LinkedAll(pages[..], l.base, path.pageIndices, pn);
    if pages[page][indexes[3]] != 0 { return Some(TemporaryLeafNotZero); }
    error := None;
  }

  /** The path is linked down to the given depth. */
  ghost predicate LinkedTo(mem: seq<Page>, base: nat, path: seq<nat>, pn: nat, depth: nat)
    requires |path| == 4 && depth <= 3
  {
    && path[0] == 0 && (forall d :: 0 <= d <= depth ==> path[d] < |mem|)
    && (forall d {:trigger path[d + 1]} ::
          0 <= d < depth ==> mem[path[d]][Index(pn, 4 - d)] == TableEntry(base, path[d + 1]))
  }

  lemma LinkedNext(mem: seq<Page>, base: nat, path: seq<nat>, pn: nat, depth: nat)
    requires |path| == 4 && depth < 3 && LinkedTo(mem, base, path, pn, depth)
    ensures LinkedTo(mem, base, path, pn, depth + 1) <==>
            path[depth + 1] < |mem| && mem[path[depth]][Index(pn, 4 - depth)] == TableEntry(base, path[depth + 1])
    ensures !LinkedTo(mem, base, path, pn, depth + 1) ==> !PathLinked(mem, base, path, pn)
  {
  }

  lemma LinkedAll(mem: seq<Page>, base: nat, path: seq<nat>, pn: nat)
    requires |path| == 4 && LinkedTo(mem, base, path, pn, 3)
    ensures PathLinked(mem, base, path, pn) <==> mem[path[3]][pn % 512] == 0
  {
  }

  /** In a tree, linked words and recorded nodes describe the same path. */
  lemma PathLinkedIsPathAt(l: Layout, mem: seq<Page>, nodes: seq<Node>, path: seq<nat>, pn: nat)
    requires l.Ok() && |mem| == l.capacity && Tree(mem, nodes, l.base) && pn < PAGES && |path| == 4
    ensures PathLinked(mem, l.base, path, pn) <==> PathAt(nodes, path, pn) && LeafAt(mem, nodes, pn) == 0
  {
    PathStep(pn, 4);
    if PathAt(nodes, path, pn) {
      assert At(nodes, path[0], 4, Region(pn, 4)) && At(nodes, 0, 4, 0);
      Unique(nodes, path[0], 0, 4, 0);
      forall d {:trigger path[d + 1]} | 0 <= d < 3
        ensures mem[path[d]][Index(pn, 4 - d)] == TableEntry(l.base, path[d + 1])
      {
        StepLinked(mem, nodes, l.base, path, pn, d);
      }
      assert At(nodes, path[3], 1, Region(pn, 1));
      LeafIs(mem, nodes, path[3], pn);
      forall d | 0 <= d < 4 ensures path[d] < |mem| { assert At(nodes, path[d], 4 - d, Region(pn, 4 - d)); }
    }
    if PathLinked(mem, l.base, path, pn) {
      LinkedPathAt(l, mem, nodes, path, pn, 3);
      forall d | 0 <= d < 4 ensures At(nodes, path[d], 4 - d, Region(pn, 4 - d)) {
        LinkedPathAt(l, mem, nodes, path, pn, d);
      }
      LeafIs(mem, nodes, path[3], pn);
    }
  }

  lemma StepLinked(mem: seq<Page>, nodes: seq<Node>, base: nat, path: seq<nat>, pn: nat, d: nat)
    requires Tree(mem, nodes, base) && pn < PAGES && |path| == 4 && d < 3 && PathAt(nodes, path, pn)
    ensures path[d] < |mem| && mem[path[d]][Index(pn, 4 - d)] == TableEntry(base, path[d + 1])
  {
    var c := path[d + 1];
    assert At(nodes, path[d], 4 - d, Region(pn, 4 - d)) && At(nodes, c, 3 - d, Region(pn, 3 - d));
    PathStep(pn, 4 - d);
    assert NodeOk(nodes, c) && LinkedAt(mem, nodes, base, c);
    Unique(nodes, nodes[c].parent, path[d], 4 - d, Region(pn, 4 - d));
  }

  lemma {:induction false} LinkedPathAt(l: Layout, mem: seq<Page>, nodes: seq<Node>, path: seq<nat>, pn: nat, d: nat)
    requires l.Ok() && |mem| == l.capacity && Tree(mem, nodes, l.base) && pn < PAGES
    requires PathLinked(mem, l.base, path, pn) && d <= 3
    ensures At(nodes, path[d], 4 - d, Region(pn, 4 - d))
  {
    PathStep(pn, 4);
    if d > 0 {
      LinkedPathAt(l, mem, nodes, path, pn, d - 1);
      PathStep(pn, 5 - d);
      assert path[d - 1 + 1] == path[d];
      assert mem[path[d - 1]][Index(pn, 4 - (d - 1))] == TableEntry(l.base, path[d]);
      assert ClosedAt(mem, nodes, l.base, path[d - 1], Index(pn, 5 - d));
      EntryChild(l.base, path[d]);
    }
  }

  // ---- The verdict -----------------------------------------------------------------------

  /** A table that attestation must accept, and the only kind it may accept. */
  ghost predicate Attestable(table: UefiPageTable, plan: TransitionPlan, abi: Abi, nodes: seq<Node>)
    reads table, table.pages
  {
    && AllPlaced(AllMappings(plan)) && table.nextFree == plan.usedPages && Reserved(table.temporary, abi)
    && Certified(table.pages[..], table.physicalStart, nodes, AllMappings(plan), plan.usedPages)
    && TemporaryOk(table.temporary, nodes)
  }

  method UnusedClean(pages: array<Page>, used: nat) returns (clean: bool)
    requires used <= pages.Length
    ensures clean <==> UnusedZero(pages[..], used)
  {
    for i := used to pages.Length
      invariant forall k :: used <= k < i ==> ZeroPage(pages[k])
    {
      for j := 0 to 512
        invariant forall k :: 0 <= k < j ==> pages[i][k] == 0
      {
        if pages[i][j] != 0 {
          assert !ZeroPage(pages[..][i]);
          return false;
        }
      }
    }
    return true;
  }

  method AllVisited(visited: seq<bool>, used: nat) returns (yes: bool)
    requires used <= |visited|
    ensures yes <==> forall i :: 0 <= i < used ==> visited[i]
  {
    for i := 0 to used
      invariant forall k :: 0 <= k < i ==> visited[k]
    {
      if !visited[i] { return false; }
    }
    return true;
  }

  /** The walk and the two totals checked after it. */
  method CertifyGraph(l: Layout, pages: array<Page>, all: seq<Mapping>, granule: Word, used: nat)
    returns (error: Option<PageTableError>)
    requires AllPlaced(all) && granule == 4096 && l.Ok() && pages.Length == l.capacity && 0 < used <= l.capacity
    requires UnusedZero(pages[..], used)
    ensures error.None? <==> exists nodes :: Certified(pages[..], l.base, nodes, all, used)
  {
    ghost var mem := pages[..];
    ghost var target: Option<seq<Node>> := None;
    if nodes :| Certified(mem, l.base, nodes, all, used) { target := Some(nodes); }
    var visited, popped, leaves;
    ghost var w;
    error, visited, popped, leaves, w := WalkGraph(l, pages, all, used, target);
    if error.Some? { return; }
    AllExamined(w);
    if target.Some? { CertifiedTotals(mem, l.base, all, target.value, w); }
    var reached := AllVisited(visited, used);
    if popped != used || !reached { return Some(UnreachableUsedTable); }
    CountIsPages(all);
    var expected := ExpectedLeafCount(all, granule);
    if expected.None? { return Some(MissingLeaf); }
    if leaves != expected.value { return Some(MissingLeaf); }
    SeenIsPlan(mem, l.base, all, w);
    WalkIsTree(mem, l.base, all, w);
    WalkLeaves(mem, l.base, all, w);
    assert Certified(pages[..], l.base, w.nodes, all, used);
  }

  /** With an empty stack every reached table has been examined. */
  lemma AllExamined(w: Walk)
    requires StackOk([], w, -1)
    ensures forall i :: 0 <= i < |w.nodes| && w.visited[i] && w.progress[i] <= 512 ==> w.progress[i] == 512
  {
  }

  lemma CertifiedTotals(mem: seq<Page>, base: nat, all: seq<Mapping>, nodes: seq<Node>, w: Walk)
    requires AllPlaced(all) && Certified(mem, base, nodes, all, |w.nodes|)
    requires WalkOk(mem, base, all, w) && Agrees(w, nodes) && StackOk([], w, -1)
    ensures (forall i :: 0 <= i < |w.nodes| ==> w.visited[i]) && |Finished(w)| == |w.nodes| && w.seen == PagesOf(all)
  {
    AllExamined(w);
    forall i | 0 <= i < |w.nodes| ensures w.visited[i] && w.progress[i] == 512 {
      if i > 0 { assert NodeOk(nodes, i); }
      AllReached(mem, base, all, nodes, w, nodes[i].level, i);
    }
    assert Finished(w) == PageRange(0, |w.nodes|);
    PageRangeSize(0, |w.nodes|);
    AllLeavesMet(mem, base, all, nodes, w);
  }

  /** `validate_graph`: accepts exactly the tables that hold the plan, and reports their frames. */
  method ValidateGraph(table: UefiPageTable, plan: TransitionPlan, abi: Abi)
    returns (r: Result<(nat, seq<nat>), PageTableError>)
    requires GoodAbi(abi) && PlanReady(plan, abi) && plan.granule == 4096
    requires GoodWidth(table.bits) && table.Placement().Ok() && table.pages.Length == abi.maxTableFrames
    requires table.temporary.Some? ==>
               |table.temporary.value.pageIndices| == 4 && |table.temporary.value.reservation.indices| == 4
    ensures r.Ok? <==> exists nodes :: Attestable(table, plan, abi, nodes)
    ensures r.Ok? ==> r.value.0 == plan.usedPages && |r.value.1| == 4
                      && forall d :: 0 <= d < 4 ==>
                         r.value.1[d] == table.physicalStart + 4096 * table.temporary.value.pageIndices[d]
  {
    var used: nat := plan.usedPages;
    if used != table.nextFree { return Err(UsedPageCountMismatch(used, table.nextFree)); }
    UsedBounds(plan, abi);
    if used < abi.minTableFrames || used > abi.maxTableFrames {
      return Err(UsedPageCountMismatch(abi.minTableFrames, used));
    }
    if table.temporary.None? { return Err(TemporaryMappingInvalid); }
    var path := table.temporary.value;
    if path.reservation != TemporaryReservation(abi) { return Err(TemporaryMappingInvalid); }
    var error := ExamineTable(table, plan, abi);
    if error.Some? { return Err(error.value); }
    r := Ok((used, PathFrames(table.physicalStart, path.pageIndices)));
  }

  /** The physical frames of the tables on the temporary path. */
  function PathFrames(start: nat, indices: seq<nat>): (r: seq<nat>)
    requires |indices| == 4
    ensures |r| == 4 && forall d :: 0 <= d < 4 ==> r[d] == start + 4096 * indices[d]
  {
    seq(4, d requires 0 <= d < 4 => start + 4096 * indices[d])
  }

  /** The part of `validate_graph` that reads the table's pages. */
  method ExamineTable(table: UefiPageTable, plan: TransitionPlan, abi: Abi) returns (error: Option<PageTableError>)
    requires GoodAbi(abi) && PlanReady(plan, abi) && plan.granule == 4096
    requires GoodWidth(table.bits) && table.Placement().Ok() && table.pages.Length == abi.maxTableFrames
    requires table.nextFree == plan.usedPages && 4 <= plan.usedPages <= abi.maxTableFrames
    requires Reserved(table.temporary, abi) && |table.temporary.value.pageIndices| == 4
             && |table.temporary.value.reservation.indices| == 4
    ensures error.None? <==> exists nodes :: Attestable(table, plan, abi, nodes)
  {
    var used: nat, path := plan.usedPages, table.temporary.value;
    ghost var pn := PageNumber(abi.temporary);
    PlanPlaced(plan, abi);
    PageNumberBound(abi.temporary);
    error := ValidateTemporaryPath(table.Placement(), table.pages, path, pn);
    if error.Some? {
      forall nodes ensures !Attestable(table, plan, abi, nodes) {
        AttestableIsLinked(table, plan, abi, nodes);
      }
      return;
    }
    var clean := UnusedClean(table.pages, used);
    if !clean { return Some(UnusedCapacityDirty); }
    error := CertifyGraph(table.Placement(), table.pages, AllMappings(plan), plan.granule, used);
    if error.Some? { return; }
    ghost var nodes :| Certified(table.pages[..], table.physicalStart, nodes, AllMappings(plan), used);
    LinkedIsAttestable(table, plan, abi, nodes);
  }

  /** In an attestable table the recorded path is linked and free. */
  lemma AttestableIsLinked(table: UefiPageTable, plan: TransitionPlan, abi: Abi, nodes: seq<Node>)
    requires GoodAbi(abi) && PlanReady(plan, abi) && plan.granule == 4096 && AllPlaced(AllMappings(plan))
    requires table.Placement().Ok() && table.pages.Length == abi.maxTableFrames
    requires table.temporary.Some? && |table.temporary.value.pageIndices| == 4
    ensures Attestable(table, plan, abi, nodes) ==>
      PathLinked(table.pages[..], table.physicalStart, table.temporary.value.pageIndices, PageNumber(abi.temporary))
  {
    if Attestable(table, plan, abi, nodes) {
      PageNumberBound(abi.temporary);
      PathLinkedIsPathAt(table.Placement(), table.pages[..], nodes, table.temporary.value.pageIndices,
                         PageNumber(abi.temporary));
      TemporaryUnplanned(plan, abi);
    }
  }

  lemma LinkedIsAttestable(table: UefiPageTable, plan: TransitionPlan, abi: Abi, nodes: seq<Node>)
    requires GoodAbi(abi) && PlanReady(plan, abi) && plan.granule == 4096 && AllPlaced(AllMappings(plan))
    requires table.Placement().Ok() && table.pages.Length == abi.maxTableFrames && table.nextFree == plan.usedPages
    requires Reserved(table.temporary, abi) && |table.temporary.value.pageIndices| == 4
    requires Certified(table.pages[..], table.physicalStart, nodes, AllMappings(plan), plan.usedPages)
    requires PathLinked(table.pages[..], table.physicalStart, table.temporary.value.pageIndices,
                        PageNumber(abi.temporary))
    ensures Attestable(table, plan, abi, nodes)
  {
    PageNumberBound(abi.temporary);
    PathLinkedIsPathAt(table.Placement(), table.pages[..], nodes, table.temporary.value.pageIndices,
                       PageNumber(abi.temporary));
  }

  lemma UsedBounds(plan: TransitionPlan, abi: Abi)
    requires GoodAbi(abi) && PlanReady(plan, abi)
    ensures 4 <= plan.usedPages <= abi.maxTableFrames
  {
    RequiredAtLeastFour(plan.mappings, Some(Extent(plan.storage.physicalStart, plan.usedPages * plan.granule)), abi,
                        plan.granule);
  }

  /** The temporary page carries no planned leaf. */
  lemma TemporaryUnplanned(plan: TransitionPlan, abi: Abi)
    requires GoodAbi(abi) && PlanReady(plan, abi) && plan.granule == 4096 && AllPlaced(AllMappings(plan))
    ensures PageNumber(abi.temporary) !in LeavesOf(AllMappings(plan))
  {
    var all := AllMappings(plan);
    forall i | 0 <= i < |all| ensures !all[i].Covers(abi.temporary) {
      if all[i].Covers(abi.temporary) {
        PlanClearOfSlot(plan, abi, i);
        HardenedMapping(all[i], abi, abi.temporary);
      }
    }
    NotCoveredPage(all, abi.temporary);
    NoLeafOutside(all, PageNumber(abi.temporary));
  }

  /** `PageTableAttestation`: what the handoff carrier is written from. */
  datatype Evidence = Evidence(root: Word, used: nat, width: nat, frames: seq<nat>)

  /** The frames are those that a walk from the root towards a page visits, root first. */
  ghost predicate FramesOnWalk(l: Layout, mem: seq<Page>, used: nat, pn: nat, frames: seq<nat>)
    requires 0 < |mem| == l.capacity && pn < PAGES
  {
    |frames| == 4 && forall d {:trigger FrameAt(l, mem, used, pn, d, frames[d])} ::
      0 <= d < 4 ==> FrameAt(l, mem, used, pn, d, frames[d])
  }

  ghost predicate FrameAt(l: Layout, mem: seq<Page>, used: nat, pn: nat, d: nat, frame: nat)
    requires 0 < |mem| == l.capacity && pn < PAGES && d < 4
  {
    Descend(l, mem, used, pn, d).Some? && frame == l.base + 4096 * Descend(l, mem, used, pn, d).value
  }

  /** In a tree, a frame is on the walk exactly when its table holds the page's region at that level. */
  lemma FrameExact(l: Layout, mem: seq<Page>, nodes: seq<Node>, pn: nat, d: nat, i: nat)
    requires l.Ok() && |mem| == l.capacity && Tree(mem, nodes, l.base) && pn < PAGES && d < 4
    ensures FrameAt(l, mem, |nodes|, pn, d, l.base + 4096 * i) <==> At(nodes, i, 4 - d, Region(pn, 4 - d))
  {
    DescendTree(l, mem, nodes, pn, d);
    var r := Descend(l, mem, |nodes|, pn, d);
    if r.Some? && At(nodes, i, 4 - d, Region(pn, 4 - d)) {
      Unique(nodes, i, r.value, 4 - d, Region(pn, 4 - d));
    }
  }

  /** What attestation says of a table that it accepts. */
  ghost predicate Evident(table: UefiPageTable, plan: TransitionPlan, abi: Abi, e: Evidence)
    requires GoodWidth(table.bits) && table.pages.Length > 0
    reads table, table.pages
  {
    PageNumberBound(abi.temporary);
    && e.root == table.physicalStart == plan.storage.physicalStart && e.width == table.bits
    && e.used == table.nextFree == plan.usedPages
    && FramesOnWalk(table.Placement(), table.pages[..], table.nextFree, PageNumber(abi.temporary), e.frames)
  }

  lemma PathIsWalk(table: UefiPageTable, plan: TransitionPlan, abi: Abi, nodes: seq<Node>, frames: seq<nat>)
    requires GoodWidth(table.bits) && table.Placement().Ok() && table.pages.Length > 0
    requires Attestable(table, plan, abi, nodes) && |frames| == 4
    requires forall d :: 0 <= d < 4 ==> frames[d] == table.physicalStart + 4096 * table.temporary.value.pageIndices[d]
    ensures PageNumber(abi.temporary) < PAGES
    ensures FramesOnWalk(table.Placement(), table.pages[..], table.nextFree, PageNumber(abi.temporary), frames)
  {
    PageNumberBound(abi.temporary);
    var l, pn := table.Placement(), PageNumber(abi.temporary);
    forall d | 0 <= d < 4 ensures FrameAt(l, table.pages[..], table.nextFree, pn, d, frames[d]) {
      FrameExact(l, table.pages[..], nodes, pn, d, table.temporary.value.pageIndices[d]);
    }
  }

  /** `attest`: the storage must also be the plan's. */
  method Attest(table: UefiPageTable, plan: TransitionPlan, abi: Abi)
    returns (r: Result<Evidence, PageTableError>)
    requires GoodAbi(abi) && PlanReady(plan, abi) && plan.granule == 4096
    requires GoodWidth(table.bits) && table.Placement().Ok() && table.pages.Length == abi.maxTableFrames
    requires table.temporary.Some? ==>
               |table.temporary.value.pageIndices| == 4 && |table.temporary.value.reservation.indices| == 4
    ensures r.Ok? <==>
            table.physicalStart == plan.storage.physicalStart && exists nodes :: Attestable(table, plan, abi, nodes)
    ensures r.Ok? ==> Evident(table, plan, abi, r.value)
    ensures r.Ok? ==> TranslatesWhereFitting(table, plan)
  {
    if table.physicalStart != plan.storage.physicalStart { return Err(StoragePhysicalAddressInvalid); }
    var graph := ValidateGraph(table, plan, abi);
    match graph {
      case Err(e) => r := Err(e);
      case Ok((used, frames)) =>
        r := Ok(Evidence(table.physicalStart, used, table.bits, frames));
        ghost var nodes :| Attestable(table, plan, abi, nodes);
        PathIsWalk(table, plan, abi, nodes, frames);
        AttestedTranslates(table, plan, abi, nodes);
    }
  }

  /** The walk of the table's words finds what the plan says of the address. */
  ghost predicate TranslatesPlan(table: UefiPageTable, plan: TransitionPlan, address: Word)
    requires GoodWidth(table.bits) && table.pages.Length > 0 && table.Placement().limit > 0
    reads table, table.pages
  {
    Translate(table.Placement(), table.pages[..], table.nextFree, address) == Promised(AllMappings(plan), address)
  }

  ghost predicate TranslatesWhereFitting(table: UefiPageTable, plan: TransitionPlan)
    requires GoodWidth(table.bits) && table.pages.Length > 0 && table.Placement().limit > 0
    reads table, table.pages
  {
    forall address: Word {:trigger TranslatesPlan(table, plan, address)} ::
      PageFits(AllMappings(plan), table.bits, address) <==> TranslatesPlan(table, plan, address)
  }

  lemma AttestedTranslates(table: UefiPageTable, plan: TransitionPlan, abi: Abi, nodes: seq<Node>)
    requires GoodAbi(abi) && PlanReady(plan, abi) && plan.granule == 4096
    requires GoodWidth(table.bits) && table.Placement().Ok() && table.pages.Length == abi.maxTableFrames
    requires Attestable(table, plan, abi, nodes)
    ensures TranslatesWhereFitting(table, plan)
  {
    forall address: Word
      ensures PageFits(AllMappings(plan), table.bits, address) <==> TranslatesPlan(table, plan, address)
    {
      CertifiedTranslates(table.Placement(), table.pages[..], nodes, AllMappings(plan), table.bits, address);
    }
  }

  /** What a plan promises about any address. */
  ghost function Promised(all: seq<Mapping>, address: nat): Option<Translation> {
    if Canonical(address) then PlanTranslation(all, address) else None
  }

  /** The physical page planned for an address, if there is one, fits the width. */
  ghost predicate PageFits(all: seq<Mapping>, bits: nat, address: nat) {
    forall i :: 0 <= i < |all| && all[i].Covers(address) ==>
      all[i].physicalStart + (address - all[i].virtualStart) - address % 4096 < Limit(bits)
  }

  /** A certified table translates an address as planned exactly when the planned page fits the width. */
  lemma CertifiedTranslates(l: Layout, mem: seq<Page>, nodes: seq<Node>, all: seq<Mapping>, bits: nat, address: Word)
    requires GoodWidth(bits) && l.Ok() && l.limit == Limit(bits) && |mem| == l.capacity
    requires AllPlaced(all) && Certified(mem, l.base, nodes, all, |nodes|)
    ensures PageFits(all, bits, address) <==> Translate(l, mem, |nodes|, address) == Promised(all, address)
  {
    TranslateTree(l, mem, nodes, address);
    if i :| 0 <= i < |all| && all[i].Covers(address) {
      CoveredPage(mem, nodes, all, i, bits, address);
      OnlyCover(all, i, address);
    } else if Canonical(address) {
      PlanTranslationNone(all, address);
      NotCoveredPage(all, address);
      NoLeafOutside(all, PageNumber(address));
      assert LeafAt(mem, nodes, PageNumber(address)) == 0;
    }
  }

  lemma CoveredPage(mem: seq<Page>, nodes: seq<Node>, all: seq<Mapping>, i: nat, bits: nat, address: Word)
    requires GoodWidth(bits) && |nodes| <= |mem| && AllPlaced(all) && LeavesAgree(mem, nodes, LeavesOf(all))
    requires i < |all| && all[i].Covers(address)
    ensures Canonical(address)
    ensures all[i].physicalStart + (address - all[i].virtualStart) - address % 4096 < Limit(bits) <==>
            LeafTranslation(LeafAt(mem, nodes, PageNumber(address)), address % 4096, Limit(bits)) ==
              PlanTranslation(all, address)
  {
    PageOfAddress(all[i], address);
    CoveredTranslation(all, i, bits, address, PageNumber(address), address % 4096);
  }

  lemma OnlyCover(all: seq<Mapping>, i: nat, address: nat)
    requires AllPlaced(all) && i < |all| && all[i].Covers(address)
    ensures forall k :: 0 <= k < |all| && all[k].Covers(address) ==> k == i
  {
    forall k | 0 <= k < |all| && all[k].Covers(address) ensures k == i {
      assert k < i ==> Apart(all[k], all[i]);
      assert i < k ==> Apart(all[i], all[k]);
    }
  }

  /** A populated table is one that attestation accepts. */
  lemma PopulatedIsAttestable(table: UefiPageTable, plan: TransitionPlan, abi: Abi)
    requires AllPlaced(AllMappings(plan)) && Filled(table, AllMappings(plan), |AllMappings(plan)|, abi)
    requires table.nextFree == plan.usedPages
    ensures Attestable(table, plan, abi, table.nodes)
  {
    var all := AllMappings(plan);
    assert all[..|all|] == all;
  }

  lemma EncodableFits(plan: TransitionPlan, bits: nat, address: Word)
    requires Encodable(AllMappings(plan), Limit(bits))
    ensures PageFits(AllMappings(plan), bits, address)
  {
    var all := AllMappings(plan);
    forall k | 0 <= k < |all| && all[k].Covers(address)
      ensures all[k].physicalStart + (address - all[k].virtualStart) - address % 4096 < Limit(bits)
    {
      assert OneEncodable(all[k], Limit(bits));
    }
  }

  /** Populating a fresh table on the plan's own storage is always followed by a successful attestation. */
  method PopulateAndAttest(plan: TransitionPlan, table: UefiPageTable, abi: Abi)
    returns (populated: Result<(), PopulationError>, attested: Option<Evidence>)
    requires GoodAbi(abi) && PlanReady(plan, abi)
    requires table.Fresh() && table.pages.Length == abi.maxTableFrames
             && table.physicalStart == plan.storage.physicalStart
    modifies table
    modifies table.pages
    ensures table.Valid()
    ensures populated.Ok? <==> plan.granule == 4096 && Encodable(AllMappings(plan), Limit(table.bits))
    ensures attested.Some? <==> populated.Ok?
    ensures populated.Ok? ==> Evident(table, plan, abi, attested.value)
    ensures populated.Ok? ==> forall address: Word :: TranslatesPlan(table, plan, address)
  {
    attested := None;
    populated := PopulatePageTable(plan, table, abi);
    if populated.Ok? {
      PopulatedIsAttestable(table, plan, abi);
      IndexPath(abi.temporary);
      ghost var nodes := table.nodes;
      var a := Attest(table, plan, abi);
      assert Attestable(table, plan, abi, nodes);
      attested := Some(a.value);
      forall address: Word ensures TranslatesPlan(table, plan, address) {
        EncodableFits(plan, table.bits, address);
      }
    }
  }
}
