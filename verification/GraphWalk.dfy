/** The depth-first walk that attests a page table: its invariant, step by step.

Nothing is assumed about the words in memory.  `WalkOk` says what the entries examined so far have
established; each lemma extends it by one entry, and `WalkIsTree` closes it.
*/
module GraphWalk {
  import opened Outcome
  import opened Words
  import opened Regions
  import opened TransitionTypes
  import opened PageEntry
  import opened PageTree
  import opened PageWalk
  import opened UefiPageTables
  import opened PlanImage

  /** Tables reached so far, how many entries of each were examined, and the leaf pages met. */
  datatype Walk = Walk(visited: seq<bool>, nodes: seq<Node>, progress: seq<nat>, seen: set<nat>)

  /** `expected_leaf`: the first mapping that covers an address decides its leaf word. */
  function ExpectedLeaf(ms: seq<Mapping>, address: nat): Option<nat> {
    if ms == [] then None
    else
      var m := ms[0];
      if m.VirtualEnd() >= TWO64 then None
      else if m.virtualStart <= address < m.VirtualEnd() then
        (if m.physicalStart + (address - m.virtualStart) >= TWO64 then None
         else Some(LeafEntry(m.physicalStart + (address - m.virtualStart), m.permissions)))
      else ExpectedLeaf(ms[1..], address)
  }

  /** `expected_leaf_count`: the checked sum of page counts. */
  function ExpectedLeafCount(ms: seq<Mapping>, granule: nat): Option<nat>
    requires granule > 0
  {
    if ms == [] then Some(0)
    else
      match ExpectedLeafCount(ms[..|ms| - 1], granule)
      case None => None
      case Some(n) =>
        var total := n + ms[|ms| - 1].byteLen / granule;
        if total >= TWO64 then None else Some(total)
  }

  ghost predicate Shape(mem: seq<Page>, w: Walk) {
    1 <= |w.nodes| == |w.progress| <= |w.visited| == |mem|
    && (forall i :: 0 <= i < |w.progress| ==> w.progress[i] <= 512)
  }

  /** A reached table and the entry that led to it. */
  ghost predicate NodeSeen(mem: seq<Page>, base: nat, w: Walk, i: nat)
    requires Shape(mem, w) && i < |w.nodes|
  {
    var n := w.nodes[i];
    if i == 0 then n == Node(4, 0, 0)
    else
      && 1 <= n.level <= 3 && n.prefix < LevelRegions(n.level)
      && n.parent < |w.nodes| && w.visited[n.parent]
      && w.nodes[n.parent].level == n.level + 1 && w.nodes[n.parent].prefix == n.prefix / 512
      && n.prefix % 512 < w.progress[n.parent]
      && mem[n.parent][n.prefix % 512] == TableEntry(base, i)
  }

  /** An examined intermediate entry: empty, or the link to a reached table. */
  ghost predicate EntryDone(mem: seq<Page>, base: nat, w: Walk, p: nat, j: nat)
    requires Shape(mem, w) && p < |w.nodes| && w.nodes[p].level > 1 && j < 512
  {
    var e := mem[p][j];
    var c := ChildIndex(e, base);
    e == 0 || (0 < c < |w.nodes| && w.visited[c] && e == TableEntry(base, c)
               && w.nodes[c] == Node(w.nodes[p].level - 1, w.nodes[p].prefix * 512 + j, p))
  }

  /** An examined leaf entry: empty, or the planned word of its page. */
  ghost predicate LeafDone(mem: seq<Page>, all: seq<Mapping>, w: Walk, p: nat, j: nat)
    requires Shape(mem, w) && p < |w.nodes| && w.nodes[p].level == 1 && j < 512
  {
    var e, pn := mem[p][j], w.nodes[p].prefix * 512 + j;
    e == 0 || (ExpectedLeaf(all, CanonicalAddress(pn)) == Some(e) && pn in w.seen)
  }

  /** A leaf page met so far comes from one examined entry. */
  ghost predicate LeafFrom(mem: seq<Page>, w: Walk, x: nat, p: nat)
    requires Shape(mem, w)
  {
    p < |w.nodes| && w.visited[p] && w.nodes[p].level == 1 && w.nodes[p].prefix == x / 512
    && x % 512 < w.progress[p] && mem[p][x % 512] != 0
  }

  ghost predicate Distinct(w: Walk, i: nat, j: nat)
    requires i < |w.nodes| && j < |w.nodes|
  {
    w.nodes[i].level != w.nodes[j].level || w.nodes[i].prefix != w.nodes[j].prefix
  }

  ghost predicate NodesSeen(mem: seq<Page>, base: nat, w: Walk)
    requires Shape(mem, w)
  {
    forall i {:trigger NodeSeen(mem, base, w, i)} :: 0 <= i < |w.nodes| && w.visited[i] ==> NodeSeen(mem, base, w, i)
  }

  ghost predicate AllDistinct(mem: seq<Page>, w: Walk)
    requires Shape(mem, w)
  {
    forall i, j {:trigger Distinct(w, i, j)} ::
      0 <= i < j < |w.nodes| && w.visited[i] && w.visited[j] ==> Distinct(w, i, j)
  }

  ghost predicate EntriesDone(mem: seq<Page>, base: nat, w: Walk)
    requires Shape(mem, w)
  {
    forall p, j {:trigger EntryDone(mem, base, w, p, j)} ::
      0 <= p < |w.nodes| && w.nodes[p].level > 1 && 0 <= j < w.progress[p] ==> EntryDone(mem, base, w, p, j)
  }

  ghost predicate LeavesDone(mem: seq<Page>, all: seq<Mapping>, w: Walk)
    requires Shape(mem, w)
  {
    forall p, j {:trigger LeafDone(mem, all, w, p, j)} ::
      0 <= p < |w.nodes| && w.nodes[p].level == 1 && 0 <= j < w.progress[p] ==> LeafDone(mem, all, w, p, j)
  }

  ghost predicate SeenJustified(mem: seq<Page>, w: Walk)
    requires Shape(mem, w)
  {
    forall x {:trigger x in w.seen} :: x in w.seen ==> exists p: nat :: LeafFrom(mem, w, x, p)
  }

  ghost predicate WalkOk(mem: seq<Page>, base: nat, all: seq<Mapping>, w: Walk) {
    && Shape(mem, w) && w.visited[0]
    && (forall i {:trigger w.progress[i]} :: 0 <= i < |w.nodes| && w.progress[i] > 0 ==> w.visited[i])
    && NodesSeen(mem, base, w) && AllDistinct(mem, w) && EntriesDone(mem, base, w)
    && LeavesDone(mem, all, w) && SeenJustified(mem, w)
  }

  lemma SameTable(mem: seq<Page>, base: nat, all: seq<Mapping>, w: Walk, i: nat, j: nat)
    requires WalkOk(mem, base, all, w) && i < |w.nodes| && j < |w.nodes| && w.visited[i] && w.visited[j]
    requires w.nodes[i].level == w.nodes[j].level && w.nodes[i].prefix == w.nodes[j].prefix
    ensures i == j
  {
    assert i < j ==> Distinct(w, i, j);
    assert j < i ==> Distinct(w, j, i);
  }

  // ---- One entry -------------------------------------------------------------------------

  function Advance(w: Walk, p: nat): Walk
    requires p < |w.progress|
  {
    w.(progress := w.progress[p := w.progress[p] + 1])
  }

  /** Examining an entry that adds no table and is itself accounted for. */
  lemma AdvanceOk(mem: seq<Page>, base: nat, all: seq<Mapping>, w: Walk, p: nat)
    requires WalkOk(mem, base, all, w) && p < |w.nodes| && w.visited[p] && w.progress[p] < 512
    requires w.nodes[p].level > 1 ==> EntryDone(mem, base, w, p, w.progress[p])
    requires w.nodes[p].level == 1 ==> LeafDone(mem, all, w, p, w.progress[p])
    ensures WalkOk(mem, base, all, Advance(w, p))
  {
    AdvanceNodes(mem, base, w, p);
    AdvanceEntries(mem, base, w, p);
    AdvanceLeaves(mem, all, w, p);
    AdvanceSeen(mem, w, p);
  }

  lemma AdvanceNodes(mem: seq<Page>, base: nat, w: Walk, p: nat)
    requires Shape(mem, w) && p < |w.nodes| && w.progress[p] < 512 && NodesSeen(mem, base, w) && AllDistinct(mem, w)
    ensures Shape(mem, Advance(w, p)) && NodesSeen(mem, base, Advance(w, p)) && AllDistinct(mem, Advance(w, p))
  {
    var w' := Advance(w, p);
    forall i | 0 <= i < |w'.nodes| && w'.visited[i] ensures NodeSeen(mem, base, w', i) {
      assert NodeSeen(mem, base, w, i);
    }
    forall i, j | 0 <= i < j < |w'.nodes| && w'.visited[i] && w'.visited[j] ensures Distinct(w', i, j) {
      assert Distinct(w, i, j);
    }
  }

  lemma AdvanceEntries(mem: seq<Page>, base: nat, w: Walk, p: nat)
    requires Shape(mem, w) && p < |w.nodes| && w.progress[p] < 512 && EntriesDone(mem, base, w)
    requires w.nodes[p].level > 1 ==> EntryDone(mem, base, w, p, w.progress[p])
    ensures Shape(mem, Advance(w, p)) && EntriesDone(mem, base, Advance(w, p))
  {
    var w' := Advance(w, p);
    forall q, j | 0 <= q < |w'.nodes| && w'.nodes[q].level > 1 && 0 <= j < w'.progress[q]
      ensures EntryDone(mem, base, w', q, j)
    {
      assert EntryDone(mem, base, w, q, j);
    }
  }

  lemma AdvanceLeaves(mem: seq<Page>, all: seq<Mapping>, w: Walk, p: nat)
    requires Shape(mem, w) && p < |w.nodes| && w.progress[p] < 512 && LeavesDone(mem, all, w)
    requires w.nodes[p].level == 1 ==> LeafDone(mem, all, w, p, w.progress[p])
    ensures Shape(mem, Advance(w, p)) && LeavesDone(mem, all, Advance(w, p))
  {
    var w' := Advance(w, p);
    forall q, j | 0 <= q < |w'.nodes| && w'.nodes[q].level == 1 && 0 <= j < w'.progress[q]
      ensures LeafDone(mem, all, w', q, j)
    {
      assert LeafDone(mem, all, w, q, j);
    }
  }

  lemma AdvanceSeen(mem: seq<Page>, w: Walk, p: nat)
    requires Shape(mem, w) && p < |w.nodes| && w.progress[p] < 512 && SeenJustified(mem, w)
    ensures Shape(mem, Advance(w, p)) && SeenJustified(mem, Advance(w, p))
  {
    var w' := Advance(w, p);
    forall x | x in w'.seen ensures exists q: nat :: LeafFrom(mem, w', x, q) {
      var q: nat :| LeafFrom(mem, w, x, q);
      assert LeafFrom(mem, w', x, q);
    }
  }

  /** The walk after reaching table `c` through entry `progress[p]` of table `p`. */
  function Reach(w: Walk, p: nat, c: nat): Walk
    requires p < |w.nodes| == |w.progress| && c < |w.nodes| <= |w.visited| && w.nodes[p].level > 1
  {
    Advance(w.(visited := w.visited[c := true],
               nodes := w.nodes[c := Node(w.nodes[p].level - 1, w.nodes[p].prefix * 512 + w.progress[p], p)],
               progress := w.progress[c := 0]), p)
  }

  /** A newly linked table covers a region no reached table covers. */
  lemma ReachFresh(mem: seq<Page>, base: nat, all: seq<Mapping>, w: Walk, p: nat, c: nat, i: nat)
    requires WalkOk(mem, base, all, w) && p < |w.nodes| && w.visited[p] && w.nodes[p].level > 1 && w.progress[p] < 512
    requires 0 < c < |w.nodes| && !w.visited[c] && mem[p][w.progress[p]] == TableEntry(base, c)
    requires i < |w.nodes| && w.visited[i]
    ensures w.nodes[i].level != w.nodes[p].level - 1 || w.nodes[i].prefix != w.nodes[p].prefix * 512 + w.progress[p]
  {
    assert NodeSeen(mem, base, w, i) && NodeSeen(mem, base, w, p);
    if w.nodes[i].level == w.nodes[p].level - 1 && w.nodes[i].prefix == w.nodes[p].prefix * 512 + w.progress[p] {
      SameTable(mem, base, all, w, w.nodes[i].parent, p);
    }
  }

  /** Reaching a table whose page was not reached before. */
  lemma ReachOk(mem: seq<Page>, base: nat, all: seq<Mapping>, w: Walk, p: nat, c: nat)
    requires WalkOk(mem, base, all, w) && base % 4096 == 0
    requires p < |w.nodes| && w.visited[p] && w.nodes[p].level > 1 && w.progress[p] < 512
    requires 0 < c < |w.nodes| && !w.visited[c] && mem[p][w.progress[p]] == TableEntry(base, c)
    ensures WalkOk(mem, base, all, Reach(w, p, c))
  {
    assert NodeSeen(mem, base, w, p);
    assert w.progress[c] == 0;
    ReachNodes(mem, base, all, w, p, c);
    ReachEntries(mem, base, all, w, p, c);
    ReachLeaves(mem, base, all, w, p, c);
  }

  /** A child of an admissible table is admissible. */
  lemma ChildShape(n: Node, j: nat)
    requires 2 <= n.level <= 4 && n.prefix < LevelRegions(n.level) && j < 512
    ensures n.prefix * 512 + j < LevelRegions(n.level - 1)
    ensures (n.prefix * 512 + j) / 512 == n.prefix && (n.prefix * 512 + j) % 512 == j
  {
  }

  lemma ReachNodes(mem: seq<Page>, base: nat, all: seq<Mapping>, w: Walk, p: nat, c: nat)
    requires WalkOk(mem, base, all, w)
    requires p < |w.nodes| && w.visited[p] && w.nodes[p].level > 1 && w.progress[p] < 512 && NodeSeen(mem, base, w, p)
    requires 0 < c < |w.nodes| && !w.visited[c] && w.progress[c] == 0 && mem[p][w.progress[p]] == TableEntry(base, c)
    ensures var w' := Reach(w, p, c); Shape(mem, w') && NodesSeen(mem, base, w') && AllDistinct(mem, w')
  {
    var w' := Reach(w, p, c);
    ChildShape(w.nodes[p], w.progress[p]);
    forall i | 0 <= i < |w'.nodes| && w'.visited[i] ensures NodeSeen(mem, base, w', i) {
      if i != c { assert NodeSeen(mem, base, w, i); }
    }
    forall i, j | 0 <= i < j < |w'.nodes| && w'.visited[i] && w'.visited[j] ensures Distinct(w', i, j) {
      if i == c {
        ReachFresh(mem, base, all, w, p, c, j);
      } else if j == c {
        ReachFresh(mem, base, all, w, p, c, i);
      } else {
        assert Distinct(w, i, j);
      }
    }
  }

  lemma ReachEntries(mem: seq<Page>, base: nat, all: seq<Mapping>, w: Walk, p: nat, c: nat)
    requires WalkOk(mem, base, all, w) && base % 4096 == 0
    requires p < |w.nodes| && w.visited[p] && w.nodes[p].level > 1 && w.progress[p] < 512
    requires 0 < c < |w.nodes| && !w.visited[c] && w.progress[c] == 0 && mem[p][w.progress[p]] == TableEntry(base, c)
    ensures var w' := Reach(w, p, c); Shape(mem, w') && EntriesDone(mem, base, w')
  {
    var w' := Reach(w, p, c);
    EntryChild(base, c);
    forall q, j | 0 <= q < |w'.nodes| && w'.nodes[q].level > 1 && 0 <= j < w'.progress[q]
      ensures EntryDone(mem, base, w', q, j)
    {
      if q != p || j < w.progress[p] { assert EntryDone(mem, base, w, q, j); }
    }
  }

  lemma ReachLeaves(mem: seq<Page>, base: nat, all: seq<Mapping>, w: Walk, p: nat, c: nat)
    requires WalkOk(mem, base, all, w)
    requires p < |w.nodes| && w.visited[p] && w.nodes[p].level > 1 && w.progress[p] < 512
    requires 0 < c < |w.nodes| && !w.visited[c] && w.progress[c] == 0
    ensures var w' := Reach(w, p, c); Shape(mem, w') && LeavesDone(mem, all, w') && SeenJustified(mem, w')
  {
    var w' := Reach(w, p, c);
    forall q, j | 0 <= q < |w'.nodes| && w'.nodes[q].level == 1 && 0 <= j < w'.progress[q]
      ensures LeafDone(mem, all, w', q, j)
    {
      assert LeafDone(mem, all, w, q, j);
    }
    forall x | x in w'.seen ensures exists q: nat :: LeafFrom(mem, w', x, q) {
      var q: nat :| LeafFrom(mem, w, x, q);
      assert LeafFrom(mem, w', x, q);
    }
  }

  /** The walk after meeting a planned leaf in entry `progress[p]` of the level-1 table `p`. */
  function Meet(w: Walk, p: nat): Walk
    requires p < |w.nodes| == |w.progress|
  {
    Advance(w.(seen := w.seen + {w.nodes[p].prefix * 512 + w.progress[p]}), p)
  }

  lemma MeetOk(mem: seq<Page>, base: nat, all: seq<Mapping>, w: Walk, p: nat)
    requires WalkOk(mem, base, all, w)
    requires p < |w.nodes| && w.visited[p] && w.nodes[p].level == 1 && w.progress[p] < 512
    requires mem[p][w.progress[p]] != 0
    requires ExpectedLeaf(all, CanonicalAddress(w.nodes[p].prefix * 512 + w.progress[p])) == Some(mem[p][w.progress[p]])
    ensures WalkOk(mem, base, all, Meet(w, p)) && |Meet(w, p).seen| == |w.seen| + 1
  {
    var w', x := Meet(w, p), w.nodes[p].prefix * 512 + w.progress[p];
    assert x / 512 == w.nodes[p].prefix && x % 512 == w.progress[p];
    if x in w.seen {
      var q: nat :| LeafFrom(mem, w, x, q);
      SameTable(mem, base, all, w, p, q);
    }
    assert LeafFrom(mem, w', x, p);
    AdvanceNodes(mem, base, w, p);
    SeenIrrelevant(mem, base, Advance(w, p), w');
    MeetEntries(mem, base, all, w, p);
    forall y | y in w'.seen ensures exists q: nat :: LeafFrom(mem, w', y, q) {
      if y != x {
        var q: nat :| LeafFrom(mem, w, y, q);
        assert LeafFrom(mem, w', y, q);
      }
    }
  }

  lemma SeenIrrelevant(mem: seq<Page>, base: nat, w: Walk, w': Walk)
    requires Shape(mem, w) && NodesSeen(mem, base, w) && AllDistinct(mem, w) && w' == w.(seen := w'.seen)
    ensures Shape(mem, w') && NodesSeen(mem, base, w') && AllDistinct(mem, w')
  {
    forall i | 0 <= i < |w'.nodes| && w'.visited[i] ensures NodeSeen(mem, base, w', i) {
      assert NodeSeen(mem, base, w, i);
    }
    forall i, j | 0 <= i < j < |w'.nodes| && w'.visited[i] && w'.visited[j] ensures Distinct(w', i, j) {
      assert Distinct(w, i, j);
    }
  }

  lemma MeetEntries(mem: seq<Page>, base: nat, all: seq<Mapping>, w: Walk, p: nat)
    requires WalkOk(mem, base, all, w)
    requires p < |w.nodes| && w.visited[p] && w.nodes[p].level == 1 && w.progress[p] < 512
    requires ExpectedLeaf(all, CanonicalAddress(w.nodes[p].prefix * 512 + w.progress[p])) == Some(mem[p][w.progress[p]])
    ensures var w' := Meet(w, p); Shape(mem, w') && EntriesDone(mem, base, w') && LeavesDone(mem, all, w')
  {
    var w' := Meet(w, p);
    forall q, j | 0 <= q < |w'.nodes| && w'.nodes[q].level > 1 && 0 <= j < w'.progress[q]
      ensures EntryDone(mem, base, w', q, j)
    {
      assert EntryDone(mem, base, w, q, j);
    }
    forall q, j | 0 <= q < |w'.nodes| && w'.nodes[q].level == 1 && 0 <= j < w'.progress[q]
      ensures LeafDone(mem, all, w', q, j)
    {
      if q != p || j < w.progress[p] { assert LeafDone(mem, all, w, q, j); }
    }
  }

  // ---- The plan's leaves -----------------------------------------------------------------

  lemma SuffixPlaced(ms: seq<Mapping>)
    requires AllPlaced(ms) && ms != []
    ensures AllPlaced(ms[1..])
  {
    forall i, j | 0 <= i < j < |ms[1..]| ensures Apart(ms[1..][i], ms[1..][j]) {
      assert Apart(ms[i + 1], ms[j + 1]);
    }
  }

  lemma {:induction false} ExpectedAt(ms: seq<Mapping>, i: nat, a: nat)
    requires AllPlaced(ms) && i < |ms| && ms[i].Covers(a)
    ensures ExpectedLeaf(ms, a) == Some(LeafEntry(ms[i].physicalStart + (a - ms[i].virtualStart), ms[i].permissions))
  {
    assert Placed(ms[0]);
    if i > 0 {
      assert Apart(ms[0], ms[i]);
      SuffixPlaced(ms);
      ExpectedAt(ms[1..], i - 1, a);
    }
  }

  lemma {:induction false} ExpectedNone(ms: seq<Mapping>, a: nat)
    requires forall i :: 0 <= i < |ms| ==> !ms[i].Covers(a)
    ensures ExpectedLeaf(ms, a).None?
  {
    if ms != [] { ExpectedNone(ms[1..], a); }
  }

  /** The leaf expected for a page is the plan's leaf. */
  lemma ExpectedIsLeaf(ms: seq<Mapping>, q: nat)
    requires AllPlaced(ms) && q < PAGES
    ensures ExpectedLeaf(ms, CanonicalAddress(q)) == if q in LeavesOf(ms) then Some(LeavesOf(ms)[q]) else None
  {
    var a := CanonicalAddress(q);
    PageRoundTrip(q);
    LeavesOfDomain(ms);
    PagesOfMember(ms, q);
    if i :| 0 <= i < |ms| && q in Pages(ms[i]) {
      CanonicalOfPage(ms[i], q);
      ExpectedOfPage(ms, i, q, a, (q - FirstPage(ms[i])) * 4096);
    } else {
      forall i | 0 <= i < |ms| ensures !ms[i].Covers(a) {
        if ms[i].Covers(a) { PageOfAddress(ms[i], a); }
      }
      ExpectedNone(ms, a);
    }
  }

  lemma ExpectedOfPage(ms: seq<Mapping>, i: nat, q: nat, a: nat, offset: int)
    requires AllPlaced(ms) && i < |ms| && q in Pages(ms[i]) && ms[i].Covers(a)
    requires a == ms[i].virtualStart + offset && offset == (q - FirstPage(ms[i])) * 4096
    ensures q in LeavesOf(ms) && ExpectedLeaf(ms, a) == Some(LeavesOf(ms)[q])
  {
    ExpectedAt(ms, i, a);
    LeafOfPage(ms, i, q);
  }

  lemma {:induction false} PageRangeSize(first: nat, count: nat)
    ensures |PageRange(first, count)| == count
  {
    if count > 0 {
      PageRangeSize(first, count - 1);
      assert PageRange(first, count) == PageRange(first, count - 1) + {first + count - 1};
    } else {
      assert PageRange(first, count) == {};
    }
  }

  lemma PagesBounded(ms: seq<Mapping>, q: nat)
    requires AllPlaced(ms) && q in PagesOf(ms)
    ensures q < PAGES
  {
    PagesOfMember(ms, q);
    var i :| 0 <= i < |ms| && q in Pages(ms[i]);
    OneHalfRange(ms[i]);
    ConsecutivePages(ms[i].virtualStart, ms[i].byteLen, q - FirstPage(ms[i]));
  }

  /** The expected leaf count is the number of planned pages, and its checked sum cannot overflow. */
  lemma {:induction false} CountIsPages(ms: seq<Mapping>)
    requires AllPlaced(ms)
    ensures ExpectedLeafCount(ms, 4096) == Some(|PagesOf(ms)|)
  {
    if ms != [] {
      var n := |ms| - 1;
      PrefixPlaced(ms, n);
      CountIsPages(ms[..n]);
      PagesApart(ms, n);
      PageRangeSize(FirstPage(ms[n]), PageTotal(ms[n]));
      PagesFit(ms);
    }
  }

  lemma PagesFit(ms: seq<Mapping>)
    requires AllPlaced(ms)
    ensures |PagesOf(ms)| <= PAGES
  {
    PageRangeSize(0, PAGES);
    forall q | q in PagesOf(ms) ensures q in PageRange(0, PAGES) { PagesBounded(ms, q); }
    SubsetSize(PagesOf(ms), PageRange(0, PAGES));
  }

  // ---- The end of the walk ---------------------------------------------------------------

  ghost predicate Complete(w: Walk) {
    |w.nodes| == |w.progress| <= |w.visited|
    && forall i :: 0 <= i < |w.nodes| ==> w.visited[i] && w.progress[i] == 512
  }

  /** A completed walk has found a tree. */
  lemma WalkIsTree(mem: seq<Page>, base: nat, all: seq<Mapping>, w: Walk)
    requires WalkOk(mem, base, all, w) && Complete(w) && base % 4096 == 0 && UnusedZero(mem, |w.nodes|)
    ensures Tree(mem, w.nodes, base)
  {
    var nodes := w.nodes;
    assert NodeSeen(mem, base, w, 0);
    forall i | 0 < i < |nodes| ensures NodeOk(nodes, i) && LinkedAt(mem, nodes, base, i) {
      assert NodeSeen(mem, base, w, i);
    }
    forall i, j | 0 <= i < j < |nodes| ensures Differ(nodes, i, j) {
      assert Distinct(w, i, j);
    }
    forall p, j | 0 <= p < |nodes| && nodes[p].level > 1 && 0 <= j < 512 ensures ClosedAt(mem, nodes, base, p, j) {
      assert EntryDone(mem, base, w, p, j);
    }
  }

  /** Every leaf met is planned, so equal totals make them all the planned leaves. */
  lemma SeenIsPlan(mem: seq<Page>, base: nat, all: seq<Mapping>, w: Walk)
    requires WalkOk(mem, base, all, w) && AllPlaced(all) && |w.seen| == |PagesOf(all)|
    ensures w.seen == PagesOf(all)
  {
    forall x | x in w.seen ensures x in PagesOf(all) { SeenPlanned(mem, base, all, w, x); }
    SubsetSize(w.seen, PagesOf(all));
  }

  lemma SeenPlanned(mem: seq<Page>, base: nat, all: seq<Mapping>, w: Walk, x: nat)
    requires WalkOk(mem, base, all, w) && AllPlaced(all) && x in w.seen
    ensures x in PagesOf(all)
  {
    LeavesOfDomain(all);
    var p: nat :| LeafFrom(mem, w, x, p);
    assert LeafDone(mem, all, w, p, x % 512);
    assert NodeSeen(mem, base, w, p);
    assert w.nodes[p].prefix * 512 + x % 512 == x;
    ExpectedIsLeaf(all, x);
  }

  lemma WalkLeaves(mem: seq<Page>, base: nat, all: seq<Mapping>, w: Walk)
    requires WalkOk(mem, base, all, w) && Complete(w) && base % 4096 == 0 && UnusedZero(mem, |w.nodes|)
    requires AllPlaced(all) && w.seen == PagesOf(all)
    ensures LeavesAgree(mem, w.nodes, LeavesOf(all))
  {
    var leaves := LeavesOf(all);
    WalkIsTree(mem, base, all, w);
    LeavesOfDomain(all);
    forall q | q in leaves ensures leaves[q] != 0 { LeafNonzero(all, q); }
    forall q: nat ensures LeafAt(mem, w.nodes, q) == if q in leaves then leaves[q] else 0 {
      LeafOfWalk(mem, base, all, w, q);
    }
  }

  lemma LeafNonzero(all: seq<Mapping>, q: nat)
    requires AllPlaced(all) && q in LeavesOf(all)
    ensures LeavesOf(all)[q] % 2 == 1
  {
    LeavesOfDomain(all);
    PagesOfMember(all, q);
    var i :| 0 <= i < |all| && q in Pages(all[i]);
    LeafOfPage(all, i, q);
  }

  lemma LeafOfWalk(mem: seq<Page>, base: nat, all: seq<Mapping>, w: Walk, q: nat)
    requires WalkOk(mem, base, all, w) && Complete(w) && Tree(mem, w.nodes, base)
    requires AllPlaced(all) && w.seen == PagesOf(all)
    ensures LeafAt(mem, w.nodes, q) == if q in LeavesOf(all) then LeavesOf(all)[q] else 0
  {
    LeavesOfDomain(all);
    if q in w.seen {
      SeenLeaf(mem, base, all, w, q);
      PagesBounded(all, q);
      ExpectedIsLeaf(all, q);
    } else {
      UnseenLeaf(mem, base, all, w, q);
    }
  }

  lemma SeenLeaf(mem: seq<Page>, base: nat, all: seq<Mapping>, w: Walk, q: nat)
    requires WalkOk(mem, base, all, w) && Complete(w) && Tree(mem, w.nodes, base) && q in w.seen
    ensures ExpectedLeaf(all, CanonicalAddress(q)) == Some(LeafAt(mem, w.nodes, q))
  {
    var p: nat :| LeafFrom(mem, w, q, p);
    assert At(w.nodes, p, 1, Region(q, 1));
    LeafIs(mem, w.nodes, p, q);
    assert LeafDone(mem, all, w, p, q % 512) && w.nodes[p].prefix * 512 + q % 512 == q;
  }

  lemma UnseenLeaf(mem: seq<Page>, base: nat, all: seq<Mapping>, w: Walk, q: nat)
    requires WalkOk(mem, base, all, w) && Complete(w) && Tree(mem, w.nodes, base) && q !in w.seen
    ensures LeafAt(mem, w.nodes, q) == 0
  {
    if p: nat :| At(w.nodes, p, 1, Region(q, 1)) {
      LeafIs(mem, w.nodes, p, q);
      assert LeafDone(mem, all, w, p, q % 512) && w.nodes[p].prefix * 512 + q % 512 == q;
    }
  }
}
