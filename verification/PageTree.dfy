/** The four-level hierarchy as a tree of tables.

A `Node` records, for one used page of the storage, its level and which region of the address space
it covers.  `Tree` says that the words in memory realize exactly such a tree: every table has one
parent entry, every nonzero intermediate entry is the link to one table, no region has two tables,
and all unused storage is zero.
*/
module PageTree {
  import opened Outcome
  import opened Words
  import opened Regions
  import opened TransitionTypes
  import opened PageEntry

  /** `prefix` is the 48-bit page number divided by the 512^level pages the table covers. */
  datatype Node = Node(level: nat, prefix: nat, parent: nat)

  const PAGES: nat := 0x10_0000_0000  // 2^36 pages of a 48-bit address space

  /** Region of the level-`level` table on the way to a page: the page number over 512^level. */
  function Region(pn: nat, level: nat): nat {
    if level == 0 then pn
    else if level == 1 then pn / 512
    else if level == 2 then pn / 0x4_0000
    else if level == 3 then pn / 0x800_0000
    else pn / 0x10_0000_0000
  }

  /** How many regions of a level there are. */
  function LevelRegions(level: nat): nat {
    if level == 1 then 0x800_0000 else if level == 2 then 0x4_0000 else if level == 3 then 512 else 1
  }

  /** Entry index taken in the level-`level` table on the way to a page. */
  function Index(pn: nat, level: nat): nat
    requires level >= 1
  {
    Region(pn, level - 1) % 512
  }

  lemma PathStep(pn: nat, level: nat)
    requires pn < PAGES && 1 <= level <= 4
    ensures Region(pn, level) * 512 + Index(pn, level) == Region(pn, level - 1)
    ensures Region(pn, level - 1) / 512 == Region(pn, level) && Region(pn, level - 1) % 512 == Index(pn, level)
    ensures Region(pn, 4) == 0
  {
    DivDiv(pn, 512, 512);
    DivDiv(pn, 0x4_0000, 512);
    DivDiv(pn, 0x800_0000, 512);
  }

  ghost predicate At(nodes: seq<Node>, i: nat, level: nat, prefix: nat) {
    i < |nodes| && nodes[i].level == level && nodes[i].prefix == prefix
  }

  ghost predicate NodeOk(nodes: seq<Node>, i: nat)
    requires i < |nodes|
  {
    && 1 <= nodes[i].level <= 3
    && nodes[i].prefix < LevelRegions(nodes[i].level)
    && At(nodes, nodes[i].parent, nodes[i].level + 1, nodes[i].prefix / 512)
  }

  ghost predicate NodesOk(nodes: seq<Node>) {
    && |nodes| >= 1 && nodes[0] == Node(4, 0, 0)
    && (forall i {:trigger NodeOk(nodes, i)} :: 0 < i < |nodes| ==> NodeOk(nodes, i))
    && (forall i, j {:trigger Differ(nodes, i, j)} :: 0 <= i < j < |nodes| ==> Differ(nodes, i, j))
  }

  /** Two tables do not cover the same region. */
  ghost predicate Differ(nodes: seq<Node>, i: nat, j: nat)
    requires i < |nodes| && j < |nodes|
  {
    nodes[i].level != nodes[j].level || nodes[i].prefix != nodes[j].prefix
  }

  /** A table hangs under its parent. */
  ghost predicate LinkedAt(mem: seq<Page>, nodes: seq<Node>, base: nat, c: nat) {
    && c < |nodes| && nodes[c].parent < |mem|
    && mem[nodes[c].parent][nodes[c].prefix % 512] == TableEntry(base, c)
  }

  ghost predicate Linked(mem: seq<Page>, nodes: seq<Node>, base: nat) {
    forall c {:trigger LinkedAt(mem, nodes, base, c)} :: 0 < c < |nodes| ==> LinkedAt(mem, nodes, base, c)
  }

  /** The storage page a table entry points to. */
  function ChildIndex(e: Word, base: nat): int { (e - e % 4096 - base) / 4096 }

  /** An intermediate entry is zero or the link to the one table of its region. */
  ghost predicate ClosedAt(mem: seq<Page>, nodes: seq<Node>, base: nat, p: nat, j: nat)
    requires p < |nodes| <= |mem| && nodes[p].level > 1 && j < 512
  {
    var e := mem[p][j];
    var c := ChildIndex(e, base);
    e == 0 || (0 < c < |nodes| && e == TableEntry(base, c)
               && nodes[c] == Node(nodes[p].level - 1, nodes[p].prefix * 512 + j, p))
  }

  ghost predicate Closed(mem: seq<Page>, nodes: seq<Node>, base: nat)
    requires |nodes| <= |mem|
  {
    forall p, j {:trigger ClosedAt(mem, nodes, base, p, j)} ::
      0 <= p < |nodes| && nodes[p].level > 1 && 0 <= j < 512 ==> ClosedAt(mem, nodes, base, p, j)
  }

  ghost predicate UnusedZero(mem: seq<Page>, used: nat) {
    forall i {:trigger ZeroPage(mem[i])} :: used <= i < |mem| ==> ZeroPage(mem[i])
  }

  ghost predicate Tree(mem: seq<Page>, nodes: seq<Node>, base: nat) {
    && base % 4096 == 0 && 1 <= |nodes| <= |mem|
    && NodesOk(nodes) && Linked(mem, nodes, base) && Closed(mem, nodes, base) && UnusedZero(mem, |nodes|)
  }

  lemma Unique(nodes: seq<Node>, i: nat, j: nat, level: nat, prefix: nat)
    requires NodesOk(nodes) && At(nodes, i, level, prefix) && At(nodes, j, level, prefix)
    ensures i == j
  {
    assert i < j ==> Differ(nodes, i, j);
    assert j < i ==> Differ(nodes, j, i);
  }

  /** An empty intermediate entry means that the region has no table. */
  lemma NoTableBelow(mem: seq<Page>, nodes: seq<Node>, base: nat, p: nat, j: nat, c: nat)
    requires Tree(mem, nodes, base) && p < |nodes| && nodes[p].level > 1 && j < 512 && mem[p][j] == 0
    ensures !At(nodes, c, nodes[p].level - 1, nodes[p].prefix * 512 + j)
  {
    PrefixRoom(nodes, p, j);
    if At(nodes, c, nodes[p].level - 1, nodes[p].prefix * 512 + j) {
      assert NodeOk(nodes, c) && nodes[c].prefix / 512 == nodes[p].prefix && nodes[c].prefix % 512 == j;
      assert LinkedAt(mem, nodes, base, c);
      Unique(nodes, nodes[c].parent, p, nodes[p].level, nodes[p].prefix);
    }
  }

  // ---- Growing the tree ------------------------------------------------------------------

  function SetWord(mem: seq<Page>, p: nat, j: nat, w: Word): (r: seq<Page>)
    requires p < |mem| && j < 512
    ensures |r| == |mem| && r[p][j] == w
    ensures forall i, k :: 0 <= i < |mem| && 0 <= k < 512 && (i != p || k != j) ==> r[i][k] == mem[i][k]
  {
    mem[p := mem[p][j := w]]
  }

  function NewChild(nodes: seq<Node>, p: nat, j: nat): Node
    requires p < |nodes| && nodes[p].level > 1
  {
    Node(nodes[p].level - 1, nodes[p].prefix * 512 + j, p)
  }

  lemma NewChildOk(mem: seq<Page>, nodes: seq<Node>, base: nat, p: nat, j: nat)
    requires Tree(mem, nodes, base) && p < |nodes| && nodes[p].level > 1 && j < 512 && mem[p][j] == 0
    ensures NodesOk(nodes + [NewChild(nodes, p, j)])
  {
    var n, child := |nodes|, NewChild(nodes, p, j);
    var nodes' := nodes + [child];
    PrefixRoom(nodes, p, j);
    assert At(nodes', p, child.level + 1, child.prefix / 512);
    forall i | 0 < i < n ensures NodeOk(nodes', i) { assert NodeOk(nodes, i); }
    forall i, k | 0 <= i < k < |nodes'| ensures Differ(nodes', i, k) {
      if k < n {
        assert Differ(nodes, i, k);
      } else {
        NoTableBelow(mem, nodes, base, p, j, i);
      }
    }
  }

  lemma PrefixRoom(nodes: seq<Node>, p: nat, j: nat)
    requires NodesOk(nodes) && p < |nodes| && nodes[p].level > 1 && j < 512
    ensures 1 <= nodes[p].level - 1 <= 3
    ensures nodes[p].prefix * 512 + j < LevelRegions(nodes[p].level - 1)
    ensures (nodes[p].prefix * 512 + j) / 512 == nodes[p].prefix && (nodes[p].prefix * 512 + j) % 512 == j
  {
    if p > 0 { assert NodeOk(nodes, p); }
  }

  lemma EntryChild(base: nat, c: nat)
    requires base % 4096 == 0
    ensures TableEntry(base, c) % 4096 == 3 && (TableEntry(base, c) - 3 - base) / 4096 == c
  {
  }

  /** Linking one fresh zero page under an empty entry keeps the tree. */
  lemma AddChild(mem: seq<Page>, nodes: seq<Node>, base: nat, p: nat, j: nat)
    requires Tree(mem, nodes, base) && p < |nodes| < |mem| && nodes[p].level > 1 && j < 512 && mem[p][j] == 0
    requires TableEntry(base, |nodes|) < TWO64
    ensures Tree(SetWord(mem, p, j, TableEntry(base, |nodes|)), nodes + [NewChild(nodes, p, j)], base)
  {
    var n, child := |nodes|, NewChild(nodes, p, j);
    var nodes', mem' := nodes + [child], SetWord(mem, p, j, TableEntry(base, n));
    NewChildOk(mem, nodes, base, p, j);
    PrefixRoom(nodes, p, j);
    EntryChild(base, n);
    forall c | 0 < c < |nodes'| ensures LinkedAt(mem', nodes', base, c) {
      if c < n {
        assert NodeOk(nodes, c) && LinkedAt(mem, nodes, base, c);
      }
    }
    forall q, k | 0 <= q < |nodes'| && nodes'[q].level > 1 && 0 <= k < 512
      ensures ClosedAt(mem', nodes', base, q, k)
    {
      if q == n {
        assert ZeroPage(mem[n]);
      } else if q != p || k != j {
        assert ClosedAt(mem, nodes, base, q, k);
      }
    }
    forall i | n + 1 <= i < |mem'| ensures ZeroPage(mem'[i]) { assert ZeroPage(mem[i]); }
  }

  /** Writing an entry of a level-1 table keeps the tree. */
  lemma SetLeaf(mem: seq<Page>, nodes: seq<Node>, base: nat, i: nat, j: nat, w: Word)
    requires Tree(mem, nodes, base) && i < |nodes| && nodes[i].level == 1 && j < 512
    ensures Tree(SetWord(mem, i, j, w), nodes, base)
  {
    var mem' := SetWord(mem, i, j, w);
    forall c | 0 < c < |nodes| ensures LinkedAt(mem', nodes, base, c) {
      assert NodeOk(nodes, c) && LinkedAt(mem, nodes, base, c);
    }
    forall q, k | 0 <= q < |nodes| && nodes[q].level > 1 && 0 <= k < 512
      ensures ClosedAt(mem', nodes, base, q, k)
    {
      assert ClosedAt(mem, nodes, base, q, k);
    }
    forall k | |nodes| <= k < |mem'| ensures ZeroPage(mem'[k]) { assert ZeroPage(mem[k]); }
  }

  // ---- Leaves ----------------------------------------------------------------------------

  ghost predicate HasLeafTable(nodes: seq<Node>, pn: nat) {
    exists i: nat :: At(nodes, i, 1, Region(pn, 1))
  }

  /** The leaf word of a page; zero when its region has no level-1 table. */
  ghost function LeafAt(mem: seq<Page>, nodes: seq<Node>, pn: nat): Word
    requires |nodes| <= |mem|
  {
    if HasLeafTable(nodes, pn) then
      var i: nat :| At(nodes, i, 1, Region(pn, 1));
      mem[i][pn % 512]
    else 0
  }

  lemma LeafIs(mem: seq<Page>, nodes: seq<Node>, i: nat, pn: nat)
    requires NodesOk(nodes) && |nodes| <= |mem| && At(nodes, i, 1, Region(pn, 1))
    ensures LeafAt(mem, nodes, pn) == mem[i][pn % 512]
  {
    assert HasLeafTable(nodes, pn);
    forall k: nat | At(nodes, k, 1, Region(pn, 1)) ensures k == i { Unique(nodes, k, i, 1, Region(pn, 1)); }
  }

  /** Linking a table changes no leaf. */
  lemma AddChildLeaf(mem: seq<Page>, nodes: seq<Node>, base: nat, p: nat, j: nat, pn: nat)
    requires Tree(mem, nodes, base) && p < |nodes| < |mem| && nodes[p].level > 1 && j < 512 && mem[p][j] == 0
    requires TableEntry(base, |nodes|) < TWO64
    ensures LeafAt(SetWord(mem, p, j, TableEntry(base, |nodes|)), nodes + [NewChild(nodes, p, j)], pn)
         == LeafAt(mem, nodes, pn)
  {
    var nodes', mem' := nodes + [NewChild(nodes, p, j)], SetWord(mem, p, j, TableEntry(base, |nodes|));
    NewChildOk(mem, nodes, base, p, j);
    if i: nat :| At(nodes, i, 1, Region(pn, 1)) {
      LeafIs(mem, nodes, i, pn);
      LeafIs(mem', nodes', i, pn);
    } else if i: nat :| At(nodes', i, 1, Region(pn, 1)) {
      LeafIs(mem', nodes', i, pn);
      assert !At(nodes, i, 1, Region(pn, 1));
      assert i == |nodes| && ZeroPage(mem[i]);
    }
  }

  /** Writing one leaf changes that page's leaf and no other. */
  lemma SetLeafLeaf(mem: seq<Page>, nodes: seq<Node>, base: nat, i: nat, pn: nat, w: Word, q: nat)
    requires Tree(mem, nodes, base) && At(nodes, i, 1, Region(pn, 1))
    ensures LeafAt(SetWord(mem, i, pn % 512, w), nodes, q) == if q == pn then w else LeafAt(mem, nodes, q)
  {
    var mem' := SetWord(mem, i, pn % 512, w);
    if k: nat :| At(nodes, k, 1, Region(q, 1)) {
      LeafIs(mem, nodes, k, q);
      LeafIs(mem', nodes, k, q);
      if k == i && q % 512 == pn % 512 {
        assert q / 512 == pn / 512;
      } else {
        assert q != pn by { if q == pn { Unique(nodes, k, i, 1, Region(pn, 1)); } }
      }
    }
  }

  // ---- Table regions in use --------------------------------------------------------------

  /** The regions, by level, that have a table. */
  ghost function Keys(nodes: seq<Node>): set<(nat, nat)> {
    set i | 0 <= i < |nodes| :: (nodes[i].level, nodes[i].prefix)
  }

  lemma {:induction false} KeyCount(nodes: seq<Node>, k: nat)
    requires NodesOk(nodes) && k <= |nodes|
    ensures |Keys(nodes[..k])| == k
  {
    if k > 0 {
      KeyCount(nodes, k - 1);
      KeysSnoc(nodes, k - 1);
      KeyFresh(nodes, k - 1);
    } else {
      assert Keys(nodes[..k]) == {};
    }
  }

  lemma KeyFresh(nodes: seq<Node>, k: nat)
    requires NodesOk(nodes) && k < |nodes|
    ensures (nodes[k].level, nodes[k].prefix) !in Keys(nodes[..k])
  {
    forall i | 0 <= i < k ensures (nodes[i].level, nodes[i].prefix) != (nodes[k].level, nodes[k].prefix) {
      assert Differ(nodes, i, k);
    }
  }

  lemma KeysSnoc(nodes: seq<Node>, k: nat)
    requires k < |nodes|
    ensures Keys(nodes[..k + 1]) == Keys(nodes[..k]) + {(nodes[k].level, nodes[k].prefix)}
  {
    var a, b := nodes[..k + 1], nodes[..k];
    forall x | x in Keys(a) ensures x in Keys(b) + {(nodes[k].level, nodes[k].prefix)} {
      var i :| 0 <= i < |a| && x == (a[i].level, a[i].prefix);
      if i < k { assert x == (b[i].level, b[i].prefix); }
    }
    forall x | x in Keys(b) ensures x in Keys(a) {
      var i :| 0 <= i < |b| && x == (b[i].level, b[i].prefix);
      assert x == (a[i].level, a[i].prefix);
    }
    assert (nodes[k].level, nodes[k].prefix) == (a[k].level, a[k].prefix);
  }
}
