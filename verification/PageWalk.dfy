/** Address translation: what a walk of the words in memory finds. */
module PageWalk {
  import opened Outcome
  import opened Words
  import opened Regions
  import opened TransitionTypes
  import opened PageEntry
  import opened PageTree

  datatype Translation = Translation(physicalAddress: int, writable: bool, executable: bool)

  /** Physical placement and width of the table storage. */
  datatype Layout = Layout(base: Word, capacity: nat, limit: nat) {
    /** Every storage page is a nonzero, encodable physical page. */
    ghost predicate Ok() {
      && base % 4096 == 0 && base > 0 && capacity >= 1
      && base + 4096 * (capacity - 1) < limit <= 0x10_0000_0000_0000 && limit >= 8192 && limit % 4096 == 0
    }
  }

  /** `page_index_for_capacity_physical`. */
  function StorageIndex(l: Layout, physical: nat): Option<nat> {
    if !ValidPhysicalPage(physical, l.limit) || physical < l.base then None
    else if (physical - l.base) / 4096 < l.capacity then Some((physical - l.base) / 4096) else None
  }

  /** One step of a walk: the used table that an intermediate entry names. */
  function Follow(l: Layout, mem: seq<Page>, used: nat, page: nat, j: nat): (r: Option<nat>)
    requires page < |mem| == l.capacity && j < 512
    ensures r.Some? ==> r.value < used && r.value < |mem|
  {
    var e := mem[page][j];
    if !IsPresent(e) || !TableBitsOk(e, l.limit) then None
    else match StorageIndex(l, e - e % 4096)
      case None => None
      case Some(c) => if c < used then Some(c) else None
  }

  /** The table reached after `depth` steps towards a page. */
  function Descend(l: Layout, mem: seq<Page>, used: nat, pn: nat, depth: nat): (r: Option<nat>)
    requires 0 < |mem| == l.capacity && pn < PAGES && depth <= 3
    ensures r.Some? ==> r.value < |mem|
  {
    if depth == 0 then Some(0)
    else match Descend(l, mem, used, pn, depth - 1)
      case None => None
      case Some(p) => Follow(l, mem, used, p, Index(pn, 5 - depth))
  }

  /** What a leaf word translates an address of its page to.  Once the allowed bits are checked, the
      address field is what remains below bit 63. */
  function LeafTranslation(e: Word, offset: nat, limit: nat): Option<Translation> {
    if !IsPresent(e) || !LeafBitsOk(e, limit) then None
    else Some(Translation(e % TWO63 - e % 4096 + offset, IsWritable(e), IsExecutable(e)))
  }

  /** `translate`, as a function of the words in memory. */
  function Translate(l: Layout, mem: seq<Page>, used: nat, address: Word): Option<Translation>
    requires 0 < |mem| == l.capacity && l.limit > 0
  {
    if !Canonical(address) then None
    else
      PageNumberBound(address);
      match Descend(l, mem, used, PageNumber(address), 3)
      case None => None
      case Some(i) => LeafTranslation(mem[i][PageNumber(address) % 512], address % 4096, l.limit)
  }

  lemma EntryResolves(l: Layout, c: nat)
    requires l.Ok() && c < l.capacity
    ensures TableEntry(l.base, c) < l.limit
    ensures var e := TableEntry(l.base, c);
            e % 2 == 1 && e / 2 % 2 == 1 && e % 4096 == 3 && StorageIndex(l, e - e % 4096) == Some(c)
  {
    var q := l.base / 4096 + c;
    assert TableEntry(l.base, c) == 4096 * q + 3;
    EntryBits(q);
    assert 4096 * q < l.limit && l.limit == 4096 * (l.limit / 4096);
    assert l.base == 4096 * (l.base / 4096) && (4096 * q - l.base) / 4096 == c;
  }

  lemma EntryBits(q: nat)
    ensures (4096 * q + 3) % 4096 == 3 && (4096 * q + 3) % 2 == 1 && (4096 * q + 3) / 2 % 2 == 1 && 4096 * q % 4096 == 0
  {
    DivModUnique(4096 * q + 3, 4096, q, 3);
    DivModUnique(4096 * q, 4096, q, 0);
    DivModUnique(4096 * q + 3, 2, 2048 * q + 1, 1);
    DivModUnique(2048 * q + 1, 2, 1024 * q, 1);
  }

  /** In a tree a step follows the link, or there is no table to find. */
  lemma FollowTree(l: Layout, mem: seq<Page>, nodes: seq<Node>, p: nat, j: nat, level: nat, prefix: nat)
    requires l.Ok() && |mem| == l.capacity && Tree(mem, nodes, l.base)
    requires p < |nodes| && nodes[p].level == level + 1 > 1 && j < 512 && prefix == nodes[p].prefix * 512 + j
    ensures var r := Follow(l, mem, |nodes|, p, j);
            if r.Some? then At(nodes, r.value, level, prefix) else forall c: nat :: !At(nodes, c, level, prefix)
  {
    assert ClosedAt(mem, nodes, l.base, p, j);
    if mem[p][j] == 0 {
      forall c: nat ensures !At(nodes, c, level, prefix) {
        NoTableBelow(mem, nodes, l.base, p, j, c);
      }
    } else {
      EntryResolves(l, ChildIndex(mem[p][j], l.base));
    }
  }

  /** A table of a page's region has ancestors for the wider regions. */
  lemma Ancestor(nodes: seq<Node>, c: nat, pn: nat, level: nat)
    requires NodesOk(nodes) && pn < PAGES && 1 <= level <= 3 && At(nodes, c, level, Region(pn, level))
    ensures At(nodes, nodes[c].parent, level + 1, Region(pn, level + 1))
  {
    assert NodeOk(nodes, c);
    PathStep(pn, level + 1);
  }

  ghost predicate NoneAt(nodes: seq<Node>, level: nat, region: nat) {
    forall c: nat :: !At(nodes, c, level, region)
  }

  /** One step of the walk towards a page. */
  lemma FollowPath(l: Layout, mem: seq<Page>, nodes: seq<Node>, p: nat, pn: nat, level: nat)
    requires l.Ok() && |mem| == l.capacity && Tree(mem, nodes, l.base)
    requires pn < PAGES && 2 <= level <= 4 && At(nodes, p, level, Region(pn, level))
    ensures var r := Follow(l, mem, |nodes|, p, Index(pn, level));
            if r.Some? then At(nodes, r.value, level - 1, Region(pn, level - 1))
            else NoneAt(nodes, level - 1, Region(pn, level - 1))
  {
    PathStep(pn, level);
    FollowTree(l, mem, nodes, p, Index(pn, level), level - 1, Region(pn, level - 1));
  }

  /** In a tree the walk finds the table of the page's region exactly when there is one. */
  lemma {:induction false} DescendTree(l: Layout, mem: seq<Page>, nodes: seq<Node>, pn: nat, depth: nat)
    requires l.Ok() && |mem| == l.capacity && Tree(mem, nodes, l.base) && pn < PAGES && depth <= 3
    ensures var r := Descend(l, mem, |nodes|, pn, depth);
            if r.Some? then At(nodes, r.value, 4 - depth, Region(pn, 4 - depth))
            else NoneAt(nodes, 4 - depth, Region(pn, 4 - depth))
  {
    if depth == 0 {
      PathStep(pn, 4);
    } else {
      DescendTree(l, mem, nodes, pn, depth - 1);
      var above := Descend(l, mem, |nodes|, pn, depth - 1);
      if above.Some? {
        FollowPath(l, mem, nodes, above.value, pn, 5 - depth);
      } else {
        var level, region := 4 - depth, Region(pn, 4 - depth);
        forall c: nat ensures !At(nodes, c, level, region) {
          if At(nodes, c, level, region) {
            Ancestor(nodes, c, pn, level);
          }
        }
      }
    }
  }

  /** In a tree, translation is determined by the leaf word of the page. */
  lemma TranslateTree(l: Layout, mem: seq<Page>, nodes: seq<Node>, address: Word)
    requires l.Ok() && |mem| == l.capacity && Tree(mem, nodes, l.base)
    ensures Translate(l, mem, |nodes|, address) ==
            if !Canonical(address) then None
            else LeafTranslation(LeafAt(mem, nodes, PageNumber(address)), address % 4096, l.limit)
  {
    var pn := PageNumber(address);
    PageNumberBound(address);
    DescendTree(l, mem, nodes, pn, 3);
    var r := Descend(l, mem, |nodes|, pn, 3);
    if r.Some? {
      LeafIs(mem, nodes, r.value, pn);
    }
  }

  /** An encodable leaf translates back to the page and permissions it was made from. */
  lemma LeafRoundTrip(physical: nat, permissions: Permissions, offset: nat, bits: nat)
    requires GoodWidth(bits) && physical % 4096 == 0 && physical < TWO64
    ensures Limit(bits) > 0 && LeafEntry(physical, permissions) < TWO64
    ensures physical < Limit(bits) <==>
            LeafTranslation(LeafEntry(physical, permissions), offset, Limit(bits))
            == Some(Translation(physical + offset, permissions.writable, permissions.executable))
  {
    LimitFacts(bits);
    LeafFlags(physical, permissions);
    if physical < Limit(bits) { AlignedRoom(physical, Limit(bits)); }
  }

  lemma AlignedRoom(physical: nat, limit: nat)
    requires physical % 4096 == 0 && limit % 4096 == 0 && physical < limit
    ensures physical + 4096 <= limit
  {
  }

  lemma LeafFlags(physical: nat, permissions: Permissions)
    requires physical % 4096 == 0 && physical < TWO64
    ensures var e := LeafEntry(physical, permissions);
            && e < TWO64 && e % 2 == 1 && e % 4096 == (if permissions.writable then 3 else 1)
            && (e / 2 % 2 == 1 <==> permissions.writable)
            && (physical < TWO63 ==> (e < TWO63 <==> permissions.executable)
                                     && e % TWO63 == physical + (if permissions.writable then 3 else 1))
            && (physical >= TWO63 ==> e % TWO63 == physical - TWO63 + (if permissions.writable then 3 else 1))
  {
    var w := physical + (if permissions.writable then 3 else 1);
    var e := LeafEntry(physical, permissions);
    assert w / 4096 == physical / 4096 && w % 4096 == (if permissions.writable then 3 else 1);
    assert e == w || e == w + TWO63;
    ModMod(e, 4096, TWO63 / 4096);
    LowBitsOfLeaf(w);
    LowBitsOfLeaf(e);
  }

  lemma LowBitsOfLeaf(e: nat)
    ensures e % 2 == e % 4096 % 2 && e / 2 % 2 == e % 4096 / 2 % 2
  {
  }

  /** A page at 2^63 shares its top bit with the execute-disable flag, so its leaf does not give it back at any
      width. */
  lemma WidePageIsLost(permissions: Permissions, bits: nat)
    requires GoodWidth(bits)
    ensures Limit(bits) > 0 && LeafEntry(TWO63, permissions) < TWO64
    ensures LeafTranslation(LeafEntry(TWO63, permissions), 0, Limit(bits))
            != Some(Translation(TWO63, permissions.writable, permissions.executable))
  {
    LimitFacts(bits);
    LeafRoundTrip(TWO63, permissions, 0, bits);
  }
}
