/** The 4 KiB-only, four-level transition page-table encoder over a fixed pool of pages. */
module UefiPageTables {
  import opened Words
  import opened Regions
  import opened Outcome
  import opened TransitionTypes
  import opened PageEntry
  import opened PageTree
  import opened PageWalk

  datatype PageTableError =
    | EmptyStorage
    | PhysicalAddressBitsInvalid
    | StoragePhysicalAddressInvalid
    | StorageNotZeroed
    | InvalidPageZeroGranule
    | PageZeroAlreadyMapped
    | PageZeroMappingForbidden
    | VirtualAddressNonCanonical
    | MappingSpansCanonicalHole
    | MappingUnaligned
    | MappingLengthInvalid
    | MappingRangeOverflow
    | PhysicalAddressInvalid
    | TableStorageExhausted
    | DuplicateMapping
    | MappingConflict
    | CorruptIntermediateEntry
    | CapacityLengthMismatch
    | TemporaryMappingAlreadyReserved
    | TemporaryMappingInvalid
    | TemporaryMappingConflict
    | TemporaryLeafNotZero
    | UsedPageCountMismatch(expected: nat, observed: nat)
    | ReachableUnusedCapacity
    | SharedOrCyclicTable
    | UnreachableUsedTable
    | UnexpectedLeaf
    | MissingLeaf
    | LeafPlanMismatch
    | NonPresentEntryNotZero
    | IntermediateEntryFlagsInvalid
    | UnusedCapacityDirty

  type Checked = Result<(), PageTableError>

  datatype Reservation = Reservation(virtualAddress: Word, indices: seq<nat>)

  datatype TemporaryPath = TemporaryPath(reservation: Reservation, pageIndices: seq<nat>)

  // ---- Regions a page needs --------------------------------------------------------------

  /** Keys of the first `depth` tables below the root on the way to a page. */
  ghost function PathKeysTo(pn: nat, depth: nat): set<(nat, nat)>
    requires depth <= 3
  {
    set level: nat | 4 - depth <= level <= 3 :: (level, Region(pn, level))
  }

  ghost function PathKeys(pn: nat): set<(nat, nat)> { PathKeysTo(pn, 3) }

  lemma PathKeysStep(pn: nat, level: nat)
    requires 2 <= level <= 4
    ensures PathKeysTo(pn, 5 - level) == PathKeysTo(pn, 4 - level) + {(level - 1, Region(pn, level - 1))}
    ensures PathKeysTo(pn, 5 - level) <= PathKeys(pn)
  {
    var more, less := PathKeysTo(pn, 5 - level), PathKeysTo(pn, 4 - level);
    assert (level - 1, Region(pn, level - 1)) in more;
    forall x | x in more ensures x in less + {(level - 1, Region(pn, level - 1))} {
      var k: nat :| level - 1 <= k <= 3 && x == (k, Region(pn, k));
    }
  }

  /** Keys of all tables, the root included, that a set of pages needs. */
  ghost function KeysOf(need: set<nat>): set<(nat, nat)> {
    {(4, 0)} + set q, level: nat | q in need && 1 <= level <= 3 :: (level, Region(q, level))
  }

  lemma KeysOfAdd(need: set<nat>, pn: nat)
    ensures KeysOf(need + {pn}) == KeysOf(need) + PathKeys(pn)
  {
    var more := KeysOf(need + {pn});
    forall x | x in more ensures x in KeysOf(need) + PathKeys(pn) {
      if x != (4, 0) {
        var q, level: nat :| q in need + {pn} && 1 <= level <= 3 && x == (level, Region(q, level));
        if q == pn { assert x in PathKeys(pn); }
      }
    }
    forall x | x in PathKeys(pn) ensures x in more {
      var level: nat :| 1 <= level <= 3 && x == (level, Region(pn, level));
      assert pn in need + {pn};
    }
  }

  lemma KeysOfMonotone(a: set<nat>, b: set<nat>)
    requires a <= b
    ensures KeysOf(a) <= KeysOf(b) && |KeysOf(a)| <= |KeysOf(b)|
  {
    SubsetSize(KeysOf(a), KeysOf(b));
  }

  ghost predicate Within(first: nat, count: nat, q: nat) { first <= q < first + count }

  /** `count` consecutive pages. */
  ghost function PageRange(first: nat, count: nat): set<nat> {
    set q: nat | first <= q < first + count && Within(first, count, q)
  }

  lemma KeysAppend(nodes: seq<Node>, x: Node)
    ensures Keys(nodes + [x]) == Keys(nodes) + {(x.level, x.prefix)}
  {
    var all := nodes + [x];
    KeysSnoc(all, |nodes|);
    assert all[..|nodes|] == nodes && all[..|nodes| + 1] == all;
  }

  lemma KeysOfRoot()
    ensures Keys([Node(4, 0, 0)]) == KeysOf({})
  {
    KeysAppend([], Node(4, 0, 0));
    assert [] + [Node(4, 0, 0)] == [Node(4, 0, 0)];
  }

  lemma KeyAt(nodes: seq<Node>, level: nat, prefix: nat)
    ensures (level, prefix) in Keys(nodes) <==> exists i: nat :: At(nodes, i, level, prefix)
  {
    if i: nat :| At(nodes, i, level, prefix) {
      assert (nodes[i].level, nodes[i].prefix) in Keys(nodes);
    }
    if (level, prefix) in Keys(nodes) {
      var i :| 0 <= i < |nodes| && (nodes[i].level, nodes[i].prefix) == (level, prefix);
      assert At(nodes, i, level, prefix);
    }
  }

  lemma KeysSize(nodes: seq<Node>)
    requires NodesOk(nodes)
    ensures |Keys(nodes)| == |nodes|
  {
    KeyCount(nodes, |nodes|);
    assert nodes[..|nodes|] == nodes;
  }

  /** The nonzero leaf words in memory, by page number. */
  ghost predicate LeavesAgree(mem: seq<Page>, nodes: seq<Node>, leaves: map<nat, Word>)
    requires |nodes| <= |mem|
  {
    && (forall q {:trigger leaves[q]} :: q in leaves ==> leaves[q] != 0)
    && (forall q: nat {:trigger LeafAt(mem, nodes, q)} :: LeafAt(mem, nodes, q) == if q in leaves then leaves[q] else 0)
  }

  /** Leaves of `count` consecutive pages mapped to consecutive physical pages. */
  ghost function RangeLeaves(first: nat, count: nat, physical: nat, permissions: Permissions): map<nat, Word>
    requires physical % 4096 == 0 && physical + 4096 * count <= TWO64
  {
    map q: nat | first <= q < first + count && Within(first, count, q) ::
        PageLeaf(physical + 4096 * (q - first), permissions)
  }

  function PageLeaf(physical: nat, permissions: Permissions): (leaf: Word)
    requires physical % 4096 == 0 && physical < TWO64
    ensures IsPresent(leaf) && leaf == LeafEntry(physical, permissions)
  {
    LeafFlags(physical, permissions);
    LeafEntry(physical, permissions)
  }

  // ---- Argument checks -------------------------------------------------------------------

  /** `spans_canonical_hole`. */
  predicate SpansHole(start: nat, byteLen: nat) {
    start + byteLen < TWO64
    && ((start < CANONICAL_LOW_END && start + byteLen > CANONICAL_LOW_END)
        || (start < CANONICAL_HIGH_START && start + byteLen > CANONICAL_HIGH_START))
  }

  /** The temporary slot test of `map_pages`. */
  predicate InTemporarySlot(temporary: Option<TemporaryPath>, start: nat, last: nat) {
    temporary.Some? &&
    var slot := temporary.value.reservation.virtualAddress - temporary.value.reservation.virtualAddress % SLOT;
    start < slot + SLOT && slot <= last
  }

  /** The checks `map_pages` makes before writing anything. */
  function MapPagesCheck(temporary: Option<TemporaryPath>, limit: nat, virtualStart: Word, physicalStart: Word,
                         byteLen: Word)
    : (r: Checked)
    ensures r.Ok? ==> virtualStart % 4096 == 0 && physicalStart % 4096 == 0 && byteLen % 4096 == 0 && byteLen > 0
                      && Canonical(virtualStart) && Canonical(virtualStart + byteLen - 1)
                      && !SpansHole(virtualStart, byteLen) && virtualStart + byteLen <= TWO64
                      && 0 < physicalStart && physicalStart + byteLen - 4096 < limit
  {
    if virtualStart % 4096 != 0 || physicalStart % 4096 != 0 then Err(MappingUnaligned)
    else if byteLen == 0 || byteLen % 4096 != 0 then Err(MappingLengthInvalid)
    else if virtualStart + (byteLen - 1) >= TWO64 then Err(MappingRangeOverflow)
    else if SpansHole(virtualStart, byteLen) then Err(MappingSpansCanonicalHole)
    else if !Canonical(virtualStart) || !Canonical(virtualStart + byteLen - 1) then Err(VirtualAddressNonCanonical)
    else if InTemporarySlot(temporary, virtualStart, virtualStart + byteLen - 1)
      then Err(PageTableError.TemporaryMappingConflict)
    else if physicalStart + (byteLen - 4096) >= TWO64 || !ValidPhysicalPage(physicalStart, limit)
            || !ValidPhysicalPage(physicalStart + byteLen - 4096, limit) then Err(PhysicalAddressInvalid)
    else Ok(())
  }

  /** Consecutive canonical pages of one half have consecutive page numbers. */
  lemma ConsecutivePages(virtualStart: nat, byteLen: nat, k: nat)
    requires virtualStart % 4096 == 0 && byteLen % 4096 == 0 && k < byteLen / 4096
    requires virtualStart + byteLen <= TWO64
    requires virtualStart + byteLen <= CANONICAL_LOW_END || virtualStart >= CANONICAL_HIGH_START
    ensures virtualStart + k * 4096 < TWO64
    ensures PageNumber(virtualStart + k * 4096) == PageNumber(virtualStart) + k < PAGES
  {
    var a := virtualStart + k * 4096;
    assert a + 4096 <= virtualStart + byteLen;
    if virtualStart >= CANONICAL_HIGH_START {
      HighHalf(virtualStart);
      HighHalf(a);
    }
  }

  lemma HighHalf(a: nat)
    requires CANONICAL_HIGH_START <= a < TWO64
    ensures a % 0x1_0000_0000_0000 == a - 0xffff_0000_0000_0000
  {
  }

  /** A range accepted by the checks lies in one canonical half. */
  lemma OneCanonicalHalf(start: nat, byteLen: nat)
    requires 0 < byteLen <= 0x10_0000_0000_0000 && start + byteLen <= TWO64 && Canonical(start)
             && Canonical(start + byteLen - 1)
    requires !SpansHole(start, byteLen)
    ensures start + byteLen <= CANONICAL_LOW_END || start >= CANONICAL_HIGH_START
  {
  }

  /** A nonempty run of pages inside one canonical half, backed by encodable physical pages. */
  ghost predicate PageRangeOk(virtualStart: nat, start: nat, count: nat, limit: nat) {
    && virtualStart % 4096 == 0 && start % 4096 == 0 && start > 0 && count > 0
    && start + 4096 * (count - 1) < limit <= 0x10_0000_0000_0000
    && (|| virtualStart + 4096 * count <= CANONICAL_LOW_END
        || (virtualStart >= CANONICAL_HIGH_START && virtualStart + 4096 * count <= TWO64))
  }

  lemma PageInRange(virtualStart: nat, start: nat, k: nat, count: nat, limit: nat)
    requires PageRangeOk(virtualStart, start, count, limit) && k < count
    ensures virtualStart + k * 4096 < TWO64 && (virtualStart + k * 4096 == 0 <==> virtualStart == 0 && k == 0)
    ensures PageNumber(virtualStart + k * 4096) == PageNumber(virtualStart) + k < PAGES
    ensures ValidPhysicalPage(start + k * 4096, limit) && start + 4096 * (k + 1) <= TWO64
  {
    ConsecutivePages(virtualStart, 4096 * count, k);
  }

  lemma RangeBelow(virtualStart: nat, start: nat, k: nat, count: nat, limit: nat)
    requires PageRangeOk(virtualStart, start, count, limit) && k <= count
    ensures start % 4096 == 0 && start + 4096 * k <= TWO64
  {
  }

  /** None of `count` consecutive pages has a leaf. */
  ghost predicate RangeFree(leaves: map<nat, Word>, first: nat, count: nat) {
    count == 0 || (first + count - 1 !in leaves && RangeFree(leaves, first, count - 1))
  }

  lemma {:induction false} RangeFreeMember(leaves: map<nat, Word>, first: nat, count: nat, q: nat)
    requires first <= q < first + count && RangeFree(leaves, first, count)
    ensures q !in leaves
  {
    if q < first + count - 1 { RangeFreeMember(leaves, first, count - 1, q); }
  }

  /** Pages and leaves after the first `k` pages of a range. */
  ghost predicate Progress(need: set<nat>, needed: set<nat>, leaves: map<nat, Word>, before: map<nat, Word>,
                           first: nat, k: nat, start: nat, permissions: Permissions)
    requires start % 4096 == 0 && start + 4096 * k <= TWO64
  {
    && need == needed + PageRange(first, k)
    && leaves == before + RangeLeaves(first, k, start, permissions)
    && RangeFree(before, first, k)
  }

  /** Result of mapping a page range: all pages added, or the reason one could not be. */
  ghost predicate MapRangeOutcome(r: Checked, virtualStart: nat, start: nat, count: nat, permissions: Permissions,
                                  capacity: nat,
                                  need: set<nat>, need': set<nat>, leaves: map<nat, Word>, leaves': map<nat, Word>)
  {
    var first := PageNumber(virtualStart);
    && start % 4096 == 0 && start + 4096 * count <= TWO64
    && match r
       case Ok(_) =>
         virtualStart != 0 && Progress(need', need, leaves', leaves, first, count, start, permissions)
       case Err(e) =>
         (virtualStart == 0 && e == PageZeroMappingForbidden) || Refuses(e, leaves, need, first, count, capacity)
  }

  /** Why the pages of a range cannot all be mapped. */
  ghost predicate Refuses(e: PageTableError, leaves: map<nat, Word>, need: set<nat>, first: nat, count: nat,
                          capacity: nat) {
    || (e == TableStorageExhausted && |KeysOf(need + PageRange(first, count))| > capacity)
    || (e in {DuplicateMapping, MappingConflict} && !RangeFree(leaves, first, count))
  }

  // ---- The encoder -----------------------------------------------------------------------

  class UefiPageTable {
    const physicalStart: Word
    const bits: nat
    const pages: array<Page>
    var nextFree: nat
    var pageZeroGuarded: bool
    var temporary: Option<TemporaryPath>
    ghost var nodes: seq<Node>
    ghost var leaves: map<nat, Word>
    ghost var need: set<nat>

    function Placement(): Layout { Layout(physicalStart, pages.Length, Limit(bits)) }

    /** The used pages form a tree and everything beyond them is zero. */
    ghost predicate Valid()
      reads this, pages
    {
      && GoodWidth(bits) && Placement().Ok() && nextFree == |nodes|
      && Tree(pages[..], nodes, physicalStart) && LeavesAgree(pages[..], nodes, leaves)
      && TemporaryOk(temporary, nodes)
    }

    /** The tables in use are exactly those the pages seen so far need. */
    ghost predicate Exact()
      reads this
    {
      Keys(nodes) == KeysOf(need)
    }

    /** A table nothing has been written to. */
    ghost predicate Fresh()
      reads this, pages
    {
      Valid() && nodes == [Node(4, 0, 0)] && leaves == map[] && need == {} && Exact() && ZeroPage(pages[0])
        && !pageZeroGuarded && temporary.None?
    }

    constructor (physicalStart: Word, bits: nat, pages: array<Page>)
      requires GoodWidth(bits) && Layout(physicalStart, pages.Length, Limit(bits)).Ok()
      requires forall i :: 0 <= i < pages.Length ==> ZeroPage(pages[i])
      ensures Fresh() && this.pages == pages && this.physicalStart == physicalStart && this.bits == bits
    {
      this.physicalStart := physicalStart;
      this.bits := bits;
      this.pages := pages;
      nextFree := 1;
      pageZeroGuarded := false;
      temporary := None;
      nodes := [Node(4, 0, 0)];
      leaves := map[];
      need := {};
      new;
      EmptyTree(pages[..], physicalStart);
      KeysOfRoot();
    }

    /** `new`: binds zeroed, encodable storage of exactly the ABI's capacity. */
    static method Create(physicalStart: Word, bits: nat, pages: array<Page>, maxTableFrames: nat,
                         minBits: nat, maxBits: nat)
      returns (r: Result<UefiPageTable, PageTableError>)
      requires GoodWidth(minBits) && GoodWidth(maxBits)
      ensures r.Ok? <==> 0 < pages.Length == maxTableFrames && minBits <= bits <= maxBits
                         && ValidPhysicalPage(physicalStart, Limit(bits))
                         && ValidPhysicalPage(physicalStart + 4096 * (pages.Length - 1), Limit(bits))
                         && forall i :: 0 <= i < pages.Length ==> ZeroPage(pages[i])
      ensures r.Ok? ==> fresh(r.value) && r.value.Fresh() && r.value.pages == pages
                        && r.value.physicalStart == physicalStart && r.value.bits == bits
    {
      if pages.Length == 0 { return Err(EmptyStorage); }
      if pages.Length != maxTableFrames { return Err(CapacityLengthMismatch); }
      if !(minBits <= bits <= maxBits) { return Err(PhysicalAddressBitsInvalid); }
      LimitFacts(bits);
      var last := physicalStart + 4096 * (pages.Length - 1);
      if !ValidPhysicalPage(physicalStart, Limit(bits)) || last >= TWO64 || !ValidPhysicalPage(last, Limit(bits)) {
        return Err(StoragePhysicalAddressInvalid);
      }
      var zeroed := AllZero(pages);
      if !zeroed { return Err(StorageNotZeroed); }
      var table := new UefiPageTable(physicalStart, bits, pages);
      r := Ok(table);
    }

    static method AllZero(pages: array<Page>) returns (zeroed: bool)
      ensures zeroed <==> forall i :: 0 <= i < pages.Length ==> ZeroPage(pages[i])
    {
      for i := 0 to pages.Length
        invariant forall k :: 0 <= k < i ==> ZeroPage(pages[k])
      {
        for j := 0 to 512
          invariant forall k :: 0 <= k < j ==> pages[i][k] == 0
        {
          if pages[i][j] != 0 { return false; }
        }
      }
      return true;
    }

    /** `page_index_for_physical`: a used table page at a physical address. */
    function PageIndexForPhysical(physical: nat): Option<nat>
      reads this
    {
      match StorageIndex(Placement(), physical)
      case None => None
      case Some(c) => if c < nextFree then Some(c) else None
    }

    /** The table that an intermediate entry links, if it is a well-formed link into the used pages. */
    method FollowEntry(page: nat, index: nat) returns (child: Option<nat>)
      requires page < pages.Length && index < 512 && GoodWidth(bits)
      ensures child == Follow(Placement(), pages[..], nextFree, page, index)
    {
      var entry := pages[page][index];
      if !IsPresent(entry) || !TableBitsOk(entry, Limit(bits)) { return None; }
      child := PageIndexForPhysical(entry - entry % 4096);
    }

    /** `translate`. */
    method TranslateAddress(address: Word) returns (r: Option<Translation>)
      requires pages.Length > 0 && GoodWidth(bits)
      ensures r == Translate(Placement(), pages[..], nextFree, address)
    {
      if !Canonical(address) { return None; }
      PageNumberBound(address);
      IndexPath(address);
      ghost var pn := PageNumber(address);
      var indexes := IndexesFor(address);
      var page := 0;
      for depth := 0 to 3
        invariant Descend(Placement(), pages[..], nextFree, pn, depth) == Some(page)
      {
        var child := FollowEntry(page, indexes[depth]);
        assert Descend(Placement(), pages[..], nextFree, pn, depth + 1) == child;
        if child.None? {
          DescendStops(Placement(), pages[..], nextFree, pn, depth + 1);
          return None;
        }
        page := child.value;
      }
      r := LeafTranslation(pages[page][indexes[3]], address % 4096, Limit(bits));
    }

    /** `child_table`: the table below an intermediate entry, linking a fresh one if there is none. */
    method ChildTable(parent: nat, entryIndex: nat) returns (r: Result<nat, PageTableError>)
      requires Valid() && parent < |nodes| && nodes[parent].level > 1 && entryIndex < 512
      modifies this`nextFree, this`nodes, pages
      ensures Valid() && old(nodes) <= nodes
      ensures var key := (old(nodes)[parent].level - 1, old(nodes)[parent].prefix * 512 + entryIndex);
              if r.Ok? then At(nodes, r.value, key.0, key.1) && Keys(nodes) == old(Keys(nodes)) + {key}
              else r.error == TableStorageExhausted && nodes == old(nodes) && pages[..] == old(pages[..])
                   && |nodes| == pages.Length && key !in Keys(nodes)
    {
      ghost var mem := pages[..];
      var entry := pages[parent][entryIndex];
      if entry == 0 {
        if nextFree >= pages.Length {
          NoKeyBelow(mem, nodes, physicalStart, parent, entryIndex);
          return Err(TableStorageExhausted);
        }
        var child := nextFree;
        EntryResolves(Placement(), child);
        LinkTable(mem, nodes, physicalStart, parent, entryIndex, leaves);
        TemporaryKept(temporary, nodes, nodes + [NewChild(nodes, parent, entryIndex)]);
        nextFree := nextFree + 1;
        pages[parent] := pages[parent][entryIndex := TableEntry(physicalStart, child)];
        nodes := nodes + [NewChild(nodes, parent, entryIndex)];
        assert pages[..] == SetWord(mem, parent, entryIndex, TableEntry(physicalStart, child));
        return Ok(child);
      }
      ExistingLink(Placement(), mem, nodes, parent, entryIndex);
      if !IsPresent(entry) || !TableBitsOk(entry, Limit(bits)) {
        return Err(CorruptIntermediateEntry);
      }
      var index := PageIndexForPhysical(entry - entry % 4096);
      if index.None? {
        return Err(CorruptIntermediateEntry);
      }
      r := Ok(index.value);
    }

    /** One linking step towards a page. */
    method StepDown(page: nat, index: nat, ghost pn: nat, ghost level: nat, ghost keys: set<(nat, nat)>)
      returns (r: Result<nat, PageTableError>)
      requires Valid() && pn < PAGES && 2 <= level <= 4
      requires At(nodes, page, level, Region(pn, level)) && index == Index(pn, level)
      requires Keys(nodes) == keys + PathKeysTo(pn, 4 - level)
      modifies this`nextFree, this`nodes, pages
      ensures Valid() && old(nodes) <= nodes
      ensures if r.Ok? then At(nodes, r.value, level - 1, Region(pn, level - 1))
                            && Keys(nodes) == keys + PathKeysTo(pn, 5 - level)
              else r.error == TableStorageExhausted && |keys + PathKeys(pn)| > pages.Length
    {
      PathStep(pn, level);
      PathKeysStep(pn, level);
      ghost var key := (level - 1, Region(pn, level - 1));
      r := ChildTable(page, index);
      if r.Err? {
        KeysSize(nodes);
        MoreKeys(Keys(nodes), key, keys + PathKeys(pn));
      }
    }

    /** The tables on the way to a page, linked as far as the storage allows. */
    method DescendLinking(address: Word, ghost pn: nat) returns (r: Result<nat, PageTableError>, path: seq<nat>)
      requires Valid() && pn == PageNumber(address)
      modifies this`nextFree, this`nodes, pages
      ensures Valid()
      ensures if r.Ok? then At(nodes, r.value, 1, Region(pn, 1)) && Keys(nodes) == old(Keys(nodes)) + PathKeys(pn)
                            && |path| == 4 && path[3] == r.value && PathAt(nodes, path, pn)
              else r.error == TableStorageExhausted && |old(Keys(nodes)) + PathKeys(pn)| > pages.Length
    {
      IndexPath(address);
      PathStep(pn, 4);
      var indexes := IndexesFor(address);
      ghost var keys := Keys(nodes);
      path := [0];
      r := Ok(0);
      for depth := 0 to 3
        invariant Valid()
        invariant Keys(nodes) == keys + PathKeysTo(pn, depth)
        invariant |path| == depth + 1 && PathAt(nodes, path, pn) && r == Ok(path[depth])
      {
        ghost var soFar := nodes;
        assert At(nodes, path[depth], 4 - depth, Region(pn, 4 - depth));
        r := StepDown(path[depth], indexes[depth], pn, 4 - depth, keys);
        if r.Err? { return; }
        PathGrows(soFar, nodes, path, r.value, pn);
        path := path + [r.value];
      }
    }

    /** `map_page`: one translation appears and no other changes. */
    method MapPage(address: Word, physical: Word, permissions: Permissions, ghost pn: nat) returns (r: Checked)
      requires Valid() && Exact() && ValidPhysicalPage(physical, Limit(bits)) && pn == PageNumber(address)
      modifies this`nextFree, this`nodes, this`leaves, this`need, pages
      ensures Valid()
      ensures var leaf := PageLeaf(physical, permissions);
              if r.Ok? then
                && Exact() && need == old(need) + {pn}
                && pn !in old(leaves) && leaves == old(leaves)[pn := leaf]
              else
                && leaves == old(leaves)
                && match r.error
                   case TableStorageExhausted => |KeysOf(old(need) + {pn})| > pages.Length
                   case DuplicateMapping => pn in leaves && leaves[pn] == leaf
                   case MappingConflict => pn in leaves && leaves[pn] != leaf
                   case _ => false
    {
      IndexPath(address);
      KeysOfAdd(need, pn);
      var leaf := PageLeaf(physical, permissions);
      var found, _ := DescendLinking(address, pn);
      if found.Err? { return Err(found.error); }
      need := need + {pn};
      LeafFlags(physical, permissions);
      r := PutLeaf(found.value, IndexesFor(address)[3], leaf, pn);
    }

    /** The end of `map_page`: writes the leaf word unless there already is one. */
    method PutLeaf(page: nat, index: nat, leaf: Word, ghost pn: nat) returns (r: Checked)
      requires Valid() && At(nodes, page, 1, Region(pn, 1)) && index == pn % 512 && leaf != 0
      modifies this`leaves, pages
      ensures Valid()
      ensures if r.Ok? then pn !in old(leaves) && leaves == old(leaves)[pn := leaf]
              else leaves == old(leaves) && pn in leaves
                   && r.error == if leaves[pn] == leaf then DuplicateMapping else MappingConflict
    {
      ghost var mem := pages[..];
      LeafIs(mem, nodes, page, pn);
      if pages[page][index] != 0 {
        return Err(if pages[page][index] == leaf then DuplicateMapping else MappingConflict);
      }
      WriteLeaf(mem, nodes, physicalStart, page, pn, leaf, leaves);
      pages[page] := pages[page][index := leaf];
      leaves := leaves[pn := leaf];
      assert pages[..] == SetWord(mem, page, index, leaf);
      r := Ok(());
    }

    /** One page of a range, with the range's pages before it already mapped. */
    method MapNextPage(address: Word, physical: Word, permissions: Permissions, ghost pn: nat,
                       ghost before: map<nat, Word>, ghost needed: set<nat>,
                       ghost first: nat, ghost k: nat, ghost count: nat, ghost start: nat)
      returns (r: Checked)
      requires Valid() && Exact() && k < count && pn == PageNumber(address) && pn == first + k
      requires ValidPhysicalPage(physical, Limit(bits)) && physical == start + k * 4096
      requires start % 4096 == 0 && start + 4096 * (k + 1) <= TWO64
      requires Progress(need, needed, leaves, before, first, k, start, permissions)
      modifies this`nextFree, this`nodes, this`leaves, this`need, pages
      ensures Valid()
      ensures if r.Ok? then
                Exact() && Progress(need, needed, leaves, before, first, k + 1, start, permissions)
              else
                Refuses(r.error, before, needed, first, count, pages.Length)
    {
      LeavesNext(leaves, before, first, k, count, pn, physical, start, permissions);
      NeedNext(need, needed, first, k, count, pn);
      r := MapPage(address, physical, permissions, pn);
    }

    /** One turn of the page loop. */
    method MapPageAt(virtualStart: Word, start: Word, k: nat, permissions: Permissions,
                     ghost count: nat, ghost before: map<nat, Word>, ghost needed: set<nat>, ghost first: nat)
      returns (r: Checked)
      requires Valid() && Exact() && PageRangeOk(virtualStart, start, count, Limit(bits)) && k < count
               && first == PageNumber(virtualStart)
      requires start + 4096 * (k + 1) <= TWO64 && Progress(need, needed, leaves, before, first, k, start, permissions)
      modifies this`nextFree, this`nodes, this`leaves, this`need, pages
      ensures Valid()
      ensures r.Ok? ==> Exact() && (virtualStart != 0 || k > 0)
                        && Progress(need, needed, leaves, before, first, k + 1, start, permissions)
      ensures r.Err? ==> (virtualStart == 0 && r.error == PageZeroMappingForbidden)
                         || Refuses(r.error, before, needed, first, count, pages.Length)
    {
      PageInRange(virtualStart, start, k, count, Limit(bits));
      var address, physical := virtualStart + k * 4096, start + k * 4096;
      if address == 0 { return Err(PageZeroMappingForbidden); }
      r := MapNextPage(address, physical, permissions, first + k, before, needed, first, k, count, start);
    }

    /** The page loop of `map_pages`. */
    method MapRange(virtualStart: Word, start: Word, count: nat, permissions: Permissions) returns (r: Checked)
      requires Valid() && Exact() && PageRangeOk(virtualStart, start, count, Limit(bits))
      modifies this`nextFree, this`nodes, this`leaves, this`need, pages
      ensures Valid() && (r.Ok? ==> Exact())
      ensures MapRangeOutcome(r, virtualStart, start, count, permissions, pages.Length,
                              old(need), need, old(leaves), leaves)
    {
      RangeBelow(virtualStart, start, count, count, Limit(bits));
      NoPagesYet(need, leaves, PageNumber(virtualStart), start, permissions);
      r := MapLoop(virtualStart, start, count, permissions, leaves, need, PageNumber(virtualStart));
    }

    method MapLoop(virtualStart: Word, start: Word, count: nat, permissions: Permissions,
                   ghost before: map<nat, Word>, ghost needed: set<nat>, ghost first: nat) returns (r: Checked)
      requires Valid() && Exact() && PageRangeOk(virtualStart, start, count, Limit(bits))
               && start + 4096 * count <= TWO64
      requires first == PageNumber(virtualStart) && Progress(need, needed, leaves, before, first, 0, start, permissions)
      modifies this`nextFree, this`nodes, this`leaves, this`need, pages
      ensures Valid()
      ensures r.Ok? ==>
                Exact() && virtualStart != 0 && Progress(need, needed, leaves, before, first, count, start, permissions)
      ensures r.Err? ==> (virtualStart == 0 && r.error == PageZeroMappingForbidden)
                         || Refuses(r.error, before, needed, first, count, pages.Length)
    {
      for k := 0 to count
        invariant Valid() && Exact()
        invariant k > 0 ==> virtualStart != 0
        invariant Progress(need, needed, leaves, before, first, k, start, permissions)
      {
        r := MapPageAt(virtualStart, start, k, permissions, count, before, needed, first);
        if r.Err? { return; }
      }
      r := Ok(());
    }

    /** `map_pages`: success exactly when the pages were free and the storage suffices. */
    method MapPages(virtualStart: Word, start: Word, byteLen: Word, permissions: Permissions) returns (r: Checked)
      requires Valid() && Exact()
      modifies this`nextFree, this`nodes, this`leaves, this`need, pages
      ensures Valid() && (r.Ok? ==> Exact())
      ensures var check := MapPagesCheck(temporary, Limit(bits), virtualStart, start, byteLen);
              if check.Err? then r == check && nodes == old(nodes) && leaves == old(leaves)
              else MapRangeOutcome(r, virtualStart, start, byteLen / 4096, permissions, pages.Length,
                                   old(need), need, old(leaves), leaves)
    {
      r := MapPagesCheck(temporary, Limit(bits), virtualStart, start, byteLen);
      if r.Err? { return; }
      LimitFacts(bits);
      OneCanonicalHalf(virtualStart, byteLen);
      r := MapRange(virtualStart, start, byteLen / 4096, permissions);
    }

    /** `map` of the page-table boundary: refuses to map before page zero is guarded. */
    method Map(m: Mapping) returns (r: Checked)
      requires Valid() && Exact()
      modifies this`nextFree, this`nodes, this`leaves, this`need, pages
      ensures Valid() && (r.Ok? ==> Exact())
      ensures !pageZeroGuarded ==> r == Err(PageZeroMappingForbidden) && leaves == old(leaves)
      ensures pageZeroGuarded ==>
                var check := MapPagesCheck(temporary, Limit(bits), m.virtualStart, m.physicalStart, m.byteLen);
                if check.Err? then r == check && leaves == old(leaves)
                else MapRangeOutcome(r, m.virtualStart, m.physicalStart, m.byteLen / 4096, m.permissions, pages.Length,
                                     old(need), need, old(leaves), leaves)
    {
      if !pageZeroGuarded { return Err(PageZeroMappingForbidden); }
      r := MapPages(m.virtualStart, m.physicalStart, m.byteLen, m.permissions);
    }

    /** `leave_page_zero_unmapped`. */
    method LeavePageZeroUnmapped(byteLen: Word) returns (r: Checked)
      requires Valid()
      modifies this`pageZeroGuarded
      ensures r.Ok? <==> byteLen == 4096 && pages[0][0] == 0
      ensures pageZeroGuarded == (r.Ok? || old(pageZeroGuarded))
    {
      if byteLen != 4096 { return Err(InvalidPageZeroGranule); }
      var zero := TranslateAddress(0);
      if pages[0][0] == 0 {
        TranslateTree(Placement(), pages[..], nodes, 0);
        NoLeafUnderEmptyRoot(pages[..], nodes, physicalStart);
      }
      if zero.Some? || pages[0][0] != 0 { return Err(PageZeroAlreadyMapped); }
      pageZeroGuarded := true;
      r := Ok(());
    }

    /** Whether a reservation may still be made. */
    predicate ReservationOk(reservation: Reservation)
      reads this
    {
      && pageZeroGuarded && Canonical(reservation.virtualAddress) && reservation.virtualAddress % 4096 == 0
      && IndexesFor(reservation.virtualAddress) == reservation.indices
    }

    /** `reserve_temporary_mapping`: links the path and leaves its leaf zero. */
    method ReserveTemporaryMapping(reservation: Reservation) returns (r: Checked)
      requires Valid() && Exact()
      modifies this`nextFree, this`nodes, this`temporary, this`need, pages
      ensures Valid() && leaves == old(leaves)
      ensures var pn := PageNumber(reservation.virtualAddress);
              if r.Ok? then
                && old(temporary).None? && ReservationOk(reservation)
                && Exact() && need == old(need) + {pn}
                && temporary.Some? && temporary.value.reservation == reservation
                && pn !in leaves
              else
                && temporary == old(temporary)
                && (|| (r.error == TemporaryMappingAlreadyReserved && temporary.Some?)
                    || (r.error == TemporaryMappingInvalid && !ReservationOk(reservation))
                    || (r.error == PageTableError.TemporaryMappingConflict
                        && old(pages[0][IndexesFor(reservation.virtualAddress)[0]]) != 0)
                    || (r.error == TableStorageExhausted && |KeysOf(old(need) + {pn})| > pages.Length)
                    || (r.error == TemporaryLeafNotZero && pn in leaves))
    {
      if temporary.Some? { return Err(TemporaryMappingAlreadyReserved); }
      if !ReservationOk(reservation) { return Err(TemporaryMappingInvalid); }
      IndexPath(reservation.virtualAddress);
      if pages[0][reservation.indices[0]] != 0 { return Err(PageTableError.TemporaryMappingConflict); }
      r := LinkTemporary(reservation, PageNumber(reservation.virtualAddress));
    }

    /** Links the reserved path and records it. */
    method LinkTemporary(reservation: Reservation, ghost pn: nat) returns (r: Checked)
      requires Valid() && Exact() && pn == PageNumber(reservation.virtualAddress)
      modifies this`nextFree, this`nodes, this`temporary, this`need, pages
      ensures Valid() && leaves == old(leaves)
      ensures if r.Ok? then
                && Exact() && need == old(need) + {pn} && pn !in leaves
                && temporary.Some? && temporary.value.reservation == reservation
              else
                && temporary == old(temporary)
                && (|| (r.error == TableStorageExhausted && |KeysOf(old(need) + {pn})| > pages.Length)
                    || (r.error == TemporaryLeafNotZero && pn in leaves))
    {
      KeysOfAdd(need, pn);
      var found, path := DescendLinking(reservation.virtualAddress, pn);
      if found.Err? { return Err(found.error); }
      need := need + {pn};
      LeafIs(pages[..], nodes, found.value, pn);
      IndexPath(reservation.virtualAddress);
      if pages[found.value][IndexesFor(reservation.virtualAddress)[3]] != 0 { return Err(TemporaryLeafNotZero); }
      temporary := Some(TemporaryPath(reservation, path));
      r := Ok(());
    }
  }

  lemma EmptyTree(mem: seq<Page>, base: nat)
    requires base % 4096 == 0 && |mem| >= 1 && forall i :: 0 <= i < |mem| ==> ZeroPage(mem[i])
    ensures Tree(mem, [Node(4, 0, 0)], base) && LeavesAgree(mem, [Node(4, 0, 0)], map[])
  {
    var nodes := [Node(4, 0, 0)];
    assert Closed(mem, nodes, base) by {
      assert ZeroPage(mem[0]);
    }
  }

  lemma {:induction false} DescendStops(l: Layout, mem: seq<Page>, used: nat, pn: nat, depth: nat)
    requires 0 < |mem| == l.capacity && pn < PAGES && depth <= 3
    requires Descend(l, mem, used, pn, depth).None?
    ensures Descend(l, mem, used, pn, 3).None?
    decreases 3 - depth
  {
    if depth < 3 { DescendStops(l, mem, used, pn, depth + 1); }
  }

  lemma IndexPath(address: nat)
    ensures |IndexesFor(address)| == 4 && PageNumber(address) < PAGES
    ensures forall d :: 0 <= d < 4 ==> IndexesFor(address)[d] == Index(PageNumber(address), 4 - d)
    ensures IndexesFor(address)[3] == PageNumber(address) % 512
  {
    IndexDigits(address);
    PageNumberBound(address);
    var pn := PageNumber(address);
    assert pn / 0x800_0000 < 512;
  }

  lemma MoreKeys(keys: set<(nat, nat)>, key: (nat, nat), all: set<(nat, nat)>)
    requires keys <= all && key in all && key !in keys
    ensures |all| > |keys|
  {
    SubsetSize(keys + {key}, all);
  }

  /** The recorded temporary path is the path of its reserved page. */
  ghost predicate TemporaryOk(temporary: Option<TemporaryPath>, nodes: seq<Node>) {
    temporary.Some? ==> |temporary.value.pageIndices| == 4
                        && PathAt(nodes, temporary.value.pageIndices,
                                  PageNumber(temporary.value.reservation.virtualAddress))
  }

  lemma TemporaryKept(temporary: Option<TemporaryPath>, nodes: seq<Node>, nodes': seq<Node>)
    requires TemporaryOk(temporary, nodes) && nodes <= nodes'
    ensures TemporaryOk(temporary, nodes')
  {
    if temporary.Some? {
      var path, pn := temporary.value.pageIndices, PageNumber(temporary.value.reservation.virtualAddress);
      forall d | 0 <= d < |path| ensures At(nodes', path[d], 4 - d, Region(pn, 4 - d)) {
        assert At(nodes, path[d], 4 - d, Region(pn, 4 - d));
      }
    }
  }

  /** A path of tables from the root towards a page. */
  ghost predicate PathAt(nodes: seq<Node>, path: seq<nat>, pn: nat) {
    |path| <= 4 && forall d :: 0 <= d < |path| ==> At(nodes, path[d], 4 - d, Region(pn, 4 - d))
  }

  lemma PathGrows(before: seq<Node>, after: seq<Node>, path: seq<nat>, page: nat, pn: nat)
    requires before <= after && |path| < 4 && PathAt(before, path, pn)
    requires At(after, page, 4 - |path|, Region(pn, 4 - |path|))
    ensures PathAt(after, path + [page], pn)
  {
    forall d | 0 <= d < |path| ensures At(after, path[d], 4 - d, Region(pn, 4 - d)) {
      assert At(before, path[d], 4 - d, Region(pn, 4 - d));
    }
  }

  /** Linking a table keeps tree and leaves and adds one key. */
  lemma LinkTable(mem: seq<Page>, nodes: seq<Node>, base: nat, p: nat, j: nat, leaves: map<nat, Word>)
    requires Tree(mem, nodes, base) && LeavesAgree(mem, nodes, leaves)
    requires p < |nodes| < |mem| && nodes[p].level > 1 && j < 512 && mem[p][j] == 0
    requires TableEntry(base, |nodes|) < TWO64
    ensures var mem', nodes' := SetWord(mem, p, j, TableEntry(base, |nodes|)), nodes + [NewChild(nodes, p, j)];
            Tree(mem', nodes', base) && LeavesAgree(mem', nodes', leaves)
            && Keys(nodes') == Keys(nodes) + {(nodes[p].level - 1, nodes[p].prefix * 512 + j)}
  {
    AddChild(mem, nodes, base, p, j);
    forall q: nat { AddChildLeaf(mem, nodes, base, p, j, q); }
    KeysAppend(nodes, NewChild(nodes, p, j));
  }

  lemma NoKeyBelow(mem: seq<Page>, nodes: seq<Node>, base: nat, p: nat, j: nat)
    requires Tree(mem, nodes, base) && p < |nodes| && nodes[p].level > 1 && j < 512 && mem[p][j] == 0
    ensures (nodes[p].level - 1, nodes[p].prefix * 512 + j) !in Keys(nodes)
  {
    var level, prefix := nodes[p].level - 1, nodes[p].prefix * 512 + j;
    forall i: nat ensures !At(nodes, i, level, prefix) {
      NoTableBelow(mem, nodes, base, p, j, i);
    }
    KeyAt(nodes, level, prefix);
  }

  /** A nonzero intermediate entry of a tree resolves to the table of its region. */
  lemma ExistingLink(l: Layout, mem: seq<Page>, nodes: seq<Node>, p: nat, j: nat)
    requires l.Ok() && |mem| == l.capacity && Tree(mem, nodes, l.base)
    requires p < |nodes| && nodes[p].level > 1 && j < 512 && mem[p][j] != 0
    ensures var e, key := mem[p][j], (nodes[p].level - 1, nodes[p].prefix * 512 + j);
            && IsPresent(e) && TableBitsOk(e, l.limit) && StorageIndex(l, e - e % 4096).Some?
            && At(nodes, StorageIndex(l, e - e % 4096).value, key.0, key.1)
            && Keys(nodes) == Keys(nodes) + {key}
  {
    assert ClosedAt(mem, nodes, l.base, p, j);
    EntryResolves(l, ChildIndex(mem[p][j], l.base));
    KeyAt(nodes, nodes[p].level - 1, nodes[p].prefix * 512 + j);
  }

  /** Writing a free leaf adds exactly one page to the leaves. */
  lemma WriteLeaf(mem: seq<Page>, nodes: seq<Node>, base: nat, i: nat, pn: nat, leaf: Word, leaves: map<nat, Word>)
    requires Tree(mem, nodes, base) && LeavesAgree(mem, nodes, leaves) && At(nodes, i, 1, Region(pn, 1)) && leaf != 0
    ensures Tree(SetWord(mem, i, pn % 512, leaf), nodes, base)
    ensures LeavesAgree(SetWord(mem, i, pn % 512, leaf), nodes, leaves[pn := leaf])
  {
    SetLeaf(mem, nodes, base, i, pn % 512, leaf);
    forall q: nat { SetLeafLeaf(mem, nodes, base, i, pn, leaf, q); }
  }

  lemma NoPagesYet(needed: set<nat>, before: map<nat, Word>, first: nat, physical: nat, permissions: Permissions)
    requires physical % 4096 == 0 && physical <= TWO64
    ensures needed + PageRange(first, 0) == needed && before + RangeLeaves(first, 0, physical, permissions) == before
  {
  }

  lemma LeavesNext(leaves: map<nat, Word>, before: map<nat, Word>, first: nat, k: nat, count: nat, pn: nat,
                   physical: nat, start: nat, permissions: Permissions)
    requires start % 4096 == 0 && start + 4096 * (k + 1) <= TWO64 && k < count
    requires leaves == before + RangeLeaves(first, k, start, permissions) && RangeFree(before, first, k)
    requires pn == first + k && physical == start + k * 4096
    ensures leaves[pn := PageLeaf(physical, permissions)] == before + RangeLeaves(first, k + 1, start, permissions)
    ensures if pn in leaves then !RangeFree(before, first, count) else RangeFree(before, first, k + 1)
  {
    if pn in before && RangeFree(before, first, count) {
      RangeFreeMember(before, first, count, pn);
    }
  }

  lemma NeedNext(need: set<nat>, needed: set<nat>, first: nat, k: nat, count: nat, pn: nat)
    requires k < count && need == needed + PageRange(first, k) && pn == first + k
    ensures need + {pn} == needed + PageRange(first, k + 1)
    ensures |KeysOf(need + {pn})| <= |KeysOf(needed + PageRange(first, count))|
  {
    assert need + {pn} == needed + PageRange(first, k + 1);
    KeysOfMonotone(need + {pn}, needed + PageRange(first, count));
  }

  /** With an empty first root entry, page zero has no leaf. */
  lemma NoLeafUnderEmptyRoot(mem: seq<Page>, nodes: seq<Node>, base: nat)
    requires Tree(mem, nodes, base) && mem[0][0] == 0
    ensures LeafAt(mem, nodes, 0) == 0
  {
    if i: nat :| At(nodes, i, 1, 0) {
      assert NodeOk(nodes, i);
      assert NodeOk(nodes, nodes[i].parent);
      NoTableBelow(mem, nodes, base, 0, 0, nodes[nodes[i].parent].parent);
    }
  }
}
