/** Validation of the kernel image's program headers and the load plan made from them. */
module KernelElf {
  import opened Outcome
  import opened Words
  import opened Sorting
  import opened ByteStrings
  import opened LittleEndian
  import opened TransitionTypes
  import opened Transition

  const ELF_HEADER_SIZE: nat := 64
  const PROGRAM_HEADER_SIZE: nat := 56

  /** A half-open address range. */
  datatype AddressRange = AddressRange(start: Word, end: Word)

  datatype KernelElfPolicy = KernelElfPolicy(window: AddressRange, linkBase: Word, granule: Word)

  datatype ElfHeader = ElfHeader(entryPoint: Word, tableOffset: Word, count: nat)

  datatype KernelElfError =
    | HeaderTruncated | BadMagic | UnsupportedIdent(byte: Byte) | UnsupportedElfType | UnsupportedMachine
    | UnsupportedElfVersion
    | UnsupportedElfFlags | InvalidElfHeaderSize | InvalidProgramHeaderSize | MissingProgramHeaders
    | ExtendedProgramHeaderCountUnsupported | ProgramHeaderTableOverlapsElfHeader | ProgramHeaderTableMisaligned
    | ProgramHeaderTableOverflow | ProgramHeaderTableTruncated | BadPolicy | OutputShort(required: nat, available: nat)
    | UnsupportedProgramHeaderType(index: nat) | UnknownSegmentFlags(index: nat) | WritableExecutableSegment(index: nat)
    | EmptyLoadSegment(index: nat) | FileSizeExceedsMemorySize(index: nat) | SegmentFileRangeOverflow(index: nat)
    | SegmentFileRangeTruncated(index: nat) | SegmentVirtualRangeOverflow(index: nat)
    | SegmentMappingRangeOverflow(index: nat)
    | InvalidSegmentAlignment(index: nat) | SegmentAlignmentBelowPolicy(index: nat)
    | SegmentAddressAlignmentMismatch(index: nat)
    | SegmentVirtualRangeOutsidePolicy(index: nat) | OverlappingVirtualSegments(first: nat, second: nat)
    | OverlappingVirtualMappingRanges(first: nat, second: nat) | KernelLinkBaseMismatch | ZeroEntryPoint
    | EntryPointNotInExecutableFileData

  function Word64At(bytes: Bytes, at: nat): (w: Word)
    requires at + 8 <= |bytes|
    ensures w == NumberAt(bytes, at, 8)
  {
    NumberAtBounded(bytes, at, 8);
    assert Pow256(4) == 0x1_0000_0000 && Pow256(8) == TWO64;
    NumberAt(bytes, at, 8)
  }

  /** `validate_policy`. */
  predicate GoodPolicy(p: KernelElfPolicy) {
    p.window.start == p.linkBase && p.window.end == TWO64 - 1 && IsPowerOfTwo(p.granule) && p.granule > 0
      && p.linkBase % p.granule == 0
  }

  /** `parse_header`. */
  function ParseHeader(image: Bytes): (r: Result<ElfHeader, KernelElfError>)
    ensures r.Ok? ==> 0 < r.value.count < 0xffff && r.value.tableOffset >= ELF_HEADER_SIZE
  {
    if |image| < ELF_HEADER_SIZE then Err(HeaderTruncated)
    else if image[..4] != [0x7f, 69, 76, 70] then Err(BadMagic)
    else if image[4] != 2 then Err(UnsupportedIdent(4))
    else if image[5] != 1 then Err(UnsupportedIdent(5))
    else if image[6] != 1 then Err(UnsupportedIdent(6))
    else if image[7] != 0 then Err(UnsupportedIdent(7))
    else if image[8] != 0 then Err(UnsupportedIdent(8))
    else if NumberAt(image, 16, 2) != 2 then Err(UnsupportedElfType)
    else if NumberAt(image, 18, 2) != 62 then Err(UnsupportedMachine)
    else if NumberAt(image, 20, 4) != 1 then Err(UnsupportedElfVersion)
    else if NumberAt(image, 48, 4) != 0 then Err(UnsupportedElfFlags)
    else if NumberAt(image, 52, 2) != ELF_HEADER_SIZE then Err(InvalidElfHeaderSize)
    else if NumberAt(image, 54, 2) != PROGRAM_HEADER_SIZE then Err(InvalidProgramHeaderSize)
    else if NumberAt(image, 56, 2) == 0 then Err(MissingProgramHeaders)
    else if NumberAt(image, 56, 2) >= 0xffff then Err(ExtendedProgramHeaderCountUnsupported)
    else if Word64At(image, 32) < ELF_HEADER_SIZE then Err(ProgramHeaderTableOverlapsElfHeader)
    else if Word64At(image, 32) % 8 != 0 then Err(ProgramHeaderTableMisaligned)
    else Ok(ElfHeader(Word64At(image, 24), Word64At(image, 32), NumberAt(image, 56, 2)))
  }

  /** A 64-bit little-endian executable for x86-64 with its program headers behind the file header. */
  ghost predicate HeaderLaid(image: Bytes, h: ElfHeader) {
    && 64 <= |image| && image[0] == 0x7f && image[1] == 'E' as int && image[2] == 'L' as int && image[3] == 'F' as int
    && image[4] == 2 && image[5] == 1 && image[6] == 1 && image[7] == 0 && image[8] == 0
    && U16At(image, 16, 2) && U16At(image, 18, 62) && U32At(image, 20, 1)
    && U64At(image, 24, h.entryPoint) && U64At(image, 32, h.tableOffset) && U32At(image, 48, 0)
    && U16At(image, 52, 64) && U16At(image, 54, 56) && U16At(image, 56, h.count)
    && 0 < h.count < 65535 && 64 <= h.tableOffset && h.tableOffset % 8 == 0
  }

  /** A header is read exactly as it is laid out. */
  lemma HeaderExact(image: Bytes, h: ElfHeader)
    ensures ParseHeader(image) == Ok(h) <==> HeaderLaid(image, h)
  {
    if 64 <= |image| {
      U16Exact(image, 16, 2);
      U16Exact(image, 18, 62);
      U32Exact(image, 20, 1);
      U64Exact(image, 24, h.entryPoint);
      U64Exact(image, 32, h.tableOffset);
      U32Exact(image, 48, 0);
      U16Exact(image, 52, 64);
      U16Exact(image, 54, 56);
      U16Exact(image, 56, h.count);
      assert image[..4] == [image[0], image[1], image[2], image[3]];
    }
  }

  function HeaderAt(h: ElfHeader, index: nat): nat { h.tableOffset + PROGRAM_HEADER_SIZE * index }

  predicate TableFits(image: Bytes, h: ElfHeader) { HeaderAt(h, h.count) < TWO64 && HeaderAt(h, h.count) <= |image| }

  /** `parse_segment`. */
  function ParseSegment(image: Bytes, at: nat, index: nat, p: KernelElfPolicy)
    : (r: Result<KernelLoadSegment, KernelElfError>)
    requires at + PROGRAM_HEADER_SIZE <= |image| && GoodPolicy(p)
  {
    var flags := NumberAt(image, at + 4, 4);
    if NumberAt(image, at, 4) != 1 then Err(UnsupportedProgramHeaderType(index))
    else if flags >= 8 then Err(UnknownSegmentFlags(index))
    else if flags / 2 % 2 == 1 && flags % 2 == 1 then Err(WritableExecutableSegment(index))
    else
      PlaceSegment(|image|, index, p, Word64At(image, at + 8), Word64At(image, at + 16), Word64At(image, at + 32),
                   Word64At(image, at + 40),
                   Word64At(image, at + 48), SegmentPermissions(flags / 4 % 2 == 1, flags / 2 % 2 == 1, flags % 2 == 1))
  }

  /** The checks on a segment's sizes and addresses. */
  function PlaceSegment(imageLen: nat, index: nat, p: KernelElfPolicy, fileOffset: Word, address: Word, fileSize: Word,
                        memorySize: Word,
                        alignment: Word, permissions: SegmentPermissions)
    : (r: Result<KernelLoadSegment, KernelElfError>)
    requires GoodPolicy(p)
  {
    if memorySize == 0 then Err(EmptyLoadSegment(index))
    else if fileSize > memorySize then Err(FileSizeExceedsMemorySize(index))
    else if fileOffset + fileSize >= TWO64 then Err(SegmentFileRangeOverflow(index))
    else if fileOffset + fileSize > imageLen then Err(SegmentFileRangeTruncated(index))
    else if address + memorySize >= TWO64 then Err(SegmentVirtualRangeOverflow(index))
    else
      var start := AlignDown(address, p.granule);
      match AlignUp(address + memorySize, p.granule)
      case None => Err(SegmentMappingRangeOverflow(index))
      case Some(end) =>
        if !IsPowerOfTwo(alignment) then Err(InvalidSegmentAlignment(index))
        else if alignment < p.granule then Err(SegmentAlignmentBelowPolicy(index))
        else if alignment > 0 && address % alignment != fileOffset % alignment
          then Err(SegmentAddressAlignmentMismatch(index))
        else if !(p.window.start <= start < end <= p.window.end) then Err(SegmentVirtualRangeOutsidePolicy(index))
        else Ok(KernelLoadSegment(index, fileOffset, fileSize, address, start, end - start, address - start, memorySize,
                                  alignment, permissions))
  }

  function MappingEnd(s: KernelLoadSegment): nat { s.mappingVirtualAddress + s.mappingByteLen }

  function End(s: KernelLoadSegment): nat { s.virtualAddress + s.memorySize }

  /** What every parsed segment satisfies. */
  ghost predicate Placed(s: KernelLoadSegment, imageLen: nat, p: KernelElfPolicy)
    requires p.granule > 0
  {
    && 0 < s.memorySize && s.fileSize <= s.memorySize && s.fileOffset + s.fileSize <= imageLen
    && s.fileOffset + s.fileSize < TWO64
    && End(s) < TWO64 && IsPowerOfTwo(s.alignment) && s.alignment >= p.granule
    && s.mappingVirtualAddress == AlignDown(s.virtualAddress, p.granule)
    && AlignUp(End(s), p.granule) == Some(MappingEnd(s))
    && s.segmentPageOffset == s.virtualAddress - s.mappingVirtualAddress
    && p.window.start <= s.mappingVirtualAddress < MappingEnd(s) <= p.window.end
    && !(s.permissions.write && s.permissions.execute)
  }

  lemma ParsedIsPlaced(image: Bytes, at: nat, index: nat, p: KernelElfPolicy)
    requires at + PROGRAM_HEADER_SIZE <= |image| && GoodPolicy(p) && ParseSegment(image, at, index, p).Ok?
    ensures Placed(ParseSegment(image, at, index, p).value, |image|, p)
  {
  }

  /** The flag word of a program header. */
  function FlagWord(permissions: SegmentPermissions): nat {
    (if permissions.read then 4 else 0) + (if permissions.write then 2 else 0) + (if permissions.execute then 1 else 0)
  }

  /** The fields of the program header at `at` are those of the segment; the physical address is not looked at. */
  ghost predicate Describes(image: Bytes, at: nat, s: KernelLoadSegment)
    requires at + PROGRAM_HEADER_SIZE <= |image|
  {
    && NumberAt(image, at, 4) == 1 && NumberAt(image, at + 4, 4) == FlagWord(s.permissions)
    && Word64At(image, at + 8) == s.fileOffset && Word64At(image, at + 16) == s.virtualAddress
    && Word64At(image, at + 32) == s.fileSize && Word64At(image, at + 40) == s.memorySize
    && Word64At(image, at + 48) == s.alignment
  }

  /** A segment that can be loaded: its bytes are in the image, and its mapping, the smallest aligned range around its
      memory, is in the window. */
  ghost predicate Loads(s: KernelLoadSegment, imageLen: nat, p: KernelElfPolicy)
    requires p.granule > 0
  {
    && 0 < s.memorySize && s.fileSize <= s.memorySize && s.fileOffset + s.fileSize <= imageLen
    && s.fileOffset + s.fileSize < TWO64
    && IsPowerOfTwo(s.alignment) && s.alignment >= p.granule
    && s.virtualAddress % s.alignment == s.fileOffset % s.alignment
    && s.mappingVirtualAddress % p.granule == 0 && MappingEnd(s) % p.granule == 0
    && s.mappingVirtualAddress <= s.virtualAddress < s.mappingVirtualAddress + p.granule
    && End(s) < TWO64 && End(s) <= MappingEnd(s) < End(s) + p.granule <= TWO64
    && s.segmentPageOffset == s.virtualAddress - s.mappingVirtualAddress
    && p.window.start <= s.mappingVirtualAddress && MappingEnd(s) <= p.window.end
    && !(s.permissions.write && s.permissions.execute)
  }

  /** A program header is accepted as exactly the loadable segment that it describes. */
  lemma SegmentExact(image: Bytes, at: nat, index: nat, p: KernelElfPolicy, s: KernelLoadSegment)
    requires at + PROGRAM_HEADER_SIZE <= |image| && GoodPolicy(p)
    ensures ParseSegment(image, at, index, p) == Ok(s) <==>
            s.programHeaderIndex == index && Describes(image, at, s) && Loads(s, |image|, p)
  {
    var flags := NumberAt(image, at + 4, 4);
    FlagsExact(flags, s.permissions);
    if flags < 8 && !(flags / 2 % 2 == 1 && flags % 2 == 1) {
      PlaceExact(|image|, index, p, Word64At(image, at + 8), Word64At(image, at + 16), Word64At(image, at + 32),
                 Word64At(image, at + 40), Word64At(image, at + 48),
                 SegmentPermissions(flags / 4 % 2 == 1, flags / 2 % 2 == 1, flags % 2 == 1), s);
    }
  }

  lemma FlagsExact(flags: nat, permissions: SegmentPermissions)
    ensures flags == FlagWord(permissions) <==>
            flags < 8 && permissions == SegmentPermissions(flags / 4 % 2 == 1, flags / 2 % 2 == 1, flags % 2 == 1)
  {
  }

  lemma PlaceExact(imageLen: nat, index: nat, p: KernelElfPolicy, fileOffset: Word, address: Word, fileSize: Word,
                   memorySize: Word,
                   alignment: Word, permissions: SegmentPermissions, s: KernelLoadSegment)
    requires GoodPolicy(p) && !(permissions.write && permissions.execute)
    ensures PlaceSegment(imageLen, index, p, fileOffset, address, fileSize, memorySize, alignment, permissions)
            == Ok(s) <==>
            && s.programHeaderIndex == index && s.fileOffset == fileOffset && s.virtualAddress == address
            && s.fileSize == fileSize
            && s.memorySize == memorySize && s.alignment == alignment && s.permissions == permissions
            && Loads(s, imageLen, p)
  {
    DownExact(address, p.granule, s.mappingVirtualAddress);
    UpExact(address + memorySize, p.granule, MappingEnd(s));
    DownExact(address, p.granule, AlignDown(address, p.granule));
  }

  /** Rounding keeps a segment inside its mapping. */
  lemma PlacedCovers(s: KernelLoadSegment, imageLen: nat, p: KernelElfPolicy)
    requires p.granule > 0 && Placed(s, imageLen, p)
    ensures s.mappingVirtualAddress <= s.virtualAddress && End(s) <= MappingEnd(s)
    ensures s.mappingVirtualAddress % p.granule == 0 && MappingEnd(s) % p.granule == 0
  {
    AlignDownExact(s.virtualAddress, p.granule);
    AlignDownExact(End(s) + (p.granule - 1), p.granule);
  }

  // ---- Order -----------------------------------------------------------------------------

  predicate SegmentLeq(a: KernelLoadSegment, b: KernelLoadSegment) {
    a.virtualAddress < b.virtualAddress
      || (a.virtualAddress == b.virtualAddress && a.programHeaderIndex <= b.programHeaderIndex)
  }

  lemma SegmentOrder()
    ensures TotalOrder(SegmentLeq)
  {
  }

  /** Mapped ranges that share no address. */
  ghost predicate Apart(a: KernelLoadSegment, b: KernelLoadSegment) {
    MappingEnd(a) <= b.mappingVirtualAddress || MappingEnd(b) <= a.mappingVirtualAddress
  }

  ghost predicate PairwiseApart(segments: seq<KernelLoadSegment>) {
    forall i, j :: 0 <= i < j < |segments| ==> Apart(segments[i], segments[j])
  }

  ghost predicate AllPlaced(segments: seq<KernelLoadSegment>, imageLen: nat, p: KernelElfPolicy)
    requires p.granule > 0
  {
    forall i {:trigger Placed(segments[i], imageLen, p)} :: 0 <= i < |segments| ==> Placed(segments[i], imageLen, p)
  }

  ghost predicate InOrder(segments: seq<KernelLoadSegment>, i: nat)
    requires 0 < i < |segments|
  {
    MappingEnd(segments[i - 1]) <= segments[i].mappingVirtualAddress
  }

  ghost predicate NeighboursInOrder(segments: seq<KernelLoadSegment>) {
    forall i {:trigger InOrder(segments, i)} :: 0 < i < |segments| ==> InOrder(segments, i)
  }

  /** Ordered neighbours put every earlier mapping below every later one. */
  lemma {:induction false} OrderedPair(segments: seq<KernelLoadSegment>, imageLen: nat, p: KernelElfPolicy,
                                       i: nat, j: nat)
    requires p.granule > 0 && AllPlaced(segments, imageLen, p) && NeighboursInOrder(segments) && i < j < |segments|
    ensures MappingEnd(segments[i]) <= segments[j].mappingVirtualAddress
    decreases j - i
  {
    assert InOrder(segments, j);
    if i < j - 1 {
      OrderedPair(segments, imageLen, p, i, j - 1);
      assert Placed(segments[j - 1], imageLen, p);
    }
  }

  /** In a sorted list, comparing neighbours decides whether all mappings are apart. */
  lemma NeighboursDecide(segments: seq<KernelLoadSegment>, imageLen: nat, p: KernelElfPolicy)
    requires p.granule > 0 && AllPlaced(segments, imageLen, p) && Sorted(segments, SegmentLeq)
    ensures NeighboursInOrder(segments) <==> PairwiseApart(segments)
  {
    if NeighboursInOrder(segments) {
      forall i, j | 0 <= i < j < |segments| ensures Apart(segments[i], segments[j]) {
        OrderedPair(segments, imageLen, p, i, j);
      }
    }
    if PairwiseApart(segments) {
      forall i | 0 < i < |segments| ensures InOrder(segments, i) {
        var a, b := segments[i - 1], segments[i];
        assert Placed(a, imageLen, p) && Placed(b, imageLen, p) && SegmentLeq(a, b) && Apart(a, b);
        PlacedCovers(a, imageLen, p);
        PlacedCovers(b, imageLen, p);
      }
    }
  }

  /** Being pairwise apart does not depend on the order. */
  lemma ApartPermutes(a: seq<KernelLoadSegment>, b: seq<KernelLoadSegment>, imageLen: nat, p: KernelElfPolicy)
    requires p.granule > 0 && AllPlaced(a, imageLen, p) && Permutation(a, b) && PairwiseApart(a)
    ensures PairwiseApart(b)
  {
    assert |a| == |multiset(a)| && |b| == |multiset(b)|;
    forall i, j | 0 <= i < j < |b| ensures Apart(b[i], b[j]) {
      var x, y := b[i], b[j];
      PermutationMember(a, b, x);
      PermutationMember(a, b, y);
      var k :| 0 <= k < |a| && a[k] == x;
      if x != y {
        var m :| 0 <= m < |a| && a[m] == y;
      } else {
        TwiceInBoth(a, b, i, j, k);
        assert Placed(a[k], imageLen, p);
      }
    }
  }

  /** A value that occurs twice in one arrangement occurs twice in the other. */
  lemma TwiceInBoth(a: seq<KernelLoadSegment>, b: seq<KernelLoadSegment>, i: nat, j: nat, k: nat)
    requires Permutation(a, b) && i < j < |b| && b[i] == b[j] && k < |a| && a[k] == b[i]
    ensures exists m :: 0 <= m < |a| && m != k && a[m] == a[k]
  {
    var x := b[i];
    assert b == b[..j] + [b[j]] + b[j + 1..];
    assert x in b[..j];
    assert multiset(b)[x] >= 2;
    assert a == a[..k] + [a[k]] + a[k + 1..];
    assert multiset(a)[x] >= 2;
    assert x in multiset(a[..k]) || x in multiset(a[k + 1..]);
    if x in a[..k] {
      var m :| 0 <= m < k && a[..k][m] == x;
      assert a[m] == x;
    } else {
      var m :| 0 <= m < |a[k + 1..]| && a[k + 1..][m] == x;
      assert a[k + 1 + m] == x;
    }
  }

  // ---- Agreement with the transition planner ---------------------------------------------

  lemma AlignDownShifts(base: nat, x: nat, g: nat)
    requires g > 0 && base % g == 0
    ensures AlignDown(base + x, g) == base + AlignDown(x, g)
  {
    var q, k := base / g, x / g;
    assert base == g * q && x == g * k + x % g;
    assert base + x == g * (q + k) + x % g;
    DivModUnique(base + x, g, q + k, x % g);
  }

  /** Every planned segment passes the planner's own check once it has retained, aligned pages of its mapping length. */
  lemma PlannerAccepts(s: KernelLoadSegment, pages: RetainedRange, imageLen: Word, p: KernelElfPolicy)
    requires p.granule > 0 && Placed(s, imageLen, p)
    requires pages.lifetime.RetainedUntilReplacement? && pages.physicalStart % p.granule == 0
    requires pages.byteLen == s.mappingByteLen && pages.physicalStart + pages.byteLen < TWO64
    ensures ValidateKernelSegment(KernelSegmentPages(s, pages), p.granule, imageLen).Ok?
  {
    var inside := s.segmentPageOffset + s.memorySize;
    RoundedInside(s, imageLen, p, inside);
    SegmentAccepted(KernelSegmentPages(s, pages), p.granule, imageLen, inside);
  }

  /** The part of a segment inside its mapping rounds up to the mapping length. */
  lemma RoundedInside(s: KernelLoadSegment, imageLen: nat, p: KernelElfPolicy, inside: nat)
    requires p.granule > 0 && Placed(s, imageLen, p) && inside == s.segmentPageOffset + s.memorySize
    ensures inside < TWO64 && AlignUp(inside, p.granule) == Some(s.mappingByteLen)
  {
    PlacedCovers(s, imageLen, p);
    assert s.mappingVirtualAddress + inside == End(s);
    UpFromBase(s.mappingVirtualAddress, inside, p.granule, s.mappingByteLen);
  }

  /** Rounding up from an aligned base does not depend on the base. */
  lemma UpFromBase(base: nat, x: nat, g: nat, length: nat)
    requires g > 0 && base % g == 0 && AlignUp(base + x, g) == Some(base + length)
    ensures AlignUp(x, g) == Some(length)
  {
    AlignDownShifts(base, x + (g - 1), g);
  }

  /** The checks of `validate_kernel_segment`, one by one. */
  lemma SegmentAccepted(k: KernelSegmentPages, g: Word, imageLen: Word, inside: nat)
    requires var s := k.segment;
      && g > 0 && s.memorySize > 0 && s.fileSize <= s.memorySize && IsPowerOfTwo(s.alignment) && s.alignment >= g
      && s.fileOffset + s.fileSize < TWO64 && s.fileOffset + s.fileSize <= imageLen
      && s.mappingVirtualAddress == AlignDown(s.virtualAddress, g)
      && s.segmentPageOffset == s.virtualAddress - s.mappingVirtualAddress
      && inside == s.segmentPageOffset + s.memorySize < TWO64 && AlignUp(inside, g) == Some(s.mappingByteLen)
      && !(s.permissions.write && s.permissions.execute)
    requires ValidateRetained(k.pages, KernelSegment(k.segment.programHeaderIndex)).Ok?
    requires k.pages.physicalStart % g == 0 && k.pages.byteLen == k.segment.mappingByteLen
    ensures ValidateKernelSegment(k, g, imageLen).Ok?
  {
  }

  // ---- The plan --------------------------------------------------------------------------

  /** The first `n` program headers, in table order. */
  function ParsedSegments(image: Bytes, h: ElfHeader, p: KernelElfPolicy, n: nat)
    : (r: Result<seq<KernelLoadSegment>, KernelElfError>)
    requires n <= h.count && TableFits(image, h) && GoodPolicy(p)
    ensures r.Ok? ==> |r.value| == n
  {
    if n == 0 then Ok([])
    else
      var front :- ParsedSegments(image, h, p, n - 1);
      var s :- ParseSegment(image, HeaderAt(h, n - 1), n - 1, p);
      Ok(front + [s])
  }

  lemma {:induction false} ParsedPrefix(image: Bytes, h: ElfHeader, p: KernelElfPolicy, n: nat, m: nat)
    requires n <= m <= h.count && TableFits(image, h) && GoodPolicy(p) && ParsedSegments(image, h, p, m).Ok?
    ensures ParsedSegments(image, h, p, n).Ok?
    decreases m
  {
    if n < m {
      ParsedPrefix(image, h, p, n, m - 1);
    }
  }

  lemma {:induction false} ParsedArePlaced(image: Bytes, h: ElfHeader, p: KernelElfPolicy, n: nat)
    requires n <= h.count && TableFits(image, h) && GoodPolicy(p) && ParsedSegments(image, h, p, n).Ok?
    ensures AllPlaced(ParsedSegments(image, h, p, n).value, |image|, p)
  {
    if n > 0 {
      ParsedArePlaced(image, h, p, n - 1);
      ParsedIsPlaced(image, HeaderAt(h, n - 1), n - 1, p);
    }
  }

  predicate InCode(s: KernelLoadSegment, entry: Word) {
    s.permissions.execute && s.fileSize != 0 && s.virtualAddress <= entry && entry - s.virtualAddress < s.fileSize
  }

  /** What makes the parsed segments a loadable kernel, whatever their order in the table. */
  ghost predicate Loadable(segments: seq<KernelLoadSegment>, entry: Word, p: KernelElfPolicy) {
    && PairwiseApart(segments) && entry != 0
    && (exists s :: s in segments && InCode(s, entry))
    && exists s :: s in segments && s.mappingVirtualAddress == p.linkBase
  }

  /** The images for which there is a plan. */
  ghost predicate Plannable(image: Bytes, p: KernelElfPolicy, capacity: nat) {
    && GoodPolicy(p) && ParseHeader(image).Ok?
    && var h := ParseHeader(image).value;
       && TableFits(image, h) && h.count <= capacity && ParsedSegments(image, h, p, h.count).Ok?
       && Loadable(ParsedSegments(image, h, p, h.count).value, h.entryPoint, p)
  }

  /** Entry `i` of the program header table is the loadable segment `s`. */
  ghost predicate EntryIs(image: Bytes, h: ElfHeader, p: KernelElfPolicy, i: nat, s: KernelLoadSegment)
    requires p.granule > 0
  {
    && HeaderAt(h, i) + PROGRAM_HEADER_SIZE <= |image|
    && s.programHeaderIndex == i && Describes(image, HeaderAt(h, i), s) && Loads(s, |image|, p)
  }

  ghost predicate EntriesAre(image: Bytes, h: ElfHeader, p: KernelElfPolicy, segments: seq<KernelLoadSegment>)
    requires p.granule > 0
  {
    forall i {:trigger EntryIs(image, h, p, i, segments[i])} ::
        0 <= i < |segments| ==> EntryIs(image, h, p, i, segments[i])
  }

  lemma EntriesSnoc(image: Bytes, h: ElfHeader, p: KernelElfPolicy, front: seq<KernelLoadSegment>, s: KernelLoadSegment)
    requires p.granule > 0
    ensures EntriesAre(image, h, p, front + [s]) <==> EntriesAre(image, h, p, front) && EntryIs(image, h, p, |front|, s)
  {
    var all, n := front + [s], |front|;
    assert forall i :: 0 <= i < n ==> all[i] == front[i];
    if EntriesAre(image, h, p, all) {
      assert EntryIs(image, h, p, n, all[n]);
      forall i | 0 <= i < n ensures EntryIs(image, h, p, i, front[i]) {
        assert EntryIs(image, h, p, i, all[i]);
      }
    }
  }

  lemma ParsedSnoc(image: Bytes, h: ElfHeader, p: KernelElfPolicy, front: seq<KernelLoadSegment>,
                   s: KernelLoadSegment, n: nat)
    requires n == |front| < h.count && TableFits(image, h) && GoodPolicy(p)
    ensures ParsedSegments(image, h, p, n + 1) == Ok(front + [s]) <==>
            ParsedSegments(image, h, p, n) == Ok(front) && ParseSegment(image, HeaderAt(h, n), n, p) == Ok(s)
  {
    var before, last := ParsedSegments(image, h, p, n), ParseSegment(image, HeaderAt(h, n), n, p);
    if before.Ok? && last.Ok? {
      assert (before.value + [last.value])[..n] == before.value && (before.value + [last.value])[n] == last.value;
      assert (front + [s])[..n] == front && (front + [s])[n] == s;
    }
  }

  lemma {:induction false} SegmentsExact(image: Bytes, h: ElfHeader, p: KernelElfPolicy,
                                         segments: seq<KernelLoadSegment>)
    requires |segments| <= h.count && TableFits(image, h) && GoodPolicy(p)
    ensures ParsedSegments(image, h, p, |segments|) == Ok(segments) <==> EntriesAre(image, h, p, segments)
    decreases |segments|
  {
    if segments != [] {
      var n := |segments| - 1;
      var front, s := segments[..n], segments[n];
      assert segments == front + [s];
      SegmentsExact(image, h, p, front);
      ParsedSnoc(image, h, p, front, s, n);
      EntriesSnoc(image, h, p, front, s);
      EntryExact(image, h, p, n, s);
    }
  }

  lemma EntryExact(image: Bytes, h: ElfHeader, p: KernelElfPolicy, i: nat, s: KernelLoadSegment)
    requires i < h.count && TableFits(image, h) && GoodPolicy(p)
    ensures HeaderAt(h, i) + PROGRAM_HEADER_SIZE <= |image|
    ensures ParseSegment(image, HeaderAt(h, i), i, p) == Ok(s) <==> EntryIs(image, h, p, i, s)
  {
    SegmentExact(image, HeaderAt(h, i), i, p, s);
  }

  /** An image has a plan exactly when its table lists loadable segments that together make a kernel. */
  lemma PlannableWith(image: Bytes, p: KernelElfPolicy, capacity: nat)
    requires GoodPolicy(p) && ParseHeader(image).Ok?
    ensures var h := ParseHeader(image).value;
            Plannable(image, p, capacity) <==>
            && TableFits(image, h) && h.count <= capacity
            && exists segments :: TableIs(image, h, p, segments) && Loadable(segments, h.entryPoint, p)
  {
    var h := ParseHeader(image).value;
    if TableFits(image, h) {
      if ParsedSegments(image, h, p, h.count).Ok? {
        TableExact(image, h, p, ParsedSegments(image, h, p, h.count).value);
      }
      forall segments | TableIs(image, h, p, segments) ensures ParsedSegments(image, h, p, h.count) == Ok(segments) {
        TableExact(image, h, p, segments);
      }
    }
  }

  /** An image laid out with this header and these loadable segments. */
  ghost predicate ImageIs(image: Bytes, p: KernelElfPolicy, capacity: nat, h: ElfHeader,
                          segments: seq<KernelLoadSegment>)
    requires p.granule > 0
  {
    && HeaderLaid(image, h) && TableFits(image, h) && h.count <= capacity
    && TableIs(image, h, p, segments) && Loadable(segments, h.entryPoint, p)
  }

  /** The images for which there is a plan, told from their bytes. */
  lemma PlannableExactly(image: Bytes, p: KernelElfPolicy, capacity: nat)
    ensures Plannable(image, p, capacity) <==>
            GoodPolicy(p) && exists h, segments :: ImageIs(image, p, capacity, h, segments)
  {
    if GoodPolicy(p) && ParseHeader(image).Ok? {
      PlannableWith(image, p, capacity);
      var h := ParseHeader(image).value;
      HeaderExact(image, h);
      if segments :| TableIs(image, h, p, segments) && Loadable(segments, h.entryPoint, p) {
        assert TableFits(image, h) && h.count <= capacity ==> ImageIs(image, p, capacity, h, segments);
      }
    }
    if GoodPolicy(p) {
      if h, segments :| ImageIs(image, p, capacity, h, segments) {
        HeaderExact(image, h);
      }
    }
  }

  ghost predicate TableIs(image: Bytes, h: ElfHeader, p: KernelElfPolicy, segments: seq<KernelLoadSegment>)
    requires p.granule > 0
  {
    |segments| == h.count && EntriesAre(image, h, p, segments)
  }

  lemma TableExact(image: Bytes, h: ElfHeader, p: KernelElfPolicy, segments: seq<KernelLoadSegment>)
    requires TableFits(image, h) && GoodPolicy(p) && |segments| == h.count
    ensures ParsedSegments(image, h, p, h.count) == Ok(segments) <==> TableIs(image, h, p, segments)
  {
    SegmentsExact(image, h, p, segments);
  }

  datatype LoadPlan = LoadPlan(entryPoint: Word, segments: seq<KernelLoadSegment>, span: AddressRange)

  /** The smallest half-open range that holds every segment. */
  ghost predicate IsHull(segments: seq<KernelLoadSegment>, span: AddressRange) {
    && (forall s :: s in segments ==> span.start <= s.virtualAddress && End(s) <= span.end)
    && (exists s :: s in segments && s.virtualAddress == span.start)
    && (exists s :: s in segments && End(s) == span.end)
  }

  lemma AllPlacedPermutes(a: seq<KernelLoadSegment>, b: seq<KernelLoadSegment>, imageLen: nat, p: KernelElfPolicy)
    requires p.granule > 0 && AllPlaced(a, imageLen, p) && Permutation(a, b)
    ensures AllPlaced(b, imageLen, p)
  {
    forall i | 0 <= i < |b| ensures Placed(b[i], imageLen, p) {
      PermutationMember(a, b, b[i]);
    }
  }

  lemma LoadablePermutes(a: seq<KernelLoadSegment>, b: seq<KernelLoadSegment>, entry: Word, imageLen: nat,
                         p: KernelElfPolicy)
    requires p.granule > 0 && AllPlaced(a, imageLen, p) && Permutation(a, b)
    ensures Loadable(a, entry, p) <==> Loadable(b, entry, p)
  {
    AllPlacedPermutes(a, b, imageLen, p);
    if PairwiseApart(a) {
      ApartPermutes(a, b, imageLen, p);
    }
    if PairwiseApart(b) {
      ApartPermutes(b, a, imageLen, p);
    }
    forall s ensures s in a <==> s in b {
      PermutationMember(a, b, s);
    }
  }

  /** `validated_header_and_capacity`. */
  method CheckTable(image: Bytes, p: KernelElfPolicy) returns (r: Result<ElfHeader, KernelElfError>)
    ensures r.Ok? ==> GoodPolicy(p) && ParseHeader(image) == r && TableFits(image, r.value)
    ensures r.Err? ==> forall capacity :: !Plannable(image, p, capacity)
  {
    if !GoodPolicy(p) {
      return Err(BadPolicy);
    }
    r := ParseHeader(image);
    if r.Err? {
      return;
    }
    var h := r.value;
    if HeaderAt(h, h.count) >= TWO64 {
      return Err(ProgramHeaderTableOverflow);
    }
    if HeaderAt(h, h.count) > |image| {
      return Err(ProgramHeaderTableTruncated);
    }
    for index := 0 to h.count {
      if NumberAt(image, HeaderAt(h, index), 4) != 1 {
        TypeRefused(image, h, p, index);
        return Err(UnsupportedProgramHeaderType(index));
      }
    }
  }

  lemma TypeRefused(image: Bytes, h: ElfHeader, p: KernelElfPolicy, index: nat)
    requires TableFits(image, h) && GoodPolicy(p) && index < h.count && NumberAt(image, HeaderAt(h, index), 4) != 1
    ensures ParsedSegments(image, h, p, h.count).Err?
  {
    assert ParsedSegments(image, h, p, index + 1).Err?;
    if ParsedSegments(image, h, p, h.count).Ok? {
      ParsedPrefix(image, h, p, index + 1, h.count);
    }
  }

  /** `validate_non_overlapping`: the first pass compares the segments, the second their mappings. */
  method ValidateNonOverlapping(segments: seq<KernelLoadSegment>, ghost imageLen: nat, p: KernelElfPolicy)
    returns (error: Option<KernelElfError>)
    requires p.granule > 0 && AllPlaced(segments, imageLen, p) && Sorted(segments, SegmentLeq) && segments != []
    ensures error.None? <==> NeighboursInOrder(segments)
    ensures error.None? <==> PairwiseApart(segments)
  {
    NeighboursDecide(segments, imageLen, p);
    for i := 1 to |segments| {
      var left, right := segments[i - 1], segments[i];
      if End(left) > right.virtualAddress {
        NeighbourChecks(segments, imageLen, p, i);
        return Some(OverlappingVirtualSegments(left.programHeaderIndex, right.programHeaderIndex));
      }
    }
    error := CheckMappings(segments, imageLen, p);
  }

  /** The second pass. */
  method CheckMappings(segments: seq<KernelLoadSegment>, ghost imageLen: nat, p: KernelElfPolicy)
    returns (error: Option<KernelElfError>)
    requires p.granule > 0 && AllPlaced(segments, imageLen, p) && segments != []
    ensures error.None? <==> NeighboursInOrder(segments)
  {
    for i := 1 to |segments|
      invariant OrderedUpTo(segments, i)
    {
      NeighbourChecks(segments, imageLen, p, i);
      OrderedNext(segments, i);
      if MappingsCross(segments[i - 1], segments[i], p.granule) {
        return Some(OverlappingVirtualMappingRanges(segments[i - 1].programHeaderIndex,
                                                    segments[i].programHeaderIndex));
      }
    }
    return None;
  }

  ghost predicate OrderedUpTo(segments: seq<KernelLoadSegment>, n: nat) {
    n <= |segments| && forall j {:trigger InOrder(segments, j)} :: 0 < j < n ==> InOrder(segments, j)
  }

  lemma OrderedNext(segments: seq<KernelLoadSegment>, n: nat)
    requires 0 < n < |segments| && OrderedUpTo(segments, n)
    ensures InOrder(segments, n) <==> OrderedUpTo(segments, n + 1)
    ensures !InOrder(segments, n) ==> !NeighboursInOrder(segments)
  {
  }

  /** The second pass recomputes both roundings. */
  predicate MappingsCross(left: KernelLoadSegment, right: KernelLoadSegment, granule: Word)
    requires granule > 0
  {
    var end := AlignUp(End(left), granule);
    end.None? || end.value > AlignDown(right.virtualAddress, granule)
  }

  lemma NeighbourChecks(segments: seq<KernelLoadSegment>, imageLen: nat, p: KernelElfPolicy, i: nat)
    requires p.granule > 0 && AllPlaced(segments, imageLen, p) && 0 < i < |segments|
    ensures End(segments[i - 1]) > segments[i].virtualAddress ==> !InOrder(segments, i)
    ensures MappingsCross(segments[i - 1], segments[i], p.granule) <==> !InOrder(segments, i)
  {
    var left, right := segments[i - 1], segments[i];
    assert Placed(left, imageLen, p) && Placed(right, imageLen, p);
    PlacedCovers(left, imageLen, p);
    PlacedCovers(right, imageLen, p);
  }

  lemma FirstIsLowest(segments: seq<KernelLoadSegment>, imageLen: nat, p: KernelElfPolicy)
    requires p.granule > 0 && AllPlaced(segments, imageLen, p) && NeighboursInOrder(segments) && segments != []
    ensures (exists s :: s in segments && s.mappingVirtualAddress == p.window.start) <==>
            segments[0].mappingVirtualAddress == p.window.start
  {
    assert segments[0] in segments && Placed(segments[0], imageLen, p);
    if s :| s in segments && s.mappingVirtualAddress == p.window.start {
      var i :| 0 <= i < |segments| && segments[i] == s;
      if i > 0 {
        OrderedPair(segments, imageLen, p, 0, i);
      }
    }
  }

  /** The span loop. */
  method Span(segments: seq<KernelLoadSegment>) returns (span: AddressRange)
    requires Sorted(segments, SegmentLeq) && segments != []
             && forall i :: 0 <= i < |segments| ==> End(segments[i]) < TWO64
    ensures IsHull(segments, span)
  {
    var end := segments[0].virtualAddress + segments[0].memorySize;
    ghost var top := 0;
    for i := 1 to |segments|
      invariant end < TWO64 && top < i && End(segments[top]) == end
      invariant forall j :: 0 <= j < i ==> End(segments[j]) <= end
    {
      if segments[i].virtualAddress + segments[i].memorySize > end {
        end := segments[i].virtualAddress + segments[i].memorySize;
        top := i;
      }
    }
    span := AddressRange(segments[0].virtualAddress, end);
    assert segments[0] in segments && segments[top] in segments;
    forall s | s in segments ensures span.start <= s.virtualAddress && End(s) <= span.end {
      var i :| 0 <= i < |segments| && segments[i] == s;
      assert i > 0 ==> SegmentLeq(segments[0], segments[i]);
    }
  }

  /** `plan_kernel_elf`. */
  method PlanKernelElf(image: Bytes, p: KernelElfPolicy, output: array<KernelLoadSegment>)
    returns (r: Result<LoadPlan, KernelElfError>, ghost parsed: seq<KernelLoadSegment>)
    modifies output
    ensures r.Ok? <==> Plannable(image, p, output.Length)
    ensures r.Ok? ==> ParsedSegments(image, ParseHeader(image).value, p, ParseHeader(image).value.count) == Ok(parsed)
    ensures r.Ok? ==> Permutation(r.value.segments, parsed) && Sorted(r.value.segments, SegmentLeq)
    ensures r.Ok? ==> AllPlaced(r.value.segments, |image|, p) && PairwiseApart(r.value.segments)
    ensures r.Ok? ==> |parsed| <= output.Length && output[..|parsed|] == r.value.segments
    ensures r.Ok? ==> IsHull(r.value.segments, r.value.span)
    ensures r.Ok? ==> r.value.entryPoint == ParseHeader(image).value.entryPoint && exists s ::
              s in r.value.segments && InCode(s, r.value.entryPoint)
  {
    parsed := [];
    var checked := CheckTable(image, p);
    if checked.Err? {
      return Err(checked.error), parsed;
    }
    var h := checked.value;
    if h.count > output.Length {
      return Err(OutputShort(h.count, output.Length)), parsed;
    }
    var wrong := ReadSegments(image, h, p, output);
    if wrong.Some? {
      return Err(wrong.value), parsed;
    }
    parsed := output[..h.count];
    ParsedArePlaced(image, h, p, h.count);
    var segments := SortSegments(output, h.count);
    AllPlacedPermutes(parsed, segments, |image|, p);
    LoadablePermutes(parsed, segments, h.entryPoint, |image|, p);
    var result := FinishPlan(segments, h, |image|, p);
    return result, parsed;
  }

  /** Fills the output from the program headers, in table order. */
  method ReadSegments(image: Bytes, h: ElfHeader, p: KernelElfPolicy, output: array<KernelLoadSegment>)
    returns (error: Option<KernelElfError>)
    requires TableFits(image, h) && GoodPolicy(p) && h.count <= output.Length
    modifies output
    ensures error.None? ==> ParsedSegments(image, h, p, h.count) == Ok(output[..h.count])
    ensures error.Some? ==> ParsedSegments(image, h, p, h.count).Err?
  {
    for index := 0 to h.count
      invariant ParsedSegments(image, h, p, index) == Ok(output[..index])
    {
      var s := ParseSegment(image, HeaderAt(h, index), index, p);
      if s.Err? {
        NotParsed(image, h, p, index);
        return Some(s.error);
      }
      ghost var front := output[..index];
      output[index] := s.value;
      assert output[..index] == front && output[..index + 1] == front + [s.value];
    }
    return None;
  }

  /** Sorts the filled part of the output. */
  method SortSegments(output: array<KernelLoadSegment>, n: nat) returns (segments: seq<KernelLoadSegment>)
    requires n <= output.Length
    modifies output
    ensures segments == output[..n] && Sorted(segments, SegmentLeq) && Permutation(segments, old(output[..n]))
  {
    SegmentOrder();
    segments := Sort(output[..n], SegmentLeq);
    Refill(output, segments);
  }

  method Refill(output: array<KernelLoadSegment>, segments: seq<KernelLoadSegment>)
    requires |segments| <= output.Length
    modifies output
    ensures output[..|segments|] == segments
  {
    for i := 0 to |segments|
      invariant forall k :: 0 <= k < i ==> output[k] == segments[k]
    {
      output[i] := segments[i];
    }
  }

  lemma NotParsed(image: Bytes, h: ElfHeader, p: KernelElfPolicy, index: nat)
    requires index < h.count && TableFits(image, h) && GoodPolicy(p) && ParsedSegments(image, h, p, index + 1).Err?
    ensures ParsedSegments(image, h, p, h.count).Err?
  {
    if ParsedSegments(image, h, p, h.count).Ok? {
      ParsedPrefix(image, h, p, index + 1, h.count);
    }
  }

  /** The checks on the sorted segments. */
  method FinishPlan(segments: seq<KernelLoadSegment>, h: ElfHeader, ghost imageLen: nat, p: KernelElfPolicy)
    returns (r: Result<LoadPlan, KernelElfError>)
    requires GoodPolicy(p) && AllPlaced(segments, imageLen, p) && Sorted(segments, SegmentLeq) && segments != []
    ensures r.Ok? <==> Loadable(segments, h.entryPoint, p)
    ensures r.Ok? ==>
              r.value.segments == segments && r.value.entryPoint == h.entryPoint && IsHull(segments, r.value.span)
  {
    var overlap := ValidateNonOverlapping(segments, imageLen, p);
    if overlap.Some? {
      return Err(overlap.value);
    }
    if h.entryPoint == 0 {
      return Err(ZeroEntryPoint);
    }
    var found := false;
    for i := 0 to |segments|
      invariant found <==> exists j :: 0 <= j < i && InCode(segments[j], h.entryPoint)
    {
      if InCode(segments[i], h.entryPoint) {
        found := true;
      }
    }
    if !found {
      return Err(EntryPointNotInExecutableFileData);
    }
    FirstIsLowest(segments, imageLen, p);
    if segments[0].mappingVirtualAddress != p.linkBase {
      return Err(KernelLinkBaseMismatch);
    }
    forall i | 0 <= i < |segments| ensures End(segments[i]) < TWO64 {
      assert Placed(segments[i], imageLen, p);
    }
    var span := Span(segments);
    return Ok(LoadPlan(h.entryPoint, segments, span));
  }
}
