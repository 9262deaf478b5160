/** One record of a `cpio newc` archive: its text, and the strict parser that undoes it. */
module ArchiveRecords {
  import opened Outcome
  import opened ByteStrings
  import opened ArchivePaths

  const HEADER_SIZE: nat := 110

  /** "070701". */
  const MAGIC: Bytes := [48, 55, 48, 55, 48, 49]

  const READ_ONLY_MODE: nat := 0x8124
  const EXECUTABLE_MODE: nat := 0x816D

  datatype Entry = Entry(name: Bytes, data: Bytes, executable: bool)

  // ---- The text of a record --------------------------------------------------------------

  /** Order of the thirteen header fields. */
  const MODE: nat := 1
  const NLINK: nat := 4
  const FILESIZE: nat := 6
  const NAMESIZE: nat := 11

  function FieldsOf(mode: nat, nlink: nat, fileSize: nat, nameSize: nat): (f: seq<nat>)
    ensures |f| == 13
  {
    [0, mode, 0, 0, nlink, 0, fileSize, 0, 0, 0, 0, nameSize, 0]
  }

  /** The fields one after the other, eight digits each. */
  function Spell(fields: seq<nat>): (s: Bytes)
    ensures |s| == 8 * |fields|
  {
    if fields == [] then [] else Spell(fields[..|fields| - 1]) + Hex(fields[|fields| - 1], 8)
  }

  function RecordSize(nameLength: nat, dataLength: nat): (n: nat)
    ensures n >= HEADER_SIZE + nameLength + 1 + dataLength
  {
    var nameEnd := HEADER_SIZE + nameLength + 1;
    nameEnd + Padding(nameEnd) + dataLength + Padding(dataLength)
  }

  /** What follows the header. */
  function Body(name: Bytes, data: Bytes): (s: Bytes)
    ensures |s| == RecordSize(|name|, |data|) - HEADER_SIZE
  {
    name + [0] + Zeros(Padding(HEADER_SIZE + |name| + 1)) + data + Zeros(Padding(|data|))
  }

  /** A record with the given header fields. */
  function TextOf(fields: seq<nat>, name: Bytes, data: Bytes): (s: Bytes)
    requires |fields| == 13
    ensures |s| == RecordSize(|name|, |data|)
  {
    MAGIC + Spell(fields) + Body(name, data)
  }

  lemma RecordSizeAligned(start: nat, nameLength: nat, dataLength: nat)
    requires start % 4 == 0
    ensures (start + RecordSize(nameLength, dataLength)) % 4 == 0
  {
    var nameEnd := HEADER_SIZE + nameLength + 1;
    PaddingAligns(nameEnd);
    PaddingAligns(dataLength);
    SumAligned(nameEnd + Padding(nameEnd), dataLength + Padding(dataLength));
    SumAligned(start, RecordSize(nameLength, dataLength));
  }

  lemma SumAligned(a: nat, b: nat)
    requires a % 4 == 0 && b % 4 == 0
    ensures (a + b) % 4 == 0
  {
  }

  function ModeOf(executable: bool): nat { if executable then EXECUTABLE_MODE else READ_ONLY_MODE }

  function EntryText(e: Entry): (s: Bytes)
    ensures |s| == RecordSize(|e.name|, |e.data|)
  {
    TextOf(FieldsOf(ModeOf(e.executable), 1, |e.data|, |e.name| + 1), e.name, e.data)
  }

  function TrailerText(): (s: Bytes)
    ensures |s| == RecordSize(|TRAILER_NAME|, 0)
  {
    TextOf(FieldsOf(0, 0, 0, |TRAILER_NAME| + 1), TRAILER_NAME, [])
  }

  // ---- Spelling up to letter case --------------------------------------------------------

  /** The bytes from `start` are the record's text, except that header digits may be in either case. */
  ghost predicate Spells(bytes: Bytes, start: nat, fields: seq<nat>, name: Bytes, data: Bytes)
    requires |fields| == 13
  {
    && start + RecordSize(|name|, |data|) <= |bytes|
    && bytes[start..start + 6] == MAGIC
    && Lower(bytes[start + 6..start + HEADER_SIZE]) == Spell(fields)
    && bytes[start + HEADER_SIZE..start + RecordSize(|name|, |data|)] == Body(name, data)
  }

  // ---- Parsing ---------------------------------------------------------------------------

  datatype ParseError =
    | TruncatedHeader(offset: nat)
    | InvalidMagic(offset: nat)
    | InvalidNumeric(offset: nat)
    | InvalidNameSize(offset: nat)
    | TruncatedName(offset: nat)
    | InvalidName(offset: nat)
    | TruncatedData(offset: nat)
    | TruncatedPadding(offset: nat)
    | InvalidPadding(offset: nat)
    | InvalidTrailer(offset: nat)
    | DuplicateName(offset: nat)
    | UnsortedName(offset: nat)
    | InvalidMetadata(offset: nat)
    | UnsupportedFileType(offset: nat)
    | UnsupportedPermissions(offset: nat)
    | InvalidPath(offset: nat)
    | ArchiveTooLarge(offset: nat)
    | TooManyRecords(offset: nat)
    | NameTooLarge(offset: nat)
    | TrailingBytes(offset: nat)

  datatype Record = Record(start: nat, next: nat, name: Bytes, data: Bytes, executable: bool, isTrailer: bool)

  function FieldAt(bytes: Bytes, start: nat, k: nat): Bytes
    requires start + 6 + 8 * k + 8 <= |bytes|
  {
    bytes[start + 6 + 8 * k..start + 6 + 8 * k + 8]
  }

  /** The first `n` header fields, or the offset of the first that is no number. */
  function ReadFields(bytes: Bytes, start: nat, n: nat): (r: Result<seq<nat>, ParseError>)
    requires n <= 13 && start + HEADER_SIZE <= |bytes|
    ensures r.Ok? ==> |r.value| == n
  {
    if n == 0 then Ok([])
    else
      var front :- ReadFields(bytes, start, n - 1);
      var v := HexValue(FieldAt(bytes, start, n - 1));
      if v.None? then Err(InvalidNumeric(start + 6 + 8 * (n - 1))) else Ok(front + [v.value])
  }

  predicate AllZero(s: Bytes) { forall i | 0 <= i < |s| :: s[i] == 0 }

  /** Where a record's parts are. */
  datatype Outline = Outline(next: nat, name: Bytes, data: Bytes, fields: seq<nat>)

  /** The first half of `parse_record`: header digits, name, data and padding. */
  function ReadOutline(bytes: Bytes, start: nat): (r: Result<Outline, ParseError>)
    ensures r.Ok? ==> start + HEADER_SIZE < r.value.next <= |bytes| && |r.value.fields| == 13
  {
    if |bytes| < start + HEADER_SIZE then Err(TruncatedHeader(start))
    else if bytes[start..start + 6] != MAGIC then Err(InvalidMagic(start))
    else
      var fields :- ReadFields(bytes, start, 13);
      var nameSize := fields[NAMESIZE];
      if nameSize > MAX_ENCODED_NAME_BYTES then Err(NameTooLarge(start + 94))
      else if nameSize == 0 then Err(InvalidNameSize(start + 94))
      else ReadBody(bytes, start + HEADER_SIZE, nameSize, fields)
  }

  function ReadBody(bytes: Bytes, nameStart: nat, nameSize: nat, fields: seq<nat>): (r: Result<Outline, ParseError>)
    requires nameStart <= |bytes| && nameSize > 0 && |fields| == 13
    ensures r.Ok? ==> nameStart < r.value.next <= |bytes| && r.value.fields == fields
  {
    var nameEnd := nameStart + nameSize;
    if nameEnd > |bytes| then Err(TruncatedName(nameStart))
    else if bytes[nameEnd - 1] != 0 || 0 in bytes[nameStart..nameEnd - 1] then Err(InvalidName(nameStart))
    else
      var dataStart := nameEnd + Padding(nameEnd);
      if dataStart > |bytes| then Err(TruncatedPadding(nameEnd))
      else if !AllZero(bytes[nameEnd..dataStart]) then Err(InvalidPadding(nameEnd))
      else
        var dataEnd := dataStart + fields[FILESIZE];
        if dataEnd > |bytes| then Err(TruncatedData(dataStart))
        else
          var next := dataEnd + Padding(dataEnd);
          if next > |bytes| then Err(TruncatedPadding(dataEnd))
          else if !AllZero(bytes[dataEnd..next]) then Err(InvalidPadding(dataEnd))
          else Ok(Outline(next, bytes[nameStart..nameEnd - 1], bytes[dataStart..dataEnd], fields))
  }

  /** `parse_record`. */
  function ParseRecord(bytes: Bytes, start: nat): (r: Result<Record, ParseError>)
    ensures r.Ok? ==> start + HEADER_SIZE < r.value.next <= |bytes|
  {
    var o :- ReadOutline(bytes, start);
    Classify(start, o.next, o.name, o.data, o.fields)
  }

  /** The checks on the fields of a record whose extent is known. */
  function Classify(start: nat, next: nat, name: Bytes, data: Bytes, fields: seq<nat>): (r: Result<Record, ParseError>)
    requires |fields| == 13
    ensures r.Ok? ==> r.value.next == next && r.value.start == start && r.value.name == name && r.value.data == data
  {
    if name == TRAILER_NAME then
      if exists k | 0 <= k < 13 && k != NAMESIZE :: fields[k] != 0 then Err(InvalidTrailer(start))
      else Ok(Record(start, next, name, data, false, true))
    else if (exists k | 0 <= k < 13 && k != MODE && k != NLINK && k != FILESIZE && k != NAMESIZE :: fields[k] != 0)
            || fields[NLINK] != 1
      then Err(InvalidMetadata(start))
    else if fields[MODE] / 0x1000 % 16 != 8 then Err(UnsupportedFileType(start))
    else if fields[MODE] != READ_ONLY_MODE && fields[MODE] != EXECUTABLE_MODE then Err(UnsupportedPermissions(start))
    else if !ValidPath(name) then Err(InvalidPath(start))
    else Ok(Record(start, next, name, data, fields[MODE] == EXECUTABLE_MODE, false))
  }

  // ---- Parser and text undo each other ---------------------------------------------------

  const U32: nat := 0x1_0000_0000

  lemma {:induction false} ReadFieldAt(bytes: Bytes, start: nat, n: nat, k: nat)
    requires k < n <= 13 && start + HEADER_SIZE <= |bytes| && ReadFields(bytes, start, n).Ok?
    ensures HexValue(FieldAt(bytes, start, k)) == Some(ReadFields(bytes, start, n).value[k])
    decreases n
  {
    if k < n - 1 {
      ReadFieldAt(bytes, start, n - 1, k);
    }
  }

  lemma {:induction false} FieldsRead(bytes: Bytes, start: nat, n: nat, fields: seq<nat>)
    requires n <= 13 && start + HEADER_SIZE <= |bytes| && |fields| >= n
    requires forall k {:trigger fields[k]} :: 0 <= k < n ==> HexValue(FieldAt(bytes, start, k)) == Some(fields[k])
    ensures ReadFields(bytes, start, n) == Ok(fields[..n])
  {
    if n > 0 {
      FieldsRead(bytes, start, n - 1, fields);
      assert fields[n - 1] in fields;
      assert fields[..n] == fields[..n - 1] + [fields[n - 1]];
    }
  }

  lemma {:induction false} SpellAt(fields: seq<nat>, k: nat)
    requires k < |fields|
    ensures Spell(fields)[8 * k..8 * k + 8] == Hex(fields[k], 8)
    decreases |fields|
  {
    var n := |fields| - 1;
    var front := fields[..n];
    if k < n {
      SpellAt(front, k);
      assert Spell(fields)[8 * k..8 * k + 8] == Spell(front)[8 * k..8 * k + 8];
    }
  }

  /** The header digits, a number for each field. */
  ghost predicate Numbers(bytes: Bytes, start: nat, fields: seq<nat>)
    requires start + HEADER_SIZE <= |bytes| && |fields| == 13
  {
    forall k {:trigger fields[k]} :: 0 <= k < 13 ==> HexValue(FieldAt(bytes, start, k)) == Some(fields[k])
  }

  lemma FieldsExact(bytes: Bytes, start: nat, fields: seq<nat>)
    requires start + HEADER_SIZE <= |bytes| && |fields| == 13
    ensures ReadFields(bytes, start, 13) == Ok(fields) <==> Numbers(bytes, start, fields)
  {
    if ReadFields(bytes, start, 13) == Ok(fields) {
      forall k {:trigger fields[k]} | 0 <= k < 13 ensures HexValue(FieldAt(bytes, start, k)) == Some(fields[k]) {
        ReadFieldAt(bytes, start, 13, k);
      }
    }
    if Numbers(bytes, start, fields) {
      FieldsRead(bytes, start, 13, fields);
      assert fields[..13] == fields;
    }
  }

  ghost predicate Fit(fields: seq<nat>) { forall k :: 0 <= k < |fields| ==> fields[k] < U32 }

  /** The digits are those numbers exactly when they are a spelling of them. */
  lemma NumbersExact(bytes: Bytes, start: nat, fields: seq<nat>)
    requires start + HEADER_SIZE <= |bytes| && |fields| == 13
    ensures Numbers(bytes, start, fields) <==>
            Fit(fields) && Lower(bytes[start + 6..start + HEADER_SIZE]) == Spell(fields)
  {
    var digits := bytes[start + 6..start + HEADER_SIZE];
    var lower, text := Lower(digits), Spell(fields);
    forall k {:trigger fields[k]} | 0 <= k < 13
      ensures HexValue(FieldAt(bytes, start, k)) == Some(fields[k]) <==> fields[k] < U32 && SameField(lower, text, k)
    {
      NumberExact(bytes, start, fields, k);
    }
    if Numbers(bytes, start, fields) {
      forall k | 0 <= k < 13 ensures SameField(lower, text, k) {
        assert HexValue(FieldAt(bytes, start, k)) == Some(fields[k]);
      }
      EqualByFields(lower, text, 13);
    }
  }

  ghost predicate SameField(a: Bytes, b: Bytes, k: nat) {
    8 * k + 8 <= |a| == |b| && a[8 * k..8 * k + 8] == b[8 * k..8 * k + 8]
  }

  lemma FieldExact(field: Bytes, v: nat)
    requires |field| == 8
    ensures HexValue(field) == Some(v) <==> v < U32 && Lower(field) == Hex(v, 8)
  {
    HexExact(field, v);
    assert Pow16(8) == U32;
  }

  lemma NumberExact(bytes: Bytes, start: nat, fields: seq<nat>, k: nat)
    requires start + HEADER_SIZE <= |bytes| && |fields| == 13 && k < 13
    ensures var digits := bytes[start + 6..start + HEADER_SIZE];
            HexValue(FieldAt(bytes, start, k)) == Some(fields[k])
            <==> fields[k] < U32 && SameField(Lower(digits), Spell(fields), k)
  {
    var digits := bytes[start + 6..start + HEADER_SIZE];
    FieldExact(FieldAt(bytes, start, k), fields[k]);
    SpellAt(fields, k);
    FieldOfDigits(bytes, start, k, 8 * k);
  }

  lemma FieldOfDigits(bytes: Bytes, start: nat, k: nat, i: nat)
    requires start + HEADER_SIZE <= |bytes| && k < 13 && i == 8 * k
    ensures Lower(bytes[start + 6..start + HEADER_SIZE])[i..i + 8] == Lower(FieldAt(bytes, start, k))
  {
    SliceOfSlice(bytes, start + 6, start + HEADER_SIZE, i, i + 8);
    LowerSlice(bytes[start + 6..start + HEADER_SIZE], i, i + 8);
  }

  lemma SliceOfSlice(s: Bytes, a: nat, b: nat, i: nat, j: nat)
    requires a <= b <= |s| && i <= j <= b - a
    ensures s[a..b][i..j] == s[a + i..a + j]
  {
    var c, d := s[a..b][i..j], s[a + i..a + j];
    assert forall k :: 0 <= k < |c| ==> c[k] == s[a + i + k] && d[k] == s[a + i + k];
  }

  lemma LowerSlice(s: Bytes, i: nat, j: nat)
    requires i <= j <= |s|
    ensures Lower(s)[i..j] == Lower(s[i..j])
  {
    var a, b := Lower(s)[i..j], Lower(s[i..j]);
    assert forall k :: 0 <= k < |a| ==> a[k] == LowerByte(s[i + k]) && b[k] == LowerByte(s[i + k]);
  }

  lemma EqualByFields(a: Bytes, b: Bytes, n: nat)
    requires |a| == 8 * n && |b| == 8 * n
    requires forall k :: 0 <= k < n ==> SameField(a, b, k)
    ensures a == b
  {
    forall i | 0 <= i < |a| ensures a[i] == b[i] {
      var k := i / 8;
      assert SameField(a, b, k);
      assert a[8 * k..8 * k + 8][i - 8 * k] == b[8 * k..8 * k + 8][i - 8 * k];
    }
  }

  lemma BodyExact(rest: Bytes, name: Bytes, data: Bytes)
    requires |rest| == RecordSize(|name|, |data|) - HEADER_SIZE
    ensures rest == Body(name, data) <==>
            var nameEnd := |name| + 1; var dataStart := nameEnd + Padding(HEADER_SIZE + nameEnd);
            && rest[..|name|] == name && rest[|name|] == 0 && AllZero(rest[nameEnd..dataStart])
            && rest[dataStart..dataStart + |data|] == data && AllZero(rest[dataStart + |data|..])
  {
    var nameEnd := |name| + 1;
    var dataStart := nameEnd + Padding(HEADER_SIZE + nameEnd);
    var body := Body(name, data);
    assert body[..|name|] == name && body[|name|] == 0;
    assert AllZero(body[nameEnd..dataStart]) && AllZero(body[dataStart + |data|..]);
    assert body[dataStart..dataStart + |data|] == data;
    if rest[..|name|] == name && rest[|name|] == 0 && AllZero(rest[nameEnd..dataStart])
       && rest[dataStart..dataStart + |data|] == data && AllZero(rest[dataStart + |data|..]) {
      forall i | 0 <= i < |rest| ensures rest[i] == body[i] {
        if i < |name| {
          assert rest[..|name|][i] == name[i];
        } else if i == |name| {
        } else if i < dataStart {
          assert rest[nameEnd..dataStart][i - nameEnd] == 0;
        } else if i < dataStart + |data| {
          assert rest[dataStart..dataStart + |data|][i - dataStart] == data[i - dataStart];
        } else {
          assert rest[dataStart + |data|..][i - dataStart - |data|] == 0;
        }
      }
    }
  }

  /** A name field, data field and padding at their places after the header. */
  ghost predicate BodyAt(bytes: Bytes, nameStart: nat, name: Bytes, data: Bytes) {
    var nameEnd := nameStart + |name| + 1;
    var dataStart := nameEnd + Padding(HEADER_SIZE + |name| + 1);
    var dataEnd := dataStart + |data|;
    var next := dataEnd + Padding(|data|);
    && next <= |bytes|
    && bytes[nameStart..nameEnd - 1] == name && bytes[nameEnd - 1] == 0
    && AllZero(bytes[nameEnd..dataStart]) && bytes[dataStart..dataEnd] == data && AllZero(bytes[dataEnd..next])
  }

  lemma BodyAtExact(bytes: Bytes, nameStart: nat, name: Bytes, data: Bytes)
    ensures BodyAt(bytes, nameStart, name, data) <==>
            nameStart + |Body(name, data)| <= |bytes|
              && bytes[nameStart..nameStart + |Body(name, data)|] == Body(name, data)
  {
    var end := nameStart + |Body(name, data)|;
    if end <= |bytes| {
      BodyExact(bytes[nameStart..end], name, data);
      var nameEnd := |name| + 1;
      var dataStart := nameEnd + Padding(HEADER_SIZE + nameEnd);
      BodySlices(bytes, nameStart, end, |name|, dataStart, dataStart + |data|);
    }
  }

  /** The parts of a slice, by their offsets in the whole. */
  lemma BodySlices(bytes: Bytes, start: nat, end: nat, nameLength: nat, dataStart: nat, dataEnd: nat)
    requires start <= end <= |bytes| && nameLength < dataStart <= dataEnd <= end - start
    ensures var rest := bytes[start..end];
            && rest[..nameLength] == bytes[start..start + nameLength] && rest[nameLength] == bytes[start + nameLength]
            && rest[nameLength + 1..dataStart] == bytes[start + nameLength + 1..start + dataStart]
            && rest[dataStart..dataEnd] == bytes[start + dataStart..start + dataEnd]
            && rest[dataEnd..] == bytes[start + dataEnd..end]
  {
    SliceOfSlice(bytes, start, end, 0, nameLength);
    SliceOfSlice(bytes, start, end, nameLength + 1, dataStart);
    SliceOfSlice(bytes, start, end, dataStart, dataEnd);
    SliceOfSlice(bytes, start, end, dataEnd, end - start);
  }

  lemma PaddingShifts(start: nat, n: nat)
    requires start % 4 == 0
    ensures Padding(start + n) == Padding(n)
  {
    if start >= 4 {
      PaddingShifts(start - 4, n);
    }
  }

  /** `ReadBody` finds exactly the body that is there. */
  lemma ReadBodyExact(bytes: Bytes, start: nat, fields: seq<nat>, name: Bytes, data: Bytes)
    requires start % 4 == 0 && start + HEADER_SIZE <= |bytes| && |fields| == 13 && fields[NAMESIZE] > 0
    ensures ReadBody(bytes, start + HEADER_SIZE, fields[NAMESIZE], fields) ==
            Ok(Outline(start + RecordSize(|name|, |data|), name, data, fields))
            <==> BodyAt(bytes, start + HEADER_SIZE, name, data) && 0 !in name
                 && fields[NAMESIZE] == |name| + 1 && fields[FILESIZE] == |data|
  {
    var nameEnd := HEADER_SIZE + fields[NAMESIZE];
    PaddingAligns(nameEnd);
    PaddingShifts(start, nameEnd);
    PaddingShifts(start + nameEnd + Padding(nameEnd), fields[FILESIZE]);
  }

  /** The records whose outline the parser reads. */
  ghost predicate Outlined(bytes: Bytes, start: nat, o: Outline) {
    && |o.fields| == 13 && Fit(o.fields) && Spells(bytes, start, o.fields, o.name, o.data)
    && o.fields[NAMESIZE] == |o.name| + 1 && o.fields[FILESIZE] == |o.data|
    && 0 !in o.name && |o.name| < MAX_ENCODED_NAME_BYTES && o.next == start + RecordSize(|o.name|, |o.data|)
  }

  lemma SpellsParts(bytes: Bytes, start: nat, fields: seq<nat>, name: Bytes, data: Bytes)
    requires |fields| == 13
    ensures Spells(bytes, start, fields, name, data) <==>
            && start + HEADER_SIZE <= |bytes| && bytes[start..start + 6] == MAGIC
            && Lower(bytes[start + 6..start + HEADER_SIZE]) == Spell(fields)
            && BodyAt(bytes, start + HEADER_SIZE, name, data)
  {
    BodyAtExact(bytes, start + HEADER_SIZE, name, data);
  }

  lemma OutlineIsSpelled(bytes: Bytes, start: nat)
    requires start % 4 == 0 && ReadOutline(bytes, start).Ok?
    ensures Outlined(bytes, start, ReadOutline(bytes, start).value)
  {
    var o := ReadOutline(bytes, start).value;
    HeaderPart(bytes, start, o.fields);
    BodyPart(bytes, start, o);
    SpellsParts(bytes, start, o.fields, o.name, o.data);
  }

  lemma HeaderPart(bytes: Bytes, start: nat, fields: seq<nat>)
    requires start + HEADER_SIZE <= |bytes| && |fields| == 13 && ReadFields(bytes, start, 13) == Ok(fields)
    ensures Fit(fields) && Lower(bytes[start + 6..start + HEADER_SIZE]) == Spell(fields)
  {
    FieldsExact(bytes, start, fields);
    NumbersExact(bytes, start, fields);
  }

  lemma BodyPart(bytes: Bytes, start: nat, o: Outline)
    requires start % 4 == 0 && start + HEADER_SIZE <= |bytes| && |o.fields| == 13 && o.fields[NAMESIZE] > 0
    requires ReadBody(bytes, start + HEADER_SIZE, o.fields[NAMESIZE], o.fields) == Ok(o)
    ensures BodyAt(bytes, start + HEADER_SIZE, o.name, o.data) && 0 !in o.name
    ensures o.fields[NAMESIZE] == |o.name| + 1 && o.fields[FILESIZE] == |o.data|
            && o.next == start + RecordSize(|o.name|, |o.data|)
  {
    BodySize(bytes, start, o.fields);
    ReadBodyExact(bytes, start, o.fields, o.name, o.data);
  }

  lemma SpelledIsOutlined(bytes: Bytes, start: nat, o: Outline)
    requires start % 4 == 0 && Outlined(bytes, start, o)
    ensures ReadOutline(bytes, start) == Ok(o)
  {
    SpellsParts(bytes, start, o.fields, o.name, o.data);
    FieldsExact(bytes, start, o.fields);
    NumbersExact(bytes, start, o.fields);
    ReadBodyExact(bytes, start, o.fields, o.name, o.data);
  }

  lemma BodySize(bytes: Bytes, start: nat, fields: seq<nat>)
    requires start % 4 == 0 && start + HEADER_SIZE <= |bytes| && |fields| == 13 && fields[NAMESIZE] > 0
    ensures var r := ReadBody(bytes, start + HEADER_SIZE, fields[NAMESIZE], fields);
            r.Ok? ==> r.value.next == start + RecordSize(|r.value.name|, |r.value.data|)
  {
    var nameEnd := HEADER_SIZE + fields[NAMESIZE];
    PaddingAligns(nameEnd);
    PaddingShifts(start, nameEnd);
    PaddingShifts(start + nameEnd + Padding(nameEnd), fields[FILESIZE]);
  }

  // ---- Accepted records ------------------------------------------------------------------

  /** The mode and link count of the record kinds the parser accepts. */
  function RecordMode(r: Record): nat { if r.isTrailer then 0 else ModeOf(r.executable) }

  function RecordLinks(r: Record): nat { if r.isTrailer then 0 else 1 }

  function RecordFields(r: Record): (f: seq<nat>)
    ensures |f| == 13
  {
    FieldsOf(RecordMode(r), RecordLinks(r), |r.data|, |r.name| + 1)
  }

  /** What the parser accepts as a record. */
  ghost predicate GoodRecord(r: Record) {
    && |r.data| < U32 && r.next == r.start + RecordSize(|r.name|, |r.data|)
    && if r.isTrailer then r.name == TRAILER_NAME && r.data == [] && !r.executable else ValidPath(r.name)
  }

  lemma ClassifyExact(start: nat, o: Outline, r: Record)
    requires |o.fields| == 13 && Fit(o.fields) && o.fields[FILESIZE] == |o.data| && o.fields[NAMESIZE] == |o.name| + 1
    requires o.next == start + RecordSize(|o.name|, |o.data|)
    ensures Classify(start, o.next, o.name, o.data, o.fields) == Ok(r)
            <==> GoodRecord(r) && r.start == start && r.name == o.name && r.data == o.data
                 && o.fields == RecordFields(r)
  {
    assert !ValidPath(TRAILER_NAME);
  }

  /** The bytes hold the record where it says it is. */
  ghost predicate Spelled(bytes: Bytes, r: Record) { Spells(bytes, r.start, RecordFields(r), r.name, r.data) }

  lemma ParsedIsSpelled(bytes: Bytes, start: nat)
    requires start % 4 == 0 && ParseRecord(bytes, start).Ok?
    ensures var r := ParseRecord(bytes, start).value;
            GoodRecord(r) && r.start == start && Spelled(bytes, r)
  {
    var o, r := ReadOutline(bytes, start).value, ParseRecord(bytes, start).value;
    OutlineIsSpelled(bytes, start);
    ClassifyExact(start, o, r);
  }

  lemma SpelledIsParsed(bytes: Bytes, start: nat, r: Record)
    requires start % 4 == 0 && GoodRecord(r) && r.start == start && Spelled(bytes, r)
    ensures ParseRecord(bytes, start) == Ok(r)
  {
    var o := Outline(r.next, r.name, r.data, RecordFields(r));
    NameFits(r);
    SpelledIsOutlined(bytes, start, o);
    ClassifyExact(start, o, r);
  }

  lemma NameFits(r: Record)
    requires GoodRecord(r)
    ensures 0 !in r.name && |r.name| < MAX_ENCODED_NAME_BYTES
  {
  }

  /** Parser and text undo each other: a record is accepted exactly where its own text is spelled. */
  lemma ParseExact(bytes: Bytes, start: nat, r: Record)
    requires start % 4 == 0
    ensures ParseRecord(bytes, start) == Ok(r) <==> GoodRecord(r) && r.start == start && Spelled(bytes, r)
  {
    if ParseRecord(bytes, start) == Ok(r) {
      ParsedIsSpelled(bytes, start);
    } else if GoodRecord(r) && r.start == start && Spelled(bytes, r) {
      SpelledIsParsed(bytes, start, r);
    }
  }
}
