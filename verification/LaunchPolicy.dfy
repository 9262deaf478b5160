/** The launch policy: fixed records plus a packed string area, with exactly one encoding per policy. */
module LaunchPolicy {
  import opened Outcome
  import opened ByteStrings
  import opened ArchivePaths
  import opened LittleEndian

  const HEADER_BYTES: nat := 64
  const RECORD_BYTES: nat := 64
  const MAX_ENTRIES: nat := 32
  const MAX_PATH_BYTES: nat := 256

  /** "WRJP". */
  const MAGIC: Bytes := [87, 82, 74, 80]

  /** "system/wyrmsh". */
  const WYRMSH_PATH: Bytes := [115, 121, 115, 116, 101, 109, 47, 119, 121, 114, 109, 115, 104]

  const JOB_V2_PROFILE: nat := 1
  const WYRMSH_PROFILE: nat := 2
  const RECOVERY_TRIGGER_PROFILE: nat := 3

  type Short = n: int | 0 <= n < 0x1_0000

  type Digest = d: Bytes | |d| == 32 witness Zeros(32)

  datatype PolicyEntry = PolicyEntry(path: Bytes, digest: Digest, abi: Short, profile: Short, noStreams: bool,
                                     threeStreams: bool)

  datatype Policy = Policy(minor: Short, generation: Digest, entries: seq<PolicyEntry>)

  datatype PolicyError =
    | WrongSize | WrongMagic | UnsupportedVersion | NonzeroReserved | InvalidCount | InvalidBootGeneration
    | BadPolicyPath
    | NoncanonicalPathOrder | InvalidDigest | InvalidStartupProfile | InvalidStreamModes | InvalidClassification

  // ---- Which policies there are ----------------------------------------------------------

  /** `validate_path`. */
  predicate PolicyPath(path: Bytes) {
    && 0 < |path| <= MAX_PATH_BYTES && 0 !in path
    && (forall i | 0 <= i < |path| :: path[i] < 128)
    && forall i, j | 0 <= i <= j <= |path| && IsComponent(path, i, j) :: GoodComponent(path[i..j])
  }

  /** Which profile each format minor admits for a path. */
  predicate ProfileAllowed(minor: nat, profile: nat, path: Bytes) {
    if profile == JOB_V2_PROFILE then minor == 0 || ((minor == 1 || minor == 2) && path != WYRMSH_PATH)
    else if profile == WYRMSH_PROFILE then (minor == 1 || minor == 2) && path == WYRMSH_PATH
    else profile == RECOVERY_TRIGGER_PROFILE && minor == 2
  }

  function StreamModes(e: PolicyEntry): nat { (if e.noStreams then 1 else 0) + (if e.threeStreams then 2 else 0) }

  predicate ModesAllowed(profile: nat, modes: nat) {
    0 < modes < 4 && (profile == WYRMSH_PROFILE || profile == RECOVERY_TRIGGER_PROFILE ==> modes == 2)
  }

  predicate GoodEntry(minor: nat, e: PolicyEntry) {
    && PolicyPath(e.path) && e.abi == 2 && ProfileAllowed(minor, e.profile, e.path)
    && ModesAllowed(e.profile, StreamModes(e)) && e.digest != Zeros(32)
  }

  ghost predicate AllGood(minor: nat, entries: seq<PolicyEntry>) {
    forall i :: 0 <= i < |entries| ==> GoodEntry(minor, entries[i])
  }

  ghost predicate AscendingPaths(entries: seq<PolicyEntry>) {
    forall i :: 0 < i < |entries| ==> Less(entries[i - 1].path, entries[i].path)
  }

  ghost predicate Admissible(p: Policy) {
    p.minor <= 2 && p.generation != Zeros(32) && 1 <= |p.entries| <= MAX_ENTRIES && AllGood(p.minor, p.entries)
      && AscendingPaths(p.entries)
  }

  // ---- The text of a policy --------------------------------------------------------------

  function PathsText(entries: seq<PolicyEntry>): Bytes {
    if entries == [] then [] else PathsText(entries[..|entries| - 1]) + entries[|entries| - 1].path
  }

  function RecordText(offset: nat, e: PolicyEntry): (s: Bytes)
    ensures |s| == RECORD_BYTES
  {
    Little(offset, 4) + Little(|e.path|, 2) + Little(2, 2) + Little(e.profile, 2) + Little(StreamModes(e), 2)
      + Little(1, 4)
      + e.digest + Zeros(16)
  }

  function RecordsText(entries: seq<PolicyEntry>): (s: Bytes)
    ensures |s| == RECORD_BYTES * |entries|
  {
    if entries == [] then []
    else
      var n := |entries| - 1;
      RecordsText(entries[..n]) + RecordText(|PathsText(entries[..n])|, entries[n])
  }

  function HeaderText(minor: nat, count: nat, stringBytes: nat, generation: Digest): (s: Bytes)
    ensures |s| == HEADER_BYTES
  {
    VersionText(minor) + ShapeText(count) + SizeText(StringsOffset(count) + stringBytes, stringBytes, generation)
  }

  /** Magic, major, minor and header size. */
  function VersionText(minor: nat): (s: Bytes)
    ensures |s| == 10
  {
    MAGIC + Little(1, 2) + Little(minor, 2) + Little(HEADER_BYTES, 2)
  }

  /** Record size, count and a reserved field. */
  function ShapeText(count: nat): (s: Bytes)
    ensures |s| == 6
  {
    [] + Little(RECORD_BYTES, 2) + Little(count, 2) + Little(0, 2)
  }

  /** Total size, string area size, boot generation and a reserved field. */
  function SizeText(total: nat, stringBytes: nat, generation: Digest): (s: Bytes)
    ensures |s| == 48
  {
    Little(total, 4) + Little(stringBytes, 4) + generation + Zeros(8)
  }

  function PolicyText(p: Policy): Bytes {
    HeaderText(p.minor, |p.entries|, |PathsText(p.entries)|, p.generation) + RecordsText(p.entries)
      + PathsText(p.entries)
  }

  // ---- Parsing ---------------------------------------------------------------------------

  function StringsOffset(count: nat): nat { HEADER_BYTES + RECORD_BYTES * count }

  function RecordStart(index: nat): nat { HEADER_BYTES + RECORD_BYTES * index }

  /** `parse_entry`. */
  function ParseEntry(bytes: Bytes, minor: nat, strings: nat, index: nat): (r: Result<PolicyEntry, PolicyError>)
    requires RecordStart(index) + RECORD_BYTES <= |bytes|
  {
    var at := RecordStart(index);
    if bytes[at + 48..at + 64] != Zeros(16) then Err(NonzeroReserved)
    else
      var start, length := strings + NumberAt(bytes, at, 4), NumberAt(bytes, at + 4, 2);
      if length == 0 || length > MAX_PATH_BYTES || start + length > |bytes| then Err(BadPolicyPath)
      else
        var path := bytes[start..start + length];
        if !PolicyPath(path) then Err(BadPolicyPath)
        else ParseTail(bytes, minor, at, path)
  }

  /** The part of `parse_entry` after the path. */
  function ParseTail(bytes: Bytes, minor: nat, at: nat, path: Bytes): (r: Result<PolicyEntry, PolicyError>)
    requires at + RECORD_BYTES <= |bytes|
  {
    var abi, profile, modes := NumberAt(bytes, at + 6, 2), NumberAt(bytes, at + 8, 2), NumberAt(bytes, at + 10, 2);
    if abi != 2 || !ProfileAllowed(minor, profile, path) then Err(InvalidStartupProfile)
    else if !ModesAllowed(profile, modes) then Err(InvalidStreamModes)
    else if NumberAt(bytes, at + 12, 4) != 1 then Err(InvalidClassification)
    else if bytes[at + 16..at + 48] == Zeros(32) then Err(InvalidDigest)
    else
      Ok(PolicyEntry(path, bytes[at + 16..at + 48], 2, profile, modes % 2 == 1, modes >= 2))
  }

  /** The first `n` entries, checked in order as the loop of `parse` does. */
  function ReadEntries(bytes: Bytes, minor: nat, strings: nat, n: nat): (r: Result<seq<PolicyEntry>, PolicyError>)
    requires RecordStart(n) <= |bytes|
    ensures r.Ok? ==> |r.value| == n
  {
    if n == 0 then Ok([])
    else
      var front :- ReadEntries(bytes, minor, strings, n - 1);
      var e :- ParseEntry(bytes, minor, strings, n - 1);
      if n > 1 && !Less(front[n - 2].path, e.path) then Err(NoncanonicalPathOrder)
      else if NumberAt(bytes, RecordStart(n - 1), 4) != |PathsText(front)| then Err(BadPolicyPath)
      else Ok(front + [e])
  }

  /** The header checks of `parse`. */
  function CheckHeader(bytes: Bytes): (r: Option<PolicyError>)
    ensures r.None? ==> HEADER_BYTES <= |bytes|
  {
    if |bytes| < HEADER_BYTES then Some(WrongSize)
    else if bytes[..4] != MAGIC then Some(WrongMagic)
    else if NumberAt(bytes, 4, 2) != 1 || NumberAt(bytes, 6, 2) > 2 then Some(UnsupportedVersion)
    else if NumberAt(bytes, 8, 2) != HEADER_BYTES || NumberAt(bytes, 10, 2) != RECORD_BYTES then Some(WrongSize)
    else if !(1 <= NumberAt(bytes, 12, 2) <= MAX_ENTRIES) then Some(InvalidCount)
    else if NumberAt(bytes, 14, 2) != 0 || bytes[56..64] != Zeros(8) then Some(NonzeroReserved)
    else if NumberAt(bytes, 16, 4) != |bytes| then Some(WrongSize)
    else if StringsOffset(NumberAt(bytes, 12, 2)) + NumberAt(bytes, 20, 4) != |bytes| then Some(WrongSize)
    else if bytes[24..56] == Zeros(32) then Some(InvalidBootGeneration)
    else None
  }

  /** `LaunchPolicy::parse` as a function of the bytes. */
  function Parsed(bytes: Bytes): (r: Result<Policy, PolicyError>) {
    var wrong := CheckHeader(bytes);
    if wrong.Some? then Err(wrong.value)
    else
      var minor, count := NumberAt(bytes, 6, 2), NumberAt(bytes, 12, 2);
      var entries :- ReadEntries(bytes, minor, StringsOffset(count), count);
      if |PathsText(entries)| != NumberAt(bytes, 20, 4) then Err(BadPolicyPath)
      else Ok(Policy(minor, bytes[24..56], entries))
  }

  /** `LaunchPolicy::parse`. */
  method Parse(bytes: Bytes) returns (r: Result<Policy, PolicyError>)
    ensures r == Parsed(bytes)
  {
    var wrong := CheckHeader(bytes);
    if wrong.Some? {
      return Err(wrong.value);
    }
    var minor, count := NumberAt(bytes, 6, 2), NumberAt(bytes, 12, 2);
    var strings := StringsOffset(count);
    var entries, expected := [], 0;
    for index := 0 to count
      invariant ReadEntries(bytes, minor, strings, index) == Ok(entries) && expected == |PathsText(entries)|
    {
      var parsed := ParseNext(bytes, minor, strings, index, entries, expected);
      if parsed.Err? {
        ReadEntriesFails(bytes, minor, strings, index + 1, count, parsed.error);
        return Err(parsed.error);
      }
      PathsSnoc(entries, parsed.value);
      expected := expected + |parsed.value.path|;
      entries := entries + [parsed.value];
    }
    if expected != NumberAt(bytes, 20, 4) {
      return Err(BadPolicyPath);
    }
    return Ok(Policy(minor, bytes[24..56], entries));
  }

  /** One turn of the loop of `parse`. */
  method ParseNext(bytes: Bytes, minor: nat, strings: nat, index: nat, entries: seq<PolicyEntry>, expected: nat)
    returns (r: Result<PolicyEntry, PolicyError>)
    requires RecordStart(index + 1) <= |bytes| && ReadEntries(bytes, minor, strings, index) == Ok(entries)
             && expected == |PathsText(entries)|
    ensures ReadEntries(bytes, minor, strings, index + 1) == if r.Ok? then Ok(entries + [r.value]) else Err(r.error)
  {
    r := ParseEntry(bytes, minor, strings, index);
    if r.Err? {
      return;
    }
    if index > 0 && !Less(entries[index - 1].path, r.value.path) {
      return Err(NoncanonicalPathOrder);
    }
    if NumberAt(bytes, RecordStart(index), 4) != expected {
      return Err(BadPolicyPath);
    }
  }

  lemma {:induction false} ReadEntriesFails(bytes: Bytes, minor: nat, strings: nat, n: nat, count: nat,
                                            error: PolicyError)
    requires n <= count && RecordStart(count) <= |bytes| && ReadEntries(bytes, minor, strings, n) == Err(error)
    ensures ReadEntries(bytes, minor, strings, count) == Err(error)
    decreases count - n
  {
    if n < count {
      var next: nat := n + 1;
      assert RecordStart(next) <= RecordStart(count);
      ErrorStays(bytes, minor, strings, n, next, error);
      ReadEntriesFails(bytes, minor, strings, next, count, error);
    }
  }

  lemma ErrorStays(bytes: Bytes, minor: nat, strings: nat, n: nat, next: nat, error: PolicyError)
    requires next == n + 1 && RecordStart(next) <= |bytes| && ReadEntries(bytes, minor, strings, n) == Err(error)
    ensures ReadEntries(bytes, minor, strings, next) == Err(error)
  {
  }

  lemma PathsSnoc(entries: seq<PolicyEntry>, e: PolicyEntry)
    ensures PathsText(entries + [e]) == PathsText(entries) + e.path
  {
    assert (entries + [e])[..|entries|] == entries;
  }

  lemma RecordsSnoc(entries: seq<PolicyEntry>, e: PolicyEntry)
    ensures RecordsText(entries + [e]) == RecordsText(entries) + RecordText(|PathsText(entries)|, e)
  {
    assert (entries + [e])[..|entries|] == entries;
  }

  // ---- The parser undoes the text, and nothing else is accepted --------------------------

  /** The fields of a record at their offsets. */
  ghost predicate RecordFields(bytes: Bytes, at: nat, offset: nat, e: PolicyEntry) {
    && at + RECORD_BYTES <= |bytes|
    && TextAt(bytes, at, Little(offset, 4)) && TextAt(bytes, at + 4, Little(|e.path|, 2))
    && TextAt(bytes, at + 6, Little(2, 2))
    && TextAt(bytes, at + 8, Little(e.profile, 2)) && TextAt(bytes, at + 10, Little(StreamModes(e), 2))
    && TextAt(bytes, at + 12, Little(1, 4)) && TextAt(bytes, at + 16, e.digest) && TextAt(bytes, at + 48, Zeros(16))
  }

  lemma RecordFieldsExact(bytes: Bytes, at: nat, offset: nat, e: PolicyEntry)
    ensures TextAt(bytes, at, RecordText(offset, e)) <==> RecordFields(bytes, at, offset, e)
  {
    var a := Little(offset, 4);
    var b := a + Little(|e.path|, 2);
    var c := b + Little(2, 2);
    var d := c + Little(e.profile, 2);
    var f := d + Little(StreamModes(e), 2);
    var g := f + Little(1, 4);
    var h := g + e.digest;
    TextAtSplit(bytes, at, h, Zeros(16));
    TextAtSplit(bytes, at, g, e.digest);
    TextAtSplit(bytes, at, f, Little(1, 4));
    TextAtSplit(bytes, at, d, Little(StreamModes(e), 2));
    TextAtSplit(bytes, at, c, Little(e.profile, 2));
    TextAtSplit(bytes, at, b, Little(2, 2));
    TextAtSplit(bytes, at, a, Little(|e.path|, 2));
  }

  /** The same fields as numbers. */
  ghost predicate RecordNumbers(bytes: Bytes, at: nat, offset: nat, e: PolicyEntry) {
    && at + RECORD_BYTES <= |bytes|
    && NumberAt(bytes, at, 4) == offset && NumberAt(bytes, at + 4, 2) == |e.path| && NumberAt(bytes, at + 6, 2) == 2
    && NumberAt(bytes, at + 8, 2) == e.profile && NumberAt(bytes, at + 10, 2) == StreamModes(e)
    && NumberAt(bytes, at + 12, 4) == 1 && bytes[at + 16..at + 48] == e.digest && bytes[at + 48..at + 64] == Zeros(16)
  }

  lemma RecordNumbersExact(bytes: Bytes, at: nat, offset: nat, e: PolicyEntry)
    requires offset < 0x1_0000_0000 && |e.path| < 0x1_0000
    ensures RecordFields(bytes, at, offset, e) <==> RecordNumbers(bytes, at, offset, e)
  {
    if at + RECORD_BYTES <= |bytes| {
      LongExact(bytes, at, offset);
      ShortExact(bytes, at + 4, |e.path|);
      ShortExact(bytes, at + 6, 2);
      ShortExact(bytes, at + 8, e.profile);
      ShortExact(bytes, at + 10, StreamModes(e));
      LongExact(bytes, at + 12, 1);
      TextAtSlice(bytes, at + 16, e.digest);
      TextAtSlice(bytes, at + 48, Zeros(16));
    }
  }

  /** The record at `index` is the text of `e` with the given string offset. */
  lemma RecordExact(bytes: Bytes, at: nat, offset: nat, e: PolicyEntry)
    requires offset < 0x1_0000_0000 && |e.path| < 0x1_0000
    ensures TextAt(bytes, at, RecordText(offset, e)) <==> RecordNumbers(bytes, at, offset, e)
  {
    RecordFieldsExact(bytes, at, offset, e);
    RecordNumbersExact(bytes, at, offset, e);
  }

  /** The part of an entry after its path is read back exactly. */
  lemma ParseTailExact(bytes: Bytes, minor: nat, at: nat, e: PolicyEntry)
    requires at + RECORD_BYTES <= |bytes| && PolicyPath(e.path)
    ensures ParseTail(bytes, minor, at, e.path) == Ok(e) <==>
            && GoodEntry(minor, e) && NumberAt(bytes, at + 6, 2) == 2 && NumberAt(bytes, at + 8, 2) == e.profile
            && NumberAt(bytes, at + 10, 2) == StreamModes(e) && NumberAt(bytes, at + 12, 4) == 1
            && bytes[at + 16..at + 48] == e.digest
  {
  }

  /** An entry is parsed from exactly the places where its text is. */
  lemma EntryExact(bytes: Bytes, minor: nat, strings: nat, index: nat, e: PolicyEntry)
    requires RecordStart(index) + RECORD_BYTES <= |bytes|
    ensures var offset := NumberAt(bytes, RecordStart(index), 4);
            ParseEntry(bytes, minor, strings, index) == Ok(e) <==>
              GoodEntry(minor, e) && TextAt(bytes, RecordStart(index), RecordText(offset, e))
                && TextAt(bytes, strings + offset, e.path)
  {
    var at := RecordStart(index);
    var offset := NumberAt(bytes, at, 4);
    if ParseEntry(bytes, minor, strings, index) == Ok(e) {
      ParsedEntryAt(bytes, minor, strings, index, at, offset, e);
    }
    if GoodEntry(minor, e) && TextAt(bytes, at, RecordText(offset, e)) && TextAt(bytes, strings + offset, e.path) {
      EntryAtParsed(bytes, minor, strings, index, at, offset, e);
    }
  }

  lemma ParsedEntryAt(bytes: Bytes, minor: nat, strings: nat, index: nat, at: nat, offset: nat, e: PolicyEntry)
    requires at == RecordStart(index) && at + RECORD_BYTES <= |bytes| && offset == NumberAt(bytes, at, 4)
    requires ParseEntry(bytes, minor, strings, index) == Ok(e)
    ensures GoodEntry(minor, e) && TextAt(bytes, at, RecordText(offset, e)) && TextAt(bytes, strings + offset, e.path)
  {
    Widths();
    NumberAtBounded(bytes, at, 4);
    EntryPath(bytes, minor, strings, index);
    ParseTailExact(bytes, minor, at, e);
    RecordExact(bytes, at, offset, e);
  }

  lemma EntryAtParsed(bytes: Bytes, minor: nat, strings: nat, index: nat, at: nat, offset: nat, e: PolicyEntry)
    requires at == RecordStart(index) && at + RECORD_BYTES <= |bytes| && offset == NumberAt(bytes, at, 4)
    requires GoodEntry(minor, e) && TextAt(bytes, at, RecordText(offset, e)) && TextAt(bytes, strings + offset, e.path)
    ensures ParseEntry(bytes, minor, strings, index) == Ok(e)
  {
    Widths();
    NumberAtBounded(bytes, at, 4);
    RecordExact(bytes, at, offset, e);
    ParseTailExact(bytes, minor, at, e);
    PathOfEntry(bytes, minor, strings, index, e);
  }

  lemma PathOfEntry(bytes: Bytes, minor: nat, strings: nat, index: nat, e: PolicyEntry)
    requires RecordStart(index) + RECORD_BYTES <= |bytes| && PolicyPath(e.path)
    requires RecordNumbers(bytes, RecordStart(index), NumberAt(bytes, RecordStart(index), 4), e)
    requires TextAt(bytes, strings + NumberAt(bytes, RecordStart(index), 4), e.path)
    ensures ParseEntry(bytes, minor, strings, index) == ParseTail(bytes, minor, RecordStart(index), e.path)
  {
    TextAtSlice(bytes, strings + NumberAt(bytes, RecordStart(index), 4), e.path);
  }

  /** A parsed entry's path is the string its record points at. */
  lemma EntryPath(bytes: Bytes, minor: nat, strings: nat, index: nat)
    requires RecordStart(index) + RECORD_BYTES <= |bytes| && ParseEntry(bytes, minor, strings, index).Ok?
    ensures var at := RecordStart(index); var e := ParseEntry(bytes, minor, strings, index).value;
            && PolicyPath(e.path) && NumberAt(bytes, at + 4, 2) == |e.path| && bytes[at + 48..at + 64] == Zeros(16)
            && TextAt(bytes, strings + NumberAt(bytes, at, 4), e.path) && ParseTail(bytes, minor, at, e.path) == Ok(e)
  {
    var at, e := RecordStart(index), ParseEntry(bytes, minor, strings, index).value;
    TextAtSlice(bytes, strings + NumberAt(bytes, at, 4), e.path);
  }

  /** The first entries of a policy, all their records and strings in place. */
  ghost predicate EntriesAt(bytes: Bytes, minor: nat, strings: nat, entries: seq<PolicyEntry>) {
    && TextAt(bytes, HEADER_BYTES, RecordsText(entries)) && TextAt(bytes, strings, PathsText(entries))
    && AllGood(minor, entries) && AscendingPaths(entries)
  }

  lemma EntriesSnoc(bytes: Bytes, minor: nat, strings: nat, entries: seq<PolicyEntry>, e: PolicyEntry,
                    offset: nat, place: nat)
    requires offset == |PathsText(entries)| && place == strings + offset
    ensures EntriesAt(bytes, minor, strings, entries + [e]) <==>
            && EntriesAt(bytes, minor, strings, entries) && GoodEntry(minor, e)
            && (entries != [] ==> Less(entries[|entries| - 1].path, e.path))
            && TextAt(bytes, RecordStart(|entries|), RecordText(offset, e)) && TextAt(bytes, place, e.path)
  {
    RecordsAtSnoc(bytes, entries, e, offset, RecordStart(|entries|));
    PathsAtSnoc(bytes, strings, entries, e, place);
    ListSnoc(minor, entries, e);
  }

  lemma ListSnoc(minor: nat, entries: seq<PolicyEntry>, e: PolicyEntry)
    ensures AllGood(minor, entries + [e]) && AscendingPaths(entries + [e]) <==>
            && AllGood(minor, entries) && AscendingPaths(entries) && GoodEntry(minor, e)
            && (entries != [] ==> Less(entries[|entries| - 1].path, e.path))
  {
    GoodSnoc(minor, entries, e);
    AscendingSnoc(entries, e);
  }

  lemma RecordsAtSnoc(bytes: Bytes, entries: seq<PolicyEntry>, e: PolicyEntry, offset: nat, at: nat)
    requires offset == |PathsText(entries)| && at == RecordStart(|entries|)
    ensures TextAt(bytes, HEADER_BYTES, RecordsText(entries + [e])) <==>
            TextAt(bytes, HEADER_BYTES, RecordsText(entries)) && TextAt(bytes, at, RecordText(offset, e))
  {
    RecordsSnoc(entries, e);
    TextAtParts(bytes, HEADER_BYTES, RecordsText(entries + [e]), RecordsText(entries), RecordText(offset, e), at);
  }

  lemma PathsAtSnoc(bytes: Bytes, strings: nat, entries: seq<PolicyEntry>, e: PolicyEntry, place: nat)
    requires place == strings + |PathsText(entries)|
    ensures TextAt(bytes, strings, PathsText(entries + [e])) <==>
            TextAt(bytes, strings, PathsText(entries)) && TextAt(bytes, place, e.path)
  {
    PathsSnoc(entries, e);
    TextAtParts(bytes, strings, PathsText(entries + [e]), PathsText(entries), e.path, place);
  }

  lemma GoodSnoc(minor: nat, entries: seq<PolicyEntry>, e: PolicyEntry)
    ensures AllGood(minor, entries + [e]) <==> AllGood(minor, entries) && GoodEntry(minor, e)
  {
    var all := entries + [e];
    assert all[|entries|] == e && forall i :: 0 <= i < |entries| ==> all[i] == entries[i];
  }

  lemma AscendingSnoc(entries: seq<PolicyEntry>, e: PolicyEntry)
    ensures AscendingPaths(entries + [e]) <==>
            AscendingPaths(entries) && (entries != [] ==> Less(entries[|entries| - 1].path, e.path))
  {
    var all := entries + [e];
    assert all[|entries|] == e && forall i :: 0 <= i < |entries| ==> all[i] == entries[i];
    if AscendingPaths(all) {
      forall i | 0 < i < |entries| ensures Less(entries[i - 1].path, entries[i].path) {
        assert Less(all[i - 1].path, all[i].path);
      }
      if entries != [] {
        assert Less(all[|entries| - 1].path, all[|entries|].path);
      }
    }
  }

  /** A string area of admitted paths is small. */
  lemma {:induction false} PathsFit(minor: nat, entries: seq<PolicyEntry>)
    requires AllGood(minor, entries)
    ensures |PathsText(entries)| <= MAX_PATH_BYTES * |entries|
  {
    if entries != [] {
      var n := |entries| - 1;
      assert forall i :: 0 <= i < n ==> entries[..n][i] == entries[i];
      PathsFit(minor, entries[..n]);
      assert GoodEntry(minor, entries[n]);
    }
  }

  /** Reading one more entry. */
  lemma ReadStep(bytes: Bytes, minor: nat, strings: nat, front: seq<PolicyEntry>, e: PolicyEntry)
    requires RecordStart(|front| + 1) <= |bytes|
    ensures ReadEntries(bytes, minor, strings, |front| + 1) == Ok(front + [e]) <==>
            && ReadEntries(bytes, minor, strings, |front|) == Ok(front)
            && ParseEntry(bytes, minor, strings, |front|) == Ok(e)
            && (front != [] ==> Less(front[|front| - 1].path, e.path))
            && NumberAt(bytes, RecordStart(|front|), 4) == |PathsText(front)|
  {
    var r := ReadEntries(bytes, minor, strings, |front| + 1);
    if r == Ok(front + [e]) {
      var f := ReadEntries(bytes, minor, strings, |front|).value;
      var x := ParseEntry(bytes, minor, strings, |front|).value;
      assert f + [x] == front + [e];
      assert (f + [x])[..|front|] == f && (front + [e])[..|front|] == front && (f + [x])[|front|] == x
             && (front + [e])[|front|] == e;
    }
  }

  /** One entry is read exactly where its record and its string are. */
  lemma ReadEntryExact(bytes: Bytes, minor: nat, strings: nat, index: nat, offset: nat, place: nat, e: PolicyEntry)
    requires RecordStart(index) + RECORD_BYTES <= |bytes| && offset < 0x1_0000_0000 && place == strings + offset
    ensures ParseEntry(bytes, minor, strings, index) == Ok(e) && NumberAt(bytes, RecordStart(index), 4) == offset <==>
            GoodEntry(minor, e) && TextAt(bytes, RecordStart(index), RecordText(offset, e))
              && TextAt(bytes, place, e.path)
  {
    EntryExact(bytes, minor, strings, index, e);
    if TextAt(bytes, RecordStart(index), RecordText(offset, e)) {
      OffsetExact(bytes, RecordStart(index), offset, e);
    }
  }

  lemma {:induction false} ReadExact(bytes: Bytes, minor: nat, strings: nat, entries: seq<PolicyEntry>)
    requires RecordStart(|entries|) <= |bytes| && |entries| <= MAX_ENTRIES && strings <= |bytes|
    ensures ReadEntries(bytes, minor, strings, |entries|) == Ok(entries) <==> EntriesAt(bytes, minor, strings, entries)
  {
    if entries != [] {
      var n := |entries| - 1;
      var front, e := entries[..n], entries[n];
      assert entries == front + [e];
      ReadExact(bytes, minor, strings, front);
      ReadExactNext(bytes, minor, strings, front, e);
    }
  }

  lemma ReadExactNext(bytes: Bytes, minor: nat, strings: nat, front: seq<PolicyEntry>, e: PolicyEntry)
    requires RecordStart(|front| + 1) <= |bytes| && |front| < MAX_ENTRIES && strings <= |bytes|
    requires ReadEntries(bytes, minor, strings, |front|) == Ok(front) <==> EntriesAt(bytes, minor, strings, front)
    ensures ReadEntries(bytes, minor, strings, |front| + 1) == Ok(front + [e]) <==>
            EntriesAt(bytes, minor, strings, front + [e])
  {
    var all, parsed := ReadEntries(bytes, minor, strings, |front| + 1) == Ok(front + [e]),
                       ParseEntry(bytes, minor, strings, |front|) == Ok(e);
    var read, number := ReadEntries(bytes, minor, strings, |front|) == Ok(front),
                        NumberAt(bytes, RecordStart(|front|), 4) == |PathsText(front)|;
    var at, atFront := EntriesAt(bytes, minor, strings, front + [e]), EntriesAt(bytes, minor, strings, front);
    var good, order := GoodEntry(minor, e), front != [] ==> Less(front[|front| - 1].path, e.path);
    var offset := |PathsText(front)|;
    var place := strings + offset;
    var record, path := TextAt(bytes, RecordStart(|front|), RecordText(offset, e)), TextAt(bytes, place, e.path);
    ReadStep(bytes, minor, strings, front, e);
    EntriesSnoc(bytes, minor, strings, front, e, offset, place);
    if atFront {
      PathsFit(minor, front);
      ReadEntryExact(bytes, minor, strings, |front|, offset, place, e);
    }
    Conclude(all, read, parsed, order, number, at, atFront, good, record && path);
  }

  lemma Conclude(all: bool, front: bool, parsed: bool, order: bool, number: bool, at: bool, atFront: bool,
                 good: bool, texts: bool)
    requires all <==> front && parsed && order && number
    requires at <==> atFront && good && order && texts
    requires (front <==> atFront) && (atFront ==> (parsed && number <==> good && texts))
    ensures all <==> at
  {
  }

  /** The offset in a record's text is the number at its start. */
  lemma OffsetExact(bytes: Bytes, at: nat, offset: nat, e: PolicyEntry)
    requires offset < 0x1_0000_0000 && TextAt(bytes, at, RecordText(offset, e))
    ensures NumberAt(bytes, at, 4) == offset
  {
    RecordFieldsExact(bytes, at, offset, e);
    Widths();
    NumberAtExact(bytes, at, 4, offset);
  }

  // ---- The header ------------------------------------------------------------------------

  ghost predicate HeaderFields(bytes: Bytes, minor: nat, count: nat, stringBytes: nat, generation: Digest) {
    && HEADER_BYTES <= |bytes|
    && TextAt(bytes, 0, MAGIC) && TextAt(bytes, 4, Little(1, 2)) && TextAt(bytes, 6, Little(minor, 2))
    && TextAt(bytes, 8, Little(HEADER_BYTES, 2)) && TextAt(bytes, 10, Little(RECORD_BYTES, 2))
    && TextAt(bytes, 12, Little(count, 2))
    && TextAt(bytes, 14, Little(0, 2)) && TextAt(bytes, 16, Little(StringsOffset(count) + stringBytes, 4))
    && TextAt(bytes, 20, Little(stringBytes, 4)) && TextAt(bytes, 24, generation) && TextAt(bytes, 56, Zeros(8))
  }

  lemma HeaderFieldsExact(bytes: Bytes, minor: nat, count: nat, stringBytes: nat, generation: Digest)
    ensures TextAt(bytes, 0, HeaderText(minor, count, stringBytes, generation)) <==>
            HeaderFields(bytes, minor, count, stringBytes, generation)
  {
    var total := StringsOffset(count) + stringBytes;
    TextAtSplit(bytes, 0, VersionText(minor) + ShapeText(count), SizeText(total, stringBytes, generation));
    TextAtSplit(bytes, 0, VersionText(minor), ShapeText(count));
    TextAtFour(bytes, 0, MAGIC, Little(1, 2), Little(minor, 2), Little(HEADER_BYTES, 2));
    TextAtFour(bytes, 10, [], Little(RECORD_BYTES, 2), Little(count, 2), Little(0, 2));
    TextAtFour(bytes, 16, Little(total, 4), Little(stringBytes, 4), generation, Zeros(8));
  }

  ghost predicate HeaderNumbers(bytes: Bytes, minor: nat, count: nat, stringBytes: nat, generation: Digest) {
    && HEADER_BYTES <= |bytes| && bytes[..4] == MAGIC
    && NumberAt(bytes, 4, 2) == 1 && NumberAt(bytes, 6, 2) == minor && NumberAt(bytes, 8, 2) == HEADER_BYTES
    && NumberAt(bytes, 10, 2) == RECORD_BYTES && NumberAt(bytes, 12, 2) == count && NumberAt(bytes, 14, 2) == 0
    && NumberAt(bytes, 16, 4) == StringsOffset(count) + stringBytes && NumberAt(bytes, 20, 4) == stringBytes
    && bytes[24..56] == generation && bytes[56..64] == Zeros(8)
  }

  lemma HeaderExact(bytes: Bytes, minor: nat, count: nat, stringBytes: nat, generation: Digest)
    requires minor < 0x1_0000 && count < 0x1_0000 && StringsOffset(count) + stringBytes < 0x1_0000_0000
    ensures TextAt(bytes, 0, HeaderText(minor, count, stringBytes, generation)) <==>
            HeaderNumbers(bytes, minor, count, stringBytes, generation)
  {
    HeaderFieldsExact(bytes, minor, count, stringBytes, generation);
    if HEADER_BYTES <= |bytes| {
      ShortExact(bytes, 4, 1);
      ShortExact(bytes, 6, minor);
      ShortExact(bytes, 8, HEADER_BYTES);
      ShortExact(bytes, 10, RECORD_BYTES);
      ShortExact(bytes, 12, count);
      ShortExact(bytes, 14, 0);
      LongExact(bytes, 16, StringsOffset(count) + stringBytes);
      LongExact(bytes, 20, stringBytes);
      TextAtSlice(bytes, 0, MAGIC);
      TextAtSlice(bytes, 24, generation);
      TextAtSlice(bytes, 56, Zeros(8));
      assert bytes[0..4] == bytes[..4];
    }
  }

  lemma ShortExact(bytes: Bytes, at: nat, v: nat)
    requires at + 2 <= |bytes| && v < 0x1_0000
    ensures NumberAt(bytes, at, 2) == v <==> TextAt(bytes, at, Little(v, 2))
  {
    Widths();
    NumberAtExact(bytes, at, 2, v);
  }

  lemma LongExact(bytes: Bytes, at: nat, v: nat)
    requires at + 4 <= |bytes| && v < 0x1_0000_0000
    ensures NumberAt(bytes, at, 4) == v <==> TextAt(bytes, at, Little(v, 4))
  {
    Widths();
    NumberAtExact(bytes, at, 4, v);
  }

  lemma CheckHeaderExact(bytes: Bytes, minor: nat, count: nat, stringBytes: nat, generation: Digest)
    ensures CheckHeader(bytes).None? && NumberAt(bytes, 6, 2) == minor && NumberAt(bytes, 12, 2) == count
            && NumberAt(bytes, 20, 4) == stringBytes && bytes[24..56] == generation
            <==> HeaderNumbers(bytes, minor, count, stringBytes, generation)
                 && |bytes| == StringsOffset(count) + stringBytes
                 && minor <= 2 && 1 <= count <= MAX_ENTRIES && generation != Zeros(32)
  {
  }

  // ---- Whole policies --------------------------------------------------------------------

  /** A policy is parsed exactly when its header and entries are in place. */
  lemma ParsedExact(bytes: Bytes, p: Policy)
    ensures Parsed(bytes) == Ok(p) <==>
            var count, stringBytes := |p.entries|, |PathsText(p.entries)|;
            && HeaderNumbers(bytes, p.minor, count, stringBytes, p.generation)
            && |bytes| == StringsOffset(count) + stringBytes
            && p.minor <= 2 && 1 <= count <= MAX_ENTRIES && p.generation != Zeros(32)
            && EntriesAt(bytes, p.minor, StringsOffset(count), p.entries)
  {
    var count, stringBytes := |p.entries|, |PathsText(p.entries)|;
    CheckHeaderExact(bytes, p.minor, count, stringBytes, p.generation);
    if CheckHeader(bytes).None? && NumberAt(bytes, 12, 2) == count {
      ReadExact(bytes, p.minor, StringsOffset(count), p.entries);
    }
  }

  lemma TextSizes(p: Policy)
    requires Admissible(p)
    ensures |PolicyText(p)| == StringsOffset(|p.entries|) + |PathsText(p.entries)| && |PolicyText(p)| < 0x1_0000_0000
  {
    PathsFit(p.minor, p.entries);
  }

  lemma WholeText(bytes: Bytes, p: Policy)
    requires |bytes| == StringsOffset(|p.entries|) + |PathsText(p.entries)|
    ensures bytes == PolicyText(p) <==>
            && TextAt(bytes, 0, HeaderText(p.minor, |p.entries|, |PathsText(p.entries)|, p.generation))
            && TextAt(bytes, HEADER_BYTES, RecordsText(p.entries))
            && TextAt(bytes, StringsOffset(|p.entries|), PathsText(p.entries))
  {
    var header := HeaderText(p.minor, |p.entries|, |PathsText(p.entries)|, p.generation);
    ThreeParts(bytes, header, RecordsText(p.entries), PathsText(p.entries), HEADER_BYTES, StringsOffset(|p.entries|));
  }

  /** The codec is a bijection: a byte string parses to a policy exactly when it is that policy's encoding. */
  lemma ParseIsInverse(bytes: Bytes, p: Policy)
    ensures Parsed(bytes) == Ok(p) <==> Admissible(p) && bytes == PolicyText(p)
  {
    ParsedExact(bytes, p);
    var count, stringBytes := |p.entries|, |PathsText(p.entries)|;
    if Parsed(bytes) == Ok(p) {
      assert Admissible(p);
      TextSizes(p);
      HeaderExact(bytes, p.minor, count, stringBytes, p.generation);
      WholeText(bytes, p);
    } else if Admissible(p) && bytes == PolicyText(p) {
      TextSizes(p);
      HeaderExact(bytes, p.minor, count, stringBytes, p.generation);
      WholeText(bytes, p);
      assert false;
    }
  }

  /** No policy has two encodings, and no encoding two policies. */
  lemma EncodingIsUnique(a: Bytes, b: Bytes, p: Policy, q: Policy)
    requires Parsed(a) == Ok(p) && Parsed(b) == Ok(q)
    ensures a == b <==> p == q
  {
    ParseIsInverse(a, p);
    ParseIsInverse(b, q);
  }

  // ---- Encoding --------------------------------------------------------------------------

  /** The checks on one entry in `encode_version`, in its order. */
  function CheckEntry(minor: nat, e: PolicyEntry, previous: Option<Bytes>): (r: Option<PolicyError>)
    ensures r.None? <==> GoodEntry(minor, e) && (previous.None? || Less(previous.value, e.path))
  {
    if !PolicyPath(e.path) then Some(BadPolicyPath)
    else if previous.Some? && !Less(previous.value, e.path) then Some(NoncanonicalPathOrder)
    else if e.digest == Zeros(32) then Some(InvalidDigest)
    else if e.abi != 2 || !ProfileAllowed(minor, e.profile, e.path) then Some(InvalidStartupProfile)
    else if !ModesAllowed(e.profile, StreamModes(e)) then Some(InvalidStreamModes)
    else None
  }

  /** Header, records and strings in place, and the rest of the buffer as it was. */
  ghost predicate Laid(buffer: Bytes, header: Bytes, records: Bytes, strings: nat, paths: Bytes,
                       total: nat, was: Bytes) {
    && |buffer| == |was| && total <= |buffer| && buffer[total..] == was[total..]
    && TextAt(buffer, 0, header) && TextAt(buffer, |header|, records) && TextAt(buffer, strings, paths)
  }

  lemma LaidNext(buffer: Bytes, header: Bytes, records: Bytes, record: Bytes, strings: nat, paths: Bytes, path: Bytes,
                 total: nat, was: Bytes,
                 recordAt: nat, pathAt: nat, records': Bytes, paths': Bytes) returns (after: Bytes)
    requires Laid(buffer, header, records, strings, paths, total, was) && records' == records + record
             && paths' == paths + path
    requires recordAt == |header| + |records| && recordAt + |record| <= strings && pathAt == strings + |paths|
             && pathAt + |path| <= total
    ensures after == Overwrite(Overwrite(buffer, recordAt, record), pathAt, path)
    ensures Laid(after, header, records', strings, paths', total, was)
  {
    var middle := Overwrite(buffer, recordAt, record);
    GrowMiddle(buffer, header, records, record, recordAt, strings, paths);
    GrowLast(middle, header, records + record, strings, paths, path, pathAt);
    OverwriteTail(buffer, recordAt, record, total);
    OverwriteTail(middle, pathAt, path, total);
    after := Overwrite(middle, pathAt, path);
  }

  function HeaderOf(p: Policy): (s: Bytes)
    ensures |s| == HEADER_BYTES
  {
    HeaderText(p.minor, |p.entries|, |PathsText(p.entries)|, p.generation)
  }

  function TotalOf(p: Policy): nat { StringsOffset(|p.entries|) + |PathsText(p.entries)| }

  /** The buffer while the first `n` entries have been written. */
  ghost predicate Written(buffer: Bytes, p: Policy, n: nat, was: Bytes) {
    && n <= |p.entries|
    && Laid(buffer, HeaderOf(p), RecordsText(p.entries[..n]), StringsOffset(|p.entries|), PathsText(p.entries[..n]),
            TotalOf(p), was)
    && AllGood(p.minor, p.entries[..n]) && AscendingPaths(p.entries[..n])
  }

  lemma {:induction false} PathsGrow(entries: seq<PolicyEntry>, n: nat)
    requires n <= |entries|
    ensures |PathsText(entries[..n])| <= |PathsText(entries)|
    decreases |entries| - n
  {
    if n < |entries| {
      PathsPrefix(entries, n);
      PathsGrow(entries, n + 1);
    } else {
      assert entries[..n] == entries;
    }
  }

  lemma PathsPrefix(entries: seq<PolicyEntry>, n: nat)
    requires n < |entries|
    ensures PathsText(entries[..n + 1]) == PathsText(entries[..n]) + entries[n].path
  {
    assert entries[..n + 1] == entries[..n] + [entries[n]];
    PathsSnoc(entries[..n], entries[n]);
  }

  lemma TextsNext(p: Policy, n: nat)
    requires n < |p.entries|
    ensures var front, e := p.entries[..n], p.entries[n];
            && RecordsText(p.entries[..n + 1]) == RecordsText(front) + RecordText(|PathsText(front)|, e)
            && PathsText(p.entries[..n + 1]) == PathsText(front) + e.path
            && HEADER_BYTES + |RecordsText(front)| + RECORD_BYTES <= StringsOffset(|p.entries|)
            && StringsOffset(|p.entries|) + |PathsText(front)| + |e.path| <= TotalOf(p)
  {
    assert p.entries[..n + 1] == p.entries[..n] + [p.entries[n]];
    RecordsSnoc(p.entries[..n], p.entries[n]);
    PathsPrefix(p.entries, n);
    PathsGrow(p.entries, n + 1);
  }

  lemma ChecksNext(p: Policy, n: nat)
    requires n < |p.entries| && AllGood(p.minor, p.entries[..n]) && AscendingPaths(p.entries[..n])
    requires CheckEntry(p.minor, p.entries[n], if n == 0 then None else Some(p.entries[n - 1].path)).None?
    ensures AllGood(p.minor, p.entries[..n + 1]) && AscendingPaths(p.entries[..n + 1])
  {
    assert p.entries[..n + 1] == p.entries[..n] + [p.entries[n]];
    GoodSnoc(p.minor, p.entries[..n], p.entries[n]);
    AscendingSnoc(p.entries[..n], p.entries[n]);
  }

  /** Writing a record and a string continues the buffer by one entry. */
  lemma WrittenNext(buffer: Bytes, p: Policy, n: nat, was: Bytes) returns (after: Bytes)
    requires Written(buffer, p, n, was) && n < |p.entries|
    requires CheckEntry(p.minor, p.entries[n], if n == 0 then None else Some(p.entries[n - 1].path)).None?
    ensures var e, offset, strings := p.entries[n], |PathsText(p.entries[..n])|, StringsOffset(|p.entries|);
            && strings + offset + |e.path| <= |buffer| && RecordStart(n) + RECORD_BYTES <= strings
            && after == Overwrite(Overwrite(buffer, RecordStart(n), RecordText(offset, e)), strings + offset, e.path)
    ensures Written(after, p, n + 1, was)
  {
    ChecksNext(p, n);
    var e, offset, strings := p.entries[n], |PathsText(p.entries[..n])|, StringsOffset(|p.entries|);
    after := TextNext(buffer, p, n, was, offset, RecordStart(n), strings + offset, RecordText(offset, e));
  }

  lemma LaidFits(buffer: Bytes, p: Policy, n: nat, was: Bytes)
    requires n <= |p.entries|
    requires Laid(buffer, HeaderOf(p), RecordsText(p.entries[..n]), StringsOffset(|p.entries|),
                  PathsText(p.entries[..n]), TotalOf(p), was)
    ensures TotalOf(p) <= |buffer| && RecordStart(n) == |HeaderOf(p)| + |RecordsText(p.entries[..n])|
  {
  }

  lemma TextNext(buffer: Bytes, p: Policy, n: nat, was: Bytes, offset: nat, recordAt: nat, pathAt: nat, record: Bytes)
    returns (after: Bytes)
    requires n < |p.entries| && offset == |PathsText(p.entries[..n])| && recordAt == RecordStart(n)
    requires pathAt == StringsOffset(|p.entries|) + offset && record == RecordText(offset, p.entries[n])
    requires Laid(buffer, HeaderOf(p), RecordsText(p.entries[..n]), StringsOffset(|p.entries|),
                  PathsText(p.entries[..n]), TotalOf(p), was)
    ensures pathAt + |p.entries[n].path| <= |buffer| && recordAt + RECORD_BYTES <= StringsOffset(|p.entries|)
    ensures after == Overwrite(Overwrite(buffer, recordAt, record), pathAt, p.entries[n].path)
    ensures Laid(after, HeaderOf(p), RecordsText(p.entries[..n + 1]), StringsOffset(|p.entries|),
                 PathsText(p.entries[..n + 1]), TotalOf(p), was)
  {
    TextsNext(p, n);
    LaidFits(buffer, p, n, was);
    after := LaidNext(buffer, HeaderOf(p), RecordsText(p.entries[..n]), record, StringsOffset(|p.entries|),
                      PathsText(p.entries[..n]),
                      p.entries[n].path, TotalOf(p), was, recordAt, pathAt, RecordsText(p.entries[..n + 1]),
                      PathsText(p.entries[..n + 1]));
  }

  lemma WrittenAll(buffer: Bytes, p: Policy, was: Bytes)
    requires Written(buffer, p, |p.entries|, was) && p.minor <= 2 && p.generation != Zeros(32)
             && 1 <= |p.entries| <= MAX_ENTRIES
    ensures Admissible(p) && |PolicyText(p)| <= |buffer| && buffer == PolicyText(p) + was[|PolicyText(p)|..]
  {
    assert p.entries[..|p.entries|] == p.entries;
    TextSizes(p);
    var total := |PolicyText(p)|;
    var bytes := buffer[..total];
    TextAtPrefix(buffer, total, 0, HeaderOf(p));
    TextAtPrefix(buffer, total, HEADER_BYTES, RecordsText(p.entries));
    TextAtPrefix(buffer, total, StringsOffset(|p.entries|), PathsText(p.entries));
    WholeText(bytes, p);
    assert buffer == bytes + buffer[total..];
  }

  /** One entry's record and string go into the buffer. */
  method PutEntry(output: array<Byte>, p: Policy, n: nat, offset: nat, ghost was: Bytes)
    requires n < |p.entries| && Written(output[..], p, n, was) && offset == |PathsText(p.entries[..n])|
    requires CheckEntry(p.minor, p.entries[n], if n == 0 then None else Some(p.entries[n - 1].path)).None?
    modifies output
    ensures Written(output[..], p, n + 1, was)
  {
    var e, place := p.entries[n], StringsOffset(|p.entries|) + offset;
    ghost var next := WrittenNext(output[..], p, n, was);
    PutTwo(output, RecordStart(n), RecordText(offset, e), place, e.path);
    assert output[..] == next;
  }

  method PutTwo(output: array<Byte>, at: nat, text: Bytes, place: nat, more: Bytes)
    requires at + |text| <= output.Length && place + |more| <= output.Length
    modifies output
    ensures output[..] == Overwrite(Overwrite(old(output[..]), at, text), place, more)
  {
    Put(output, at, text);
    Put(output, place, more);
  }

  /** `encode_version`: succeeds exactly for admissible policies that fit, and writes their one encoding. */
  method Encode(p: Policy, output: array<Byte>) returns (r: Result<nat, PolicyError>)
    modifies output
    ensures r.Ok? <==> Admissible(p) && |PolicyText(p)| <= output.Length
    ensures r.Ok? ==> r.value == |PolicyText(p)| && output[..] == PolicyText(p) + old(output[..])[r.value..]
    ensures r.Ok? ==> Parsed(PolicyText(p)) == Ok(p)
  {
    if p.generation == Zeros(32) {
      return Err(InvalidBootGeneration);
    }
    if p.entries == [] || |p.entries| > MAX_ENTRIES {
      return Err(InvalidCount);
    }
    var strings, total := StringsOffset(|p.entries|), TotalOf(p);
    if output.Length < total {
      SizeIsTotal(p);
      return Err(WrongSize);
    }
    ghost var was := output[..];
    Put(output, 0, Zeros(total));
    OverwriteTail(was, 0, Zeros(total), total);
    ghost var cleared := output[..];
    Put(output, 0, HeaderOf(p));
    OverwriteTail(cleared, 0, HeaderOf(p), total);
    OverwriteHits(cleared, 0, HeaderOf(p));
    ghost var image := output[..];
    Unwritten(image, p, was);
    var offset := 0;
    for n := 0 to |p.entries|
      invariant output[..] == image && Written(image, p, n, was) && offset == |PathsText(p.entries[..n])|
    {
      var e := p.entries[n];
      var wrong := CheckEntry(p.minor, e, if n == 0 then None else Some(p.entries[n - 1].path));
      if wrong.Some? {
        RefusedEntry(p, n);
        return Err(wrong.value);
      }
      PathsPrefix(p.entries, n);
      PutEntry(output, p, n, offset, was);
      image := output[..];
      offset := offset + |e.path|;
    }
    assert GoodEntry(p.minor, p.entries[..|p.entries|][0]);
    WrittenAll(image, p, was);
    ParseIsInverse(PolicyText(p), p);
    var check := Parse(output[..total]);
    SizeIsTotal(p);
    assert output[..total] == PolicyText(p);
    match check {
      case Err(error) => return Err(error);
      case Ok(_) => return Ok(total);
    }
  }

  lemma SizeIsTotal(p: Policy)
    ensures |PolicyText(p)| == TotalOf(p)
  {
  }

  lemma Unwritten(buffer: Bytes, p: Policy, was: Bytes)
    requires |buffer| == |was| && TotalOf(p) <= |buffer| && buffer[TotalOf(p)..] == was[TotalOf(p)..]
             && TextAt(buffer, 0, HeaderOf(p))
    ensures Written(buffer, p, 0, was)
  {
    assert p.entries[..0] == [];
  }

  lemma RefusedEntry(p: Policy, n: nat)
    requires n < |p.entries|
             && CheckEntry(p.minor, p.entries[n], if n == 0 then None else Some(p.entries[n - 1].path)).Some?
    ensures !Admissible(p)
  {
    assert AllGood(p.minor, p.entries) ==> GoodEntry(p.minor, p.entries[n]);
    assert AscendingPaths(p.entries) && n > 0 ==> Less(p.entries[n - 1].path, p.entries[n].path);
  }

  // ---- Lookup ----------------------------------------------------------------------------

  /** In an accepted policy every record parses to its entry. */
  lemma {:induction false} EntryOfPolicy(bytes: Bytes, minor: nat, strings: nat, n: nat, index: nat)
    requires index < n && RecordStart(n) <= |bytes| && ReadEntries(bytes, minor, strings, n).Ok?
    ensures ParseEntry(bytes, minor, strings, index) == Ok(ReadEntries(bytes, minor, strings, n).value[index])
    decreases n
  {
    if index < n - 1 {
      EntryOfPolicy(bytes, minor, strings, n - 1, index);
    }
  }

  lemma PolicyEntryAt(bytes: Bytes, p: Policy, index: nat)
    requires Parsed(bytes) == Ok(p) && index < |p.entries|
    ensures RecordStart(index) + RECORD_BYTES <= |bytes|
    ensures ParseEntry(bytes, p.minor, StringsOffset(|p.entries|), index) == Ok(p.entries[index])
  {
    EntryOfPolicy(bytes, p.minor, StringsOffset(|p.entries|), |p.entries|, index);
  }

  lemma {:induction false} PathsDistinct(entries: seq<PolicyEntry>, i: nat, j: nat)
    requires AscendingPaths(entries) && i < j < |entries|
    ensures Less(entries[i].path, entries[j].path)
    decreases j - i
  {
    assert Less(entries[j - 1].path, entries[j].path);
    if i < j - 1 {
      PathsDistinct(entries, i, j - 1);
      LessTransitive(entries[i].path, entries[j - 1].path, entries[j].path);
    }
  }

  /** `find`: the one entry of an accepted policy with the given path. */
  method Find(bytes: Bytes, p: Policy, path: Bytes) returns (r: Option<PolicyEntry>)
    requires Parsed(bytes) == Ok(p)
    ensures r.Some? ==> r.value in p.entries && r.value.path == path
    ensures r.None? ==> forall e :: e in p.entries ==> e.path != path
    ensures forall e :: e in p.entries && e.path == path ==> r == Some(e)
  {
    ParseIsInverse(bytes, p);
    var strings := StringsOffset(|p.entries|);
    for index := 0 to |p.entries|
      invariant forall i :: 0 <= i < index ==> p.entries[i].path != path
    {
      PolicyEntryAt(bytes, p, index);
      var parsed := ParseEntry(bytes, p.minor, strings, index);
      if parsed.Ok? && parsed.value.path == path {
        forall j | 0 <= j < |p.entries| && p.entries[j].path == path ensures j == index {
          if index < j {
            PathsDistinct(p.entries, index, j);
            LessTotal(p.entries[index].path, p.entries[j].path);
          }
        }
        return Some(parsed.value);
      }
    }
    return None;
  }
}
