/** The archive writer: collects files, sorts them and emits the canonical archive. */
module ArchiveBuilder {
  import opened Outcome
  import opened ByteStrings
  import opened ArchivePaths
  import opened ArchiveRecords
  import opened BootArchive
  import opened Sorting

  datatype BuildError = UnusablePath | NameTooLong | RecordLimit | DuplicatePath | OutputTooLarge

  // ---- Order of entries ------------------------------------------------------------------

  predicate NotAfter(a: Entry, b: Entry) { !Less(b.name, a.name) }

  lemma NameOrder()
    ensures TotalOrder(NotAfter)
  {
    forall x: Entry, y: Entry ensures NotAfter(x, y) || NotAfter(y, x) {
      LessTotal(x.name, y.name);
    }
    forall x: Entry, y: Entry, z: Entry | NotAfter(x, y) && NotAfter(y, z) ensures NotAfter(x, z) {
      LessTotal(x.name, y.name);
      LessTotal(y.name, z.name);
      LessTotal(x.name, z.name);
      if Less(z.name, x.name) {
        if x.name != y.name && y.name != z.name {
          LessTransitive(x.name, y.name, z.name);
        }
      }
    }
  }

  /** No two neighbours share a name. */
  ghost predicate NoTwins(entries: seq<Entry>) {
    forall i :: 0 < i < |entries| ==> entries[i - 1].name != entries[i].name
  }

  /** A list sorted by name without equal neighbours is strictly ascending. */
  lemma {:induction false} SortedAscends(previous: Option<Bytes>, entries: seq<Entry>)
    requires Sorted(entries, NotAfter) && NoTwins(entries)
    requires previous.Some? && entries != [] ==> Less(previous.value, entries[0].name)
    ensures Ascending(previous, entries)
    decreases |entries|
  {
    if |entries| > 1 {
      LessTotal(entries[0].name, entries[1].name);
      assert NotAfter(entries[0], entries[1]) && entries[1 - 1].name != entries[1].name;
      forall i | 0 < i < |entries[1..]| ensures entries[1..][i - 1].name != entries[1..][i].name {
        assert entries[i + 1 - 1].name != entries[i + 1].name;
      }
      SortedAscends(Some(entries[0].name), entries[1..]);
    }
  }

  lemma AscendingIsSorted(entries: seq<Entry>)
    requires Ascending(None, entries)
    ensures Sorted(entries, NotAfter) && NoTwins(entries)
  {
    forall i, j | 0 <= i < j < |entries| ensures NotAfter(entries[i], entries[j]) && entries[i].name != entries[j].name
    {
      AscendingPair(None, entries, i, j);
      LessTotal(entries[i].name, entries[j].name);
    }
  }

  /** There is one ascending arrangement at most, and every sorted arrangement is it. */
  lemma AscendingIsUnique(a: seq<Entry>, b: seq<Entry>)
    requires Ascending(None, a) && Sorted(b, NotAfter) && Permutation(a, b)
    ensures a == b
  {
    NameOrder();
    AscendingIsSorted(a);
    AscendingDistinct(None, a);
    forall x, y | x in a && y in a && NotAfter(x, y) && NotAfter(y, x) ensures x == y {
      LessTotal(x.name, y.name);
      var i :| 0 <= i < |a| && a[i] == x;
      var j :| 0 <= j < |a| && a[j] == y;
      assert i == j;
    }
    SortedUnique(a, b, NotAfter);
  }

  // ---- Sizes -----------------------------------------------------------------------------

  /** `record_size`: nothing when a length does not fit its 32-bit field. */
  function CheckedSize(e: Entry): (r: Option<nat>)
    ensures r.Some? ==> r.value == |EntryText(e)|
    ensures r.None? ==> |EntryText(e)| > MAX_ARCHIVE_BYTES
  {
    if |e.name| + 1 >= U32 || |e.data| >= U32 then None else Some(RecordSize(|e.name|, |e.data|))
  }

  lemma {:induction false} RecordsSnoc(entries: seq<Entry>, n: nat)
    requires n < |entries|
    ensures Records(entries[..n + 1]) == Records(entries[..n]) + EntryText(entries[n])
    decreases n
  {
    var longer, shorter := entries[..n + 1], entries[..n];
    if n > 0 {
      RecordsSnoc(entries[1..], n - 1);
      assert longer[1..] == entries[1..][..n] && shorter[1..] == entries[1..][..n - 1];
      Regroup(EntryText(entries[0]), Records(shorter[1..]), EntryText(entries[n]));
    } else {
      assert longer[1..] == [] && shorter == [];
      assert EntryText(entries[0]) + Records([]) == EntryText(entries[0]);
    }
  }

  lemma {:induction false} RecordsGrow(entries: seq<Entry>, n: nat)
    requires n <= |entries|
    ensures |Records(entries[..n])| <= |Records(entries)|
    decreases |entries| - n
  {
    if n < |entries| {
      RecordsSnoc(entries, n);
      RecordsGrow(entries, n + 1);
    } else {
      assert entries[..n] == entries;
    }
  }

  // ---- Writing ---------------------------------------------------------------------------

  /** `write_record`: appends one record to an output that ends on a record boundary. */
  method WriteRecord(output: Bytes, name: Bytes, data: Bytes, mode: nat, nlink: nat) returns (r: Bytes)
    requires |output| % 4 == 0 && |name| + 1 < U32 && |data| < U32 && mode < U32 && nlink < U32
    ensures r == output + TextOf(FieldsOf(mode, nlink, |data|, |name| + 1), name, data)
    ensures |r| % 4 == 0
  {
    var header := WriteHeader(FieldsOf(mode, nlink, |data|, |name| + 1));
    r := output + header + name + [0];
    var first := Padding(|r|);
    PaddingShifts(|output|, HEADER_SIZE + |name| + 1);
    r := r + Zeros(first) + data;
    var second := Padding(|r|);
    RecordSizeAligned(|output|, |name|, |data|);
    PaddingAligns(HEADER_SIZE + |name| + 1);
    SumAligned(|output|, HEADER_SIZE + |name| + 1 + first);
    PaddingShifts(|output| + HEADER_SIZE + |name| + 1 + first, |data|);
    r := r + Zeros(second);
    RecordParts(output, header, name, data);
  }

  lemma RecordParts(output: Bytes, header: Bytes, name: Bytes, data: Bytes)
    ensures var first, second := Zeros(Padding(HEADER_SIZE + |name| + 1)), Zeros(Padding(|data|));
            output + header + name + [0] + first + data + second == output + (header + Body(name, data))
  {
  }

  /** The header array, filled field by field. */
  method WriteHeader(fields: seq<nat>) returns (header: Bytes)
    requires |fields| == 13 && Fit(fields)
    ensures header == MAGIC + Spell(fields)
  {
    var buffer := new Byte[HEADER_SIZE](_ => 48);
    for i := 0 to 6
      invariant buffer[..i] == MAGIC[..i]
    {
      buffer[i] := MAGIC[i];
    }
    assert MAGIC[..6] == MAGIC && fields[..0] == [];
    for k := 0 to 13
      invariant buffer[..6 + 8 * k] == MAGIC + Spell(fields[..k])
    {
      ghost var was := buffer[..6 + 8 * k];
      WriteHex(buffer, 6 + 8 * k, fields[k]);
      assert buffer[..6 + 8 * k + 8] == was + Hex(fields[k], 8);
      SpellSnoc(fields, k);
    }
    assert fields[..13] == fields && buffer[..] == buffer[..6 + 8 * 13];
    header := buffer[..];
  }

  lemma SpellSnoc(fields: seq<nat>, k: nat)
    requires k < |fields|
    ensures MAGIC + Spell(fields[..k + 1]) == (MAGIC + Spell(fields[..k])) + Hex(fields[k], 8)
  {
    assert fields[..k + 1][..k] == fields[..k];
    Regroup(MAGIC, Spell(fields[..k]), Hex(fields[k], 8));
  }

  // ---- The builder -----------------------------------------------------------------------

  /** What a set of files, in whatever order they were added, is built into. */
  ghost predicate BuiltFrom(entries: seq<Entry>, sorted: seq<Entry>) {
    Permutation(sorted, entries) && Ascending(None, sorted) && |ArchiveText(sorted)| <= MAX_ARCHIVE_BYTES
  }

  class Builder {
    var entries: seq<Entry>

    ghost predicate Valid()
      reads this
    {
      |entries| <= MAX_RECORDS && forall i :: 0 <= i < |entries| ==> ValidPath(entries[i].name)
    }

    constructor ()
      ensures Valid() && entries == []
    {
      entries := [];
    }

    /** `add`: accepts every admitted name up to the record limit. */
    method Add(path: Bytes, data: Bytes, executable: bool) returns (error: Option<BuildError>)
      requires Valid()
      modifies this
      ensures Valid()
      ensures error.None? <==> |old(entries)| < MAX_RECORDS && ValidPath(path)
      ensures entries == if error.None? then old(entries) + [Entry(path, data, executable)] else old(entries)
      ensures error == Some(RecordLimit) <==> |old(entries)| == MAX_RECORDS
      ensures error == Some(NameTooLong) <==> |old(entries)| < MAX_RECORDS && |path| >= MAX_ENCODED_NAME_BYTES
    {
      if |entries| == MAX_RECORDS {
        return Some(RecordLimit);
      }
      if |path| + 1 > MAX_ENCODED_NAME_BYTES {
        return Some(NameTooLong);
      }
      var bad := ValidateArchivePath(path);
      if bad.Some? {
        return Some(UnusablePath);
      }
      entries := entries + [Entry(path, data, executable)];
      return None;
    }

    /** `build`: succeeds exactly when the files have distinct names and fit, and emits their canonical text. */
    method Build() returns (r: Result<Bytes, BuildError>, ghost sorted: seq<Entry>)
      requires Valid()
      ensures r.Ok? ==> BuiltFrom(entries, sorted) && Admitted(sorted) && r.value == ArchiveText(sorted)
      ensures r.Ok? ==> Holds(r.value, sorted)
      ensures r.Err? ==> forall es :: !BuiltFrom(entries, es)
      ensures r.Err? ==> r.error == DuplicatePath || r.error == OutputTooLarge
    {
      NameOrder();
      var order := Sort(entries, NotAfter);
      sorted := order;
      var error := CheckTotal(order);
      if error.Some? {
        forall es | Permutation(es, entries) && Ascending(None, es) ensures es == order && NoTwins(order) {
          AscendingIsUnique(es, order);
          AscendingIsSorted(es);
        }
        return Err(error.value), sorted;
      }
      SortedAscends(None, order);
      MembersGood(entries, order);
      var output := Emit(order);
      TextHolds(order);
      r := Ok(output);
    }
  }

  /** The canonical text holds its entries. */
  lemma TextHolds(entries: seq<Entry>)
    requires Admitted(entries) && |ArchiveText(entries)| <= MAX_ARCHIVE_BYTES
    ensures Holds(ArchiveText(entries), entries)
  {
    TextIsAccepted(entries);
    AcceptedHolds(ArchiveText(entries), entries);
  }

  lemma MembersGood(entries: seq<Entry>, sorted: seq<Entry>)
    requires Permutation(sorted, entries) && |sorted| == |entries| && |entries| <= MAX_RECORDS
    requires forall i :: 0 <= i < |entries| ==> ValidPath(entries[i].name)
    requires forall i :: 0 <= i < |sorted| ==> |sorted[i].data| < U32
    requires Ascending(None, sorted)
    ensures Admitted(sorted)
  {
    forall i | 0 <= i < |sorted| ensures GoodEntry(sorted[i]) {
      PermutationMember(sorted, entries, sorted[i]);
      assert sorted[i] in sorted;
    }
  }

  /** The first pass of `build`: no equal neighbours, and the running total within the limit. */
  method CheckTotal(sorted: seq<Entry>) returns (error: Option<BuildError>)
    ensures error.None? <==> NoTwins(sorted) && |ArchiveText(sorted)| <= MAX_ARCHIVE_BYTES
    ensures error.None? ==> forall i :: 0 <= i < |sorted| ==> |sorted[i].data| < U32
    ensures error.Some? ==> (error.value == DuplicatePath && !NoTwins(sorted))
                            || (error.value == OutputTooLarge && |ArchiveText(sorted)| > MAX_ARCHIVE_BYTES)
  {
    var total := |TrailerText()|;
    TrailerFits();
    for i := 0 to |sorted|
      invariant total == |ArchiveText(sorted[..i])| && total <= MAX_ARCHIVE_BYTES
      invariant forall j :: 0 < j < i ==> sorted[j - 1].name != sorted[j].name
      invariant forall j :: 0 <= j < i ==> |sorted[j].data| < U32
    {
      if i > 0 && sorted[i - 1].name == sorted[i].name {
        return Some(DuplicatePath);
      }
      RecordsSnoc(sorted, i);
      RecordsGrow(sorted, i + 1);
      var size := CheckedSize(sorted[i]);
      if size.None? {
        return Some(OutputTooLarge);
      }
      total := total + size.value;
      if total > MAX_ARCHIVE_BYTES {
        return Some(OutputTooLarge);
      }
    }
    assert sorted[..|sorted|] == sorted;
    return None;
  }

  lemma TrailerFits()
    ensures |TrailerText()| <= MAX_ARCHIVE_BYTES
  {
  }

  /** The second pass of `build`. */
  method Emit(sorted: seq<Entry>) returns (output: Bytes)
    requires Admitted(sorted)
    ensures output == ArchiveText(sorted)
  {
    output := [];
    for i := 0 to |sorted|
      invariant output == Records(sorted[..i]) && |output| % 4 == 0
    {
      var e := sorted[i];
      assert GoodEntry(e);
      RecordsSnoc(sorted, i);
      output := EmitEntry(output, e);
    }
    assert sorted[..|sorted|] == sorted;
    output := WriteRecord(output, TRAILER_NAME, [], 0, 0);
  }

  /** One turn of that pass. */
  method EmitEntry(output: Bytes, e: Entry) returns (longer: Bytes)
    requires GoodEntry(e) && |output| % 4 == 0
    ensures longer == output + EntryText(e) && |longer| % 4 == 0
  {
    longer := WriteRecord(output, e.name, e.data, ModeOf(e.executable), 1);
  }

  // ---- What building and reading promise together ----------------------------------------

  /** Whatever order the files were added in, building gives the same archive. */
  lemma OrderIsIrrelevant(a: seq<Entry>, b: seq<Entry>, s: seq<Entry>, t: seq<Entry>)
    requires Permutation(a, b) && BuiltFrom(a, s) && BuiltFrom(b, t)
    ensures s == t && ArchiveText(s) == ArchiveText(t)
  {
    AscendingIsSorted(t);
    AscendingIsUnique(s, t);
  }

  /** A built archive is accepted and read back as exactly the files that were added, in byte order. */
  lemma BuildRoundTrip(entries: seq<Entry>, sorted: seq<Entry>)
    requires BuiltFrom(entries, sorted) && Admitted(sorted)
    ensures Verdict(ArchiveText(sorted)) == Ok(sorted)
    ensures forall e :: e in entries <==> e in sorted
  {
    TextIsAccepted(sorted);
    forall e ensures e in entries <==> e in sorted {
      PermutationMember(sorted, entries, e);
    }
  }

  /** Rebuilding from the entries of any accepted archive succeeds and gives its canonical form. */
  lemma RebuildIsCanonical(bytes: Bytes, entries: seq<Entry>)
    requires Verdict(bytes) == Ok(entries)
    ensures |entries| <= MAX_RECORDS && forall i :: 0 <= i < |entries| ==> ValidPath(entries[i].name)
    ensures BuiltFrom(entries, entries) && SameButDigits(bytes, ArchiveText(entries), entries)
    ensures forall sorted :: BuiltFrom(entries, sorted) ==> sorted == entries
  {
    AcceptedIsCanonical(bytes, entries);
    forall i | 0 <= i < |entries| ensures ValidPath(entries[i].name) {
      assert GoodEntry(entries[i]);
    }
    forall sorted | BuiltFrom(entries, sorted) ensures sorted == entries {
      AscendingIsSorted(entries);
      AscendingIsUnique(sorted, entries);
    }
  }
}
