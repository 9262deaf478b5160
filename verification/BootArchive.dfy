/** The archive reader: validation of whole archives, iteration and lookup. */
module BootArchive {
  import opened Outcome
  import opened ByteStrings
  import opened ArchivePaths
  import opened ArchiveRecords
  import opened ArchiveLayout

  const MAX_ARCHIVE_BYTES: nat := 32 * 1024 * 1024
  const MAX_RECORDS: nat := 4096

  // ---- Whole archives --------------------------------------------------------------------

  function Records(entries: seq<Entry>): (s: Bytes) {
    if entries == [] then [] else EntryText(entries[0]) + Records(entries[1..])
  }

  /** The canonical text of a list of entries. */
  function ArchiveText(entries: seq<Entry>): (s: Bytes) {
    Records(entries) + TrailerText()
  }

  /** From `start` to its end, the archive spells the records of `entries` and the trailer. */
  ghost predicate SpelledFrom(bytes: Bytes, start: nat, entries: seq<Entry>)
    decreases |entries|
  {
    if entries == [] then Spelled(bytes, TrailerAt(start)) && TrailerAt(start).next == |bytes|
    else Spelled(bytes, EntryAt(entries[0], start)) && SpelledFrom(bytes, EntryAt(entries[0], start).next, entries[1..])
  }

  predicate GoodEntry(e: Entry) { ValidPath(e.name) && |e.data| < U32 }

  /** Strictly increasing names after `previous`. */
  ghost predicate Ascending(previous: Option<Bytes>, entries: seq<Entry>)
    decreases |entries|
  {
    entries == [] ||
    ((previous.None? || Less(previous.value, entries[0].name)) && Ascending(Some(entries[0].name), entries[1..]))
  }

  ghost predicate AllGood(entries: seq<Entry>) { forall i :: 0 <= i < |entries| ==> GoodEntry(entries[i]) }

  /** The entry lists an archive may hold. */
  ghost predicate Admitted(entries: seq<Entry>) {
    AllGood(entries) && Ascending(None, entries) && |entries| <= MAX_RECORDS
  }

  // ---- Validation ------------------------------------------------------------------------

  function EntryOf(r: Record): Entry { Entry(r.name, r.data, r.executable) }

  /** The checks of one turn of the validation loop. */
  function CheckRecord(bytes: Bytes, r: Record, previous: Option<Bytes>, count: nat): (e: Option<ParseError>) {
    if !r.isTrailer && count + 1 > MAX_RECORDS then Some(TooManyRecords(r.start))
    else if r.isTrailer then if r.next != |bytes| then Some(TrailingBytes(r.next)) else None
    else if previous.Some? && r.name == previous.value then Some(DuplicateName(r.start))
    else if previous.Some? && Less(r.name, previous.value) then Some(UnsortedName(r.start))
    else None
  }

  /** The entries from `cursor` on, if the rest of the archive is valid. */
  function Scan(bytes: Bytes, cursor: nat, previous: Option<Bytes>, count: nat): (r: Result<seq<Entry>, ParseError>)
    decreases |bytes| - cursor
  {
    var record :- ParseRecord(bytes, cursor);
    var wrong := CheckRecord(bytes, record, previous, count);
    if wrong.Some? then Err(wrong.value)
    else if record.isTrailer then Ok([])
    else
      var rest :- Scan(bytes, record.next, Some(record.name), count + 1);
      Ok([EntryOf(record)] + rest)
  }

  function TrailerAt(start: nat): Record {
    Record(start, start + RecordSize(|TRAILER_NAME|, 0), TRAILER_NAME, [], false, true)
  }

  function EntryAt(e: Entry, start: nat): Record {
    Record(start, start + RecordSize(|e.name|, |e.data|), e.name, e.data, e.executable, false)
  }

  /** At a record boundary the parser reads an entry exactly where that entry is spelled. */
  lemma EntryExact(bytes: Bytes, start: nat, e: Entry)
    requires start % 4 == 0
    ensures ParseRecord(bytes, start) == Ok(EntryAt(e, start)) <==> GoodEntry(e) && Spelled(bytes, EntryAt(e, start))
  {
    ParseExact(bytes, start, EntryAt(e, start));
  }

  lemma TrailerExact(bytes: Bytes, start: nat)
    requires start % 4 == 0
    ensures ParseRecord(bytes, start) == Ok(TrailerAt(start)) <==> Spelled(bytes, TrailerAt(start))
  {
    ParseExact(bytes, start, TrailerAt(start));
  }

  lemma ParsedKind(bytes: Bytes, start: nat)
    requires start % 4 == 0 && ParseRecord(bytes, start).Ok?
    ensures var r := ParseRecord(bytes, start).value;
            r.next % 4 == 0 && if r.isTrailer then r == TrailerAt(start) else r == EntryAt(EntryOf(r), start)
  {
    ParsedIsSpelled(bytes, start);
    GoodKind(ParseRecord(bytes, start).value, start);
  }

  lemma GoodKind(r: Record, start: nat)
    requires start % 4 == 0 && GoodRecord(r) && r.start == start
    ensures r.next % 4 == 0 && if r.isTrailer then r == TrailerAt(start) else r == EntryAt(EntryOf(r), start)
  {
    RecordSizeAligned(start, |r.name|, |r.data|);
  }

  /** The lists that can follow `previous` after `count` records. */
  ghost predicate Continues(previous: Option<Bytes>, count: nat, entries: seq<Entry>) {
    AllGood(entries) && Ascending(previous, entries) && count + |entries| <= MAX_RECORDS
  }

  lemma ContinuesStep(previous: Option<Bytes>, count: nat, entries: seq<Entry>)
    requires entries != []
    ensures Continues(previous, count, entries) <==>
            && GoodEntry(entries[0]) && (previous.None? || Less(previous.value, entries[0].name))
            && Continues(Some(entries[0].name), count + 1, entries[1..])
  {
    if AllGood(entries[1..]) && GoodEntry(entries[0]) {
      forall i | 0 <= i < |entries| ensures GoodEntry(entries[i]) {
        assert i > 0 ==> entries[1..][i - 1] == entries[i];
      }
    }
  }

  /** One turn of the validation that reads an entry. */
  lemma ScanEntry(bytes: Bytes, cursor: nat, previous: Option<Bytes>, count: nat, r: Record)
    requires ParseRecord(bytes, cursor) == Ok(r) && !r.isTrailer
    ensures var wrong := CheckRecord(bytes, r, previous, count);
            var rest := Scan(bytes, r.next, Some(r.name), count + 1);
            Scan(bytes, cursor, previous, count) ==
              if wrong.Some? then Err(wrong.value) else if rest.Err? then rest else Ok([EntryOf(r)] + rest.value)
  {
  }

  lemma ScanTrailer(bytes: Bytes, cursor: nat, previous: Option<Bytes>, count: nat)
    requires cursor % 4 == 0 && Spelled(bytes, TrailerAt(cursor)) && TrailerAt(cursor).next == |bytes|
    ensures Scan(bytes, cursor, previous, count) == Ok([])
  {
    TrailerExact(bytes, cursor);
  }

  lemma NextAligned(cursor: nat, e: Entry)
    requires cursor % 4 == 0
    ensures EntryAt(e, cursor).next % 4 == 0
  {
    RecordSizeAligned(cursor, |e.name|, |e.data|);
  }

  lemma {:induction false} ScanSound(bytes: Bytes, cursor: nat, previous: Option<Bytes>, count: nat)
    requires cursor % 4 == 0 && count <= MAX_RECORDS && Scan(bytes, cursor, previous, count).Ok?
    ensures SpelledFrom(bytes, cursor, Scan(bytes, cursor, previous, count).value)
    ensures Continues(previous, count, Scan(bytes, cursor, previous, count).value)
    decreases |bytes| - cursor
  {
    var next := StepSound(bytes, cursor, previous, count);
    if next.Some? {
      var r := next.value;
      ScanSound(bytes, r.next, Some(r.name), count + 1);
      ScannedEntry(bytes, cursor, previous, count, r, Scan(bytes, r.next, Some(r.name), count + 1).value);
    }
  }

  /** A successful validation has read the trailer, or an entry and a successfully validated rest. */
  lemma StepSound(bytes: Bytes, cursor: nat, previous: Option<Bytes>, count: nat) returns (next: Option<Record>)
    requires cursor % 4 == 0 && count <= MAX_RECORDS && Scan(bytes, cursor, previous, count).Ok?
    ensures next.None? ==> SpelledFrom(bytes, cursor, Scan(bytes, cursor, previous, count).value)
    ensures next.None? ==> Continues(previous, count, Scan(bytes, cursor, previous, count).value)
    ensures next.Some? ==> cursor < next.value.next <= |bytes| && next.value.next % 4 == 0 && count < MAX_RECORDS
    ensures next.Some? ==>
              ParseRecord(bytes, cursor) == Ok(next.value) && next.value == EntryAt(EntryOf(next.value), cursor)
    ensures next.Some? ==> CheckRecord(bytes, next.value, previous, count).None?
    ensures next.Some? ==> var rest := Scan(bytes, next.value.next, Some(next.value.name), count + 1);
      rest.Ok? && Scan(bytes, cursor, previous, count) == Ok([EntryOf(next.value)] + rest.value)
  {
    ParsedKind(bytes, cursor);
    var r := ParseRecord(bytes, cursor).value;
    next := None;
    if r.isTrailer {
      TrailerExact(bytes, cursor);
    } else {
      next := Some(r);
      ScanEntry(bytes, cursor, previous, count, r);
    }
  }

  lemma ScannedEntry(bytes: Bytes, cursor: nat, previous: Option<Bytes>, count: nat, r: Record, rest: seq<Entry>)
    requires cursor % 4 == 0 && ParseRecord(bytes, cursor) == Ok(r) && r == EntryAt(EntryOf(r), cursor)
    requires CheckRecord(bytes, r, previous, count).None?
    requires SpelledFrom(bytes, r.next, rest) && Continues(Some(r.name), count + 1, rest)
    ensures SpelledFrom(bytes, cursor, [EntryOf(r)] + rest) && Continues(previous, count, [EntryOf(r)] + rest)
  {
    var entries := [EntryOf(r)] + rest;
    assert entries[0] == EntryOf(r) && entries[1..] == rest;
    EntryExact(bytes, cursor, entries[0]);
    ContinuesStep(previous, count, entries);
    if previous.Some? {
      LessTotal(previous.value, r.name);
    }
  }

  lemma {:induction false} ScanComplete(bytes: Bytes, cursor: nat, previous: Option<Bytes>, count: nat,
                                        entries: seq<Entry>)
    requires cursor % 4 == 0 && SpelledFrom(bytes, cursor, entries) && Continues(previous, count, entries)
    ensures Scan(bytes, cursor, previous, count) == Ok(entries)
    decreases |entries|
  {
    if entries == [] {
      ScanTrailer(bytes, cursor, previous, count);
    } else {
      var next, name := EntryAt(entries[0], cursor).next, entries[0].name;
      StepComplete(bytes, cursor, previous, count, entries, next, name);
      ScanComplete(bytes, next, Some(name), count + 1, entries[1..]);
    }
  }

  /** Validating the rest validates the whole. */
  lemma StepComplete(bytes: Bytes, cursor: nat, previous: Option<Bytes>, count: nat, entries: seq<Entry>,
                     next: nat, name: Bytes)
    requires cursor % 4 == 0 && entries != [] && SpelledFrom(bytes, cursor, entries)
             && Continues(previous, count, entries)
    requires next == EntryAt(entries[0], cursor).next && name == entries[0].name
    ensures next % 4 == 0 && SpelledFrom(bytes, next, entries[1..]) && Continues(Some(name), count + 1, entries[1..])
    ensures Scan(bytes, next, Some(name), count + 1) == Ok(entries[1..]) ==>
              Scan(bytes, cursor, previous, count) == Ok(entries)
  {
    var r := EntryAt(entries[0], cursor);
    SpelledEntry(bytes, cursor, previous, count, entries);
    ScanEntry(bytes, cursor, previous, count, r);
    assert entries == [EntryOf(r)] + entries[1..];
  }

  lemma SpelledEntry(bytes: Bytes, cursor: nat, previous: Option<Bytes>, count: nat, entries: seq<Entry>)
    requires cursor % 4 == 0 && entries != [] && SpelledFrom(bytes, cursor, entries)
             && Continues(previous, count, entries)
    ensures var r := EntryAt(entries[0], cursor);
            && ParseRecord(bytes, cursor) == Ok(r) && CheckRecord(bytes, r, previous, count).None? && r.next % 4 == 0
            && SpelledFrom(bytes, r.next, entries[1..]) && Continues(Some(r.name), count + 1, entries[1..])
  {
    ContinuesStep(previous, count, entries);
    EntryExact(bytes, cursor, entries[0]);
    NextAligned(cursor, entries[0]);
    if previous.Some? {
      LessTotal(previous.value, entries[0].name);
    }
  }

  /** What validation says about an archive. */
  function Verdict(bytes: Bytes): (r: Result<seq<Entry>, ParseError>) {
    if |bytes| > MAX_ARCHIVE_BYTES then Err(ArchiveTooLarge(MAX_ARCHIVE_BYTES)) else Scan(bytes, 0, None, 0)
  }

  /** An archive is accepted exactly when it spells an admitted list, and it then holds that list. */
  lemma AcceptedExactly(bytes: Bytes, entries: seq<Entry>)
    ensures Verdict(bytes) == Ok(entries) <==>
            |bytes| <= MAX_ARCHIVE_BYTES && Admitted(entries) && SpelledFrom(bytes, 0, entries)
  {
    if Scan(bytes, 0, None, 0) == Ok(entries) {
      ScanSound(bytes, 0, None, 0);
    } else if Admitted(entries) && SpelledFrom(bytes, 0, entries) {
      ScanComplete(bytes, 0, None, 0, entries);
    }
  }

  lemma EntryLaid(bytes: Bytes, start: nat, e: Entry)
    requires GoodEntry(e)
    ensures FileAt(bytes, start, e) <==> Spelled(bytes, EntryAt(e, start))
    ensures EntryAt(e, start).next == RecordEnd(start, |e.name|, |e.data|)
  {
    FileExact(bytes, start, e);
    SizeIsUp4(start, |e.name|, |e.data|);
  }

  lemma TrailerLaid(bytes: Bytes, start: nat)
    ensures EndAt(bytes, start) <==> Spelled(bytes, TrailerAt(start))
    ensures TrailerAt(start).next == RecordEnd(start, 10, 0)
  {
    EndExact(bytes, start);
    SizeIsUp4(start, 10, 0);
  }

  lemma {:induction false} LaidExact(bytes: Bytes, start: nat, entries: seq<Entry>)
    requires AllGood(entries)
    ensures LaidFrom(bytes, start, entries) <==> SpelledFrom(bytes, start, entries)
    decreases |entries|
  {
    if entries == [] {
      TrailerLaid(bytes, start);
    } else {
      var e, rest := entries[0], entries[1..];
      assert GoodEntry(e);
      EntryLaid(bytes, start, e);
      LaidExact(bytes, RecordEnd(start, |e.name|, |e.data|), rest);
    }
  }

  /** The archives that hold a list of files: small enough, with admitted names in order, and laid out as `newc`. */
  ghost predicate Holds(bytes: Bytes, entries: seq<Entry>) {
    |bytes| <= MAX_ARCHIVE_BYTES && Admitted(entries) && LaidFrom(bytes, 0, entries)
  }

  /** An archive is read as exactly the files that lie in it. */
  lemma AcceptedHolds(bytes: Bytes, entries: seq<Entry>)
    ensures Verdict(bytes) == Ok(entries) <==> Holds(bytes, entries)
  {
    AcceptedExactly(bytes, entries);
    if AllGood(entries) { LaidExact(bytes, 0, entries); }
  }

  /** `Archive::new`. */
  method OpenArchive(bytes: Bytes) returns (error: Option<ParseError>)
    ensures error == match Verdict(bytes) case Ok(_) => None case Err(e) => Some(e)
    ensures error.None? <==> exists entries :: Holds(bytes, entries)
  {
    error := ScanArchive(bytes);
    forall entries ensures Verdict(bytes) == Ok(entries) <==> Holds(bytes, entries) {
      AcceptedHolds(bytes, entries);
    }
    assert Verdict(bytes).Ok? ==> Holds(bytes, Verdict(bytes).value);
  }

  /** The validation loop. */
  method ScanArchive(bytes: Bytes) returns (error: Option<ParseError>)
    ensures error == match Verdict(bytes) case Ok(_) => None case Err(e) => Some(e)
  {
    if |bytes| > MAX_ARCHIVE_BYTES {
      return Some(ArchiveTooLarge(MAX_ARCHIVE_BYTES));
    }
    var cursor, previous, count := 0, None, 0;
    while true
      invariant Scan(bytes, 0, None, 0).Ok? <==> Scan(bytes, cursor, previous, count).Ok?
      invariant Scan(bytes, cursor, previous, count).Err? ==>
                  Scan(bytes, 0, None, 0) == Err(Scan(bytes, cursor, previous, count).error)
      decreases |bytes| - cursor
    {
      var parsed := ParseRecord(bytes, cursor);
      if parsed.Err? {
        return Some(parsed.error);
      }
      var record := parsed.value;
      var wrong := CheckRecord(bytes, record, previous, count);
      if wrong.Some? {
        return wrong;
      }
      if record.isTrailer {
        return None;
      }
      cursor, previous, count := record.next, Some(record.name), count + 1;
    }
  }

  // ---- Iteration and lookup --------------------------------------------------------------

  /** What is left to yield at `cursor`. */
  ghost predicate Remains(bytes: Bytes, cursor: nat, rest: seq<Entry>, ended: bool) {
    if ended then rest == [] && cursor == |bytes|
    else cursor % 4 == 0 && AllGood(rest) && SpelledFrom(bytes, cursor, rest)
  }

  lemma AcceptedRemains(bytes: Bytes, entries: seq<Entry>)
    requires Verdict(bytes) == Ok(entries)
    ensures Remains(bytes, 0, entries, false)
  {
    AcceptedExactly(bytes, entries);
  }

  lemma NextRecord(bytes: Bytes, cursor: nat, rest: seq<Entry>, ended: bool)
    requires Remains(bytes, cursor, rest, ended)
    ensures ended ==> ParseRecord(bytes, cursor).Err?
    ensures !ended && rest == [] ==>
              ParseRecord(bytes, cursor) == Ok(TrailerAt(cursor)) && Remains(bytes, TrailerAt(cursor).next, [], true)
    ensures !ended && rest != [] ==>
      ParseRecord(bytes, cursor) == Ok(EntryAt(rest[0], cursor))
        && Remains(bytes, EntryAt(rest[0], cursor).next, rest[1..], false)
  {
    if !ended && rest == [] {
      TrailerExact(bytes, cursor);
    } else if !ended {
      EntryExact(bytes, cursor, rest[0]);
      NextAligned(cursor, rest[0]);
    }
  }

  /** An accepted archive's entries, one after the other. */
  class Entries {
    const bytes: Bytes
    var cursor: nat
    ghost var rest: seq<Entry>
    ghost var ended: bool

    ghost predicate Valid()
      reads this
    {
      Remains(bytes, cursor, rest, ended)
    }

    constructor (bytes: Bytes, ghost entries: seq<Entry>)
      requires Verdict(bytes) == Ok(entries)
      ensures Valid() && this.bytes == bytes && rest == entries
    {
      AcceptedRemains(bytes, entries);
      this.bytes, cursor, rest, ended := bytes, 0, entries, false;
    }

    /** Yields the next entry, and nothing once all have been yielded. */
    method Next() returns (e: Option<Entry>)
      requires Valid()
      modifies this
      ensures Valid()
      ensures e == if old(rest) == [] then None else Some(old(rest)[0])
      ensures rest == if old(rest) == [] then [] else old(rest)[1..]
    {
      NextRecord(bytes, cursor, rest, ended);
      var parsed := ParseRecord(bytes, cursor);
      if parsed.Err? {
        return None;
      }
      var record := parsed.value;
      cursor := record.next;
      if record.isTrailer {
        ended := true;
        return None;
      }
      rest := rest[1..];
      return Some(EntryOf(record));
    }
  }

  datatype LookupError = BadPath(error: PathError) | NotFound

  /** `lookup`: finds the one entry with the given name. */
  method Lookup(bytes: Bytes, ghost entries: seq<Entry>, query: Bytes) returns (r: Result<Entry, LookupError>)
    requires Verdict(bytes) == Ok(entries)
    ensures r.Ok? ==> r.value in entries && r.value.name == query
    ensures r == Err(NotFound) ==> ValidPath(query) && forall e :: e in entries ==> e.name != query
    ensures r.Err? && r.error.BadPath? <==> !ValidPath(query)
    ensures forall e :: e in entries && e.name == query ==> r == Ok(e)
  {
    AcceptedExactly(bytes, entries);
    var bad := ValidateArchivePath(query);
    if bad.Some? {
      return Err(BadPath(bad.value));
    }
    AscendingDistinct(None, entries);
    var walk := new Entries(bytes, entries);
    ghost var done := 0;
    while true
      invariant fresh(walk) && walk.Valid() && walk.bytes == bytes
      invariant done <= |entries| && walk.rest == entries[done..]
      invariant NoneBefore(entries, done, query)
      decreases |walk.rest|
    {
      SuffixStep(entries, done);
      var e := walk.Next();
      if e.None? {
        return Err(NotFound);
      }
      assert e.value == entries[done];
      if e.value.name == query {
        return Ok(e.value);
      }
      NotYet(entries, done, query);
      done := done + 1;
    }
  }

  ghost predicate NoneBefore(entries: seq<Entry>, n: nat, query: Bytes) {
    n <= |entries| && forall i :: 0 <= i < n ==> entries[i].name != query
  }

  lemma NotYet(entries: seq<Entry>, n: nat, query: Bytes)
    requires NoneBefore(entries, n, query) && n < |entries| && entries[n].name != query
    ensures NoneBefore(entries, n + 1, query)
  {
  }

  lemma SuffixStep(entries: seq<Entry>, n: nat)
    requires n <= |entries|
    ensures entries[n..] == [] <==> n == |entries|
    ensures n < |entries| ==> entries[n..][0] == entries[n] && entries[n..][1..] == entries[n + 1..]
  {
  }

  /** Names of an ascending list are increasing throughout, so no two entries share one. */
  lemma {:induction false} AscendingAfter(previous: Option<Bytes>, entries: seq<Entry>, i: nat)
    requires Ascending(previous, entries) && i < |entries| && previous.Some?
    ensures Less(previous.value, entries[i].name)
    decreases |entries|
  {
    if i > 0 {
      AscendingAfter(Some(entries[0].name), entries[1..], i - 1);
      LessTransitive(previous.value, entries[0].name, entries[i].name);
    }
  }

  lemma {:induction false} AscendingPair(previous: Option<Bytes>, entries: seq<Entry>, i: nat, j: nat)
    requires Ascending(previous, entries) && i < j < |entries|
    ensures Less(entries[i].name, entries[j].name)
    decreases |entries|
  {
    if i == 0 {
      AscendingAfter(Some(entries[0].name), entries[1..], j - 1);
    } else {
      AscendingPair(Some(entries[0].name), entries[1..], i - 1, j - 1);
    }
  }

  lemma AscendingDistinct(previous: Option<Bytes>, entries: seq<Entry>)
    requires Ascending(previous, entries)
    ensures forall i, j :: 0 <= i < j < |entries| ==> entries[i].name != entries[j].name
  {
    forall i, j | 0 <= i < j < |entries| ensures entries[i].name != entries[j].name {
      AscendingPair(previous, entries, i, j);
      LessTotal(entries[i].name, entries[j].name);
    }
  }

  // ---- Round trip and canonicity ---------------------------------------------------------

  /** Canonical text spells itself. */
  lemma {:induction false} SpellIsLower(fields: seq<nat>)
    ensures Lower(Spell(fields)) == Spell(fields)
  {
    if fields != [] {
      var front := fields[..|fields| - 1];
      SpellIsLower(front);
      HexIsLower(fields[|fields| - 1], 8);
      assert Lower(Spell(fields)) == Lower(Spell(front)) + Lower(Hex(fields[|fields| - 1], 8));
    }
  }

  lemma {:induction false} HexIsLower(v: nat, n: nat)
    ensures Lower(Hex(v, n)) == Hex(v, n)
  {
    if n > 0 {
      HexIsLower(v / 16, n - 1);
      assert Lower(Hex(v, n)) == Lower(Hex(v / 16, n - 1)) + [LowerByte(DigitByte(v % 16))];
    }
  }

  lemma TextSpellsItself(before: Bytes, fields: seq<nat>, name: Bytes, data: Bytes, after: Bytes)
    requires |fields| == 13
    ensures Spells(before + TextOf(fields, name, data) + after, |before|, fields, name, data)
  {
    var body := Body(name, data);
    var text := TextOf(fields, name, data);
    var bytes, at := before + text + after, |before|;
    SpellIsLower(fields);
    assert bytes[at..at + |text|] == text;
    SliceOfSlice(bytes, at, at + |text|, 0, 6);
    SliceOfSlice(bytes, at, at + |text|, 6, HEADER_SIZE);
    SliceOfSlice(bytes, at, at + |text|, HEADER_SIZE, |text|);
    assert text[0..6] == MAGIC && text[6..HEADER_SIZE] == Spell(fields) && text[HEADER_SIZE..|text|] == body;
  }

  lemma ArchiveTextStep(entries: seq<Entry>)
    requires entries != []
    ensures ArchiveText(entries) == EntryText(entries[0]) + ArchiveText(entries[1..])
  {
    Regroup(EntryText(entries[0]), Records(entries[1..]), TrailerText());
  }

  lemma Regroup(a: Bytes, b: Bytes, c: Bytes)
    ensures a + (b + c) == (a + b) + c
  {
  }

  lemma EntryIsSpelled(before: Bytes, e: Entry, after: Bytes)
    ensures Spelled(before + EntryText(e) + after, EntryAt(e, |before|))
            && EntryAt(e, |before|).next == |before + EntryText(e)|
  {
    TextSpellsItself(before, RecordFields(EntryAt(e, |before|)), e.name, e.data, after);
  }

  lemma TrailerIsSpelled(before: Bytes)
    ensures Spelled(before + TrailerText(), TrailerAt(|before|)) && TrailerAt(|before|).next == |before + TrailerText()|
  {
    assert before + TrailerText() + [] == before + TrailerText();
    TextSpellsItself(before, RecordFields(TrailerAt(|before|)), TRAILER_NAME, [], []);
  }

  lemma {:induction false} TextIsSpelled(before: Bytes, entries: seq<Entry>)
    ensures SpelledFrom(before + ArchiveText(entries), |before|, entries)
    decreases |entries|
  {
    var bytes := before + ArchiveText(entries);
    if entries == [] {
      TrailerIsSpelled(before);
      assert ArchiveText(entries) == TrailerText();
    } else {
      var text, after := EntryText(entries[0]), ArchiveText(entries[1..]);
      ArchiveTextStep(entries);
      Regroup(before, text, after);
      EntryIsSpelled(before, entries[0], after);
      TextIsSpelled(before + text, entries[1..]);
    }
  }

  /** Round trip: the canonical text of an admitted list is accepted and read back as that list. */
  lemma TextIsAccepted(entries: seq<Entry>)
    requires Admitted(entries) && |ArchiveText(entries)| <= MAX_ARCHIVE_BYTES
    ensures Verdict(ArchiveText(entries)) == Ok(entries)
  {
    TextIsSpelled([], entries);
    assert [] + ArchiveText(entries) == ArchiveText(entries);
    AcceptedExactly(ArchiveText(entries), entries);
  }

  /** The thirteen eight-digit fields of a record header. */
  predicate InDigits(start: nat, i: int) { start + 6 <= i < start + HEADER_SIZE }

  /** Offset `i` is a digit in the header of one of the records from `start` on, the trailer's included. */
  ghost predicate HeaderDigit(start: nat, entries: seq<Entry>, i: int)
    decreases |entries|
  {
    InDigits(start, i) || (entries != [] && HeaderDigit(EntryAt(entries[0], start).next, entries[1..], i))
  }

  /** The same bytes, except that header digits may differ in letter case. */
  ghost predicate SameButDigits(a: Bytes, b: Bytes, entries: seq<Entry>) {
    |a| == |b| && forall i ::
        0 <= i < |a| ==> a[i] == b[i] || (HeaderDigit(0, entries, i) && LowerByte(a[i]) == LowerByte(b[i]))
  }

  /** One byte of a record's text, as it is spelled at `start`. */
  ghost predicate SpelledByte(bytes: Bytes, start: nat, text: Bytes, i: nat)
    requires start <= i < |bytes| && i - start < |text|
  {
    bytes[i] == text[i - start] || (InDigits(start, i) && LowerByte(bytes[i]) == text[i - start])
  }

  lemma SpellsByte(bytes: Bytes, start: nat, fields: seq<nat>, name: Bytes, data: Bytes, i: nat)
    requires |fields| == 13 && Spells(bytes, start, fields, name, data)
             && start <= i < start + RecordSize(|name|, |data|)
    ensures SpelledByte(bytes, start, TextOf(fields, name, data), i)
  {
    var k, text := i - start, TextOf(fields, name, data);
    if k < 6 {
      assert bytes[i] == bytes[start..start + 6][k] && text[k] == MAGIC[k];
    } else if k < HEADER_SIZE {
      var digits := bytes[start + 6..start + HEADER_SIZE];
      assert digits[k - 6] == bytes[i] && text[k] == Spell(fields)[k - 6] == Lower(digits)[k - 6];
    } else {
      var body := bytes[start + HEADER_SIZE..start + RecordSize(|name|, |data|)];
      assert body[k - HEADER_SIZE] == bytes[i] && text[k] == Body(name, data)[k - HEADER_SIZE];
    }
  }

  lemma EntryByte(bytes: Bytes, start: nat, e: Entry, i: nat)
    requires Spelled(bytes, EntryAt(e, start)) && start <= i < EntryAt(e, start).next
    ensures i < |bytes| && SpelledByte(bytes, start, EntryText(e), i)
  {
    SpellsByte(bytes, start, RecordFields(EntryAt(e, start)), e.name, e.data, i);
  }

  lemma TrailerByte(bytes: Bytes, start: nat, i: nat)
    requires Spelled(bytes, TrailerAt(start)) && start <= i < TrailerAt(start).next
    ensures i < |bytes| && SpelledByte(bytes, start, TrailerText(), i)
  {
    SpellsByte(bytes, start, RecordFields(TrailerAt(start)), TRAILER_NAME, [], i);
  }

  lemma {:induction false} SpelledLength(bytes: Bytes, start: nat, entries: seq<Entry>)
    requires SpelledFrom(bytes, start, entries)
    ensures start + |ArchiveText(entries)| == |bytes|
    decreases |entries|
  {
    if entries == [] {
      assert ArchiveText(entries) == TrailerText();
    } else {
      SpelledLength(bytes, EntryAt(entries[0], start).next, entries[1..]);
      ArchiveTextStep(entries);
    }
  }

  lemma {:induction false} ArchiveByte(bytes: Bytes, start: nat, entries: seq<Entry>, i: nat)
    requires SpelledFrom(bytes, start, entries) && start <= i < |bytes| == start + |ArchiveText(entries)|
    ensures var b := ArchiveText(entries)[i - start];
            bytes[i] == b || (HeaderDigit(start, entries, i) && LowerByte(bytes[i]) == b)
    decreases |entries|
  {
    if entries == [] {
      TrailerByte(bytes, start, i);
      assert ArchiveText(entries) == TrailerText();
    } else {
      var next, text := EntryAt(entries[0], start).next, EntryText(entries[0]);
      ArchiveTextStep(entries);
      if i < next {
        EntryByte(bytes, start, entries[0], i);
        assert ArchiveText(entries)[i - start] == text[i - start];
      } else {
        SpelledLength(bytes, next, entries[1..]);
        ArchiveByte(bytes, next, entries[1..], i);
        assert ArchiveText(entries)[i - start] == ArchiveText(entries[1..])[i - next];
      }
    }
  }

  /** Canonical digits are in lower case, so comparing with them loses nothing. */
  lemma LowerTwice(b: Byte)
    ensures LowerByte(LowerByte(b)) == LowerByte(b)
  {
  }

  /** Canonicity: an accepted archive is the canonical text of its entries up to the letter case of header digits. */
  lemma AcceptedIsCanonical(bytes: Bytes, entries: seq<Entry>)
    requires Verdict(bytes) == Ok(entries)
    ensures Admitted(entries) && SameButDigits(bytes, ArchiveText(entries), entries)
    ensures Verdict(ArchiveText(entries)) == Ok(entries)
  {
    AcceptedExactly(bytes, entries);
    SpelledLength(bytes, 0, entries);
    var text := ArchiveText(entries);
    forall i | 0 <= i < |bytes|
      ensures bytes[i] == text[i] || (HeaderDigit(0, entries, i) && LowerByte(bytes[i]) == LowerByte(text[i]))
    {
      ArchiveByte(bytes, 0, entries, i);
      LowerTwice(bytes[i]);
    }
    TextIsAccepted(entries);
  }

  /** Accepted archives with equal entries differ only in the letter case of header digits. */
  lemma EqualEntriesEqualBytes(a: Bytes, b: Bytes, entries: seq<Entry>)
    requires Verdict(a) == Ok(entries) && Verdict(b) == Ok(entries)
    ensures SameButDigits(a, b, entries)
  {
    AcceptedIsCanonical(a, entries);
    AcceptedIsCanonical(b, entries);
  }
}
