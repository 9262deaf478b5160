/** Normalisation of the firmware memory map into the canonical list of maximal runs. */
module MemoryMap {
  import opened Outcome
  import opened Words

  const PAGE: nat := 4096

  datatype FirmwareKind =
    | Conventional | BootServices | Loader | FirmwareReserved | FirmwareAcpiReclaim | FirmwareAcpiNvs
    | FirmwareMmio | FirmwareRuntimeServices | FirmwareUnusable

  /** Kinds of the handoff record; a validator may meet any number. */
  datatype MemoryKind = Usable | Reserved | AcpiReclaim | AcpiNvs | Mmio | RuntimeServices | Unusable
      | UnknownKind(number: nat)

  datatype Descriptor = Descriptor(kind: Option<FirmwareKind>, start: Word, pages: Word, attributes: Word)

  /** The `size`, `version` and reserved words of a record, as one well-formedness mark each. */
  datatype MemoryRange = MemoryRange(headerOk: bool, reservedZero: bool, kind: MemoryKind, start: Word, pages: Word,
                                     attributes: Word)

  datatype MemoryMapError =
    | UnknownMemoryKind | EmptyRange | PhysicalAddressUnaligned | RangeOverflow | UnsortedInput | OverlappingInput
    | OutputExhausted

  /** `normalize_kind`. */
  function NormalizeKind(kind: FirmwareKind): (k: MemoryKind)
    ensures !k.UnknownKind?
    ensures k.Usable? <==> kind.Conventional? || kind.BootServices?
  {
    match kind
    case Conventional => Usable
    case BootServices => Usable
    case Loader => Reserved
    case FirmwareReserved => Reserved
    case FirmwareAcpiReclaim => AcpiReclaim
    case FirmwareAcpiNvs => AcpiNvs
    case FirmwareMmio => Mmio
    case FirmwareRuntimeServices => RuntimeServices
    case FirmwareUnusable => Unusable
  }

  function End(start: int, pages: int): int { start + pages * PAGE }

  function RangeEnd(r: MemoryRange): int { End(r.start, r.pages) }

  // ---- Valid input -----------------------------------------------------------------------

  /** `checked_end` together with the kind check and the comparison with the previous descriptor. */
  function CheckDescriptor(d: Descriptor, previous: Option<Descriptor>): (r: Option<MemoryMapError>)
    ensures r.None? <==>
            GoodDescriptor(d) && (previous.None? || End(previous.value.start, previous.value.pages) <= d.start)
  {
    if d.kind.None? then Some(UnknownMemoryKind)
    else if d.pages == 0 then Some(EmptyRange)
    else if d.start % PAGE != 0 then Some(PhysicalAddressUnaligned)
    else if End(d.start, d.pages) >= TWO64 then Some(RangeOverflow)
    else if previous.Some? && d.start < previous.value.start then Some(UnsortedInput)
    else if previous.Some? && d.start < End(previous.value.start, previous.value.pages) then Some(OverlappingInput)
    else None
  }

  predicate GoodDescriptor(d: Descriptor) {
    d.kind.Some? && d.pages > 0 && d.start % PAGE == 0 && End(d.start, d.pages) < TWO64
  }

  /** The descriptor before position `n`. */
  function Previous(input: seq<Descriptor>, n: nat): Option<Descriptor>
    requires n <= |input|
  {
    if n == 0 then None else Some(input[n - 1])
  }

  ghost predicate ValidAt(input: seq<Descriptor>, i: nat)
    requires i < |input|
  {
    CheckDescriptor(input[i], Previous(input, i)).None?
  }

  ghost predicate ValidMap(input: seq<Descriptor>) {
    forall i {:trigger ValidAt(input, i)} :: 0 <= i < |input| ==> ValidAt(input, i)
  }

  // ---- Runs ------------------------------------------------------------------------------

  predicate Mergeable(a: MemoryRange, kind: MemoryKind, attributes: Word, start: Word) {
    a.kind == kind && a.attributes == attributes && RangeEnd(a) == start
  }

  function RangeOf(d: Descriptor): MemoryRange
    requires d.kind.Some?
  {
    MemoryRange(true, true, NormalizeKind(d.kind.value), d.start, d.pages, d.attributes)
  }

  /** One more descriptor: it extends the last run or starts a new one. */
  ghost function Append(runs: seq<MemoryRange>, d: Descriptor): seq<MemoryRange>
    requires d.kind.Some?
  {
    if runs != [] && Mergeable(runs[|runs| - 1], NormalizeKind(d.kind.value), d.attributes, d.start) then
      var last := runs[|runs| - 1];
      if last.pages + d.pages < TWO64 then runs[..|runs| - 1] + [last.(pages := last.pages + d.pages)] else runs
    else runs + [RangeOf(d)]
  }

  ghost function Runs(input: seq<Descriptor>): seq<MemoryRange>
    requires ValidMap(input)
  {
    if input == [] then []
    else
      assert ValidMap(input[..|input| - 1]) by { ValidPrefix(input, |input| - 1); }
      assert ValidAt(input, |input| - 1);
      Append(Runs(input[..|input| - 1]), input[|input| - 1])
  }

  lemma ValidPrefix(input: seq<Descriptor>, n: nat)
    requires ValidMap(input) && n <= |input|
    ensures ValidMap(input[..n])
  {
    var prefix := input[..n];
    forall i | 0 <= i < n ensures ValidAt(prefix, i) {
      assert ValidAt(input, i);
    }
  }

  // ---- Canonical lists -------------------------------------------------------------------

  ghost predicate GoodRange(r: MemoryRange) {
    r.headerOk && r.reservedZero && !r.kind.UnknownKind? && r.pages > 0 && r.start % PAGE == 0 && RangeEnd(r) < TWO64
  }

  /** Neighbours in order, apart or of different meaning. */
  ghost predicate Separate(a: MemoryRange, b: MemoryRange) {
    RangeEnd(a) <= b.start && !Mergeable(a, b.kind, b.attributes, b.start)
  }

  /** Maximal runs in ascending order. */
  ghost predicate Canonical(runs: seq<MemoryRange>) {
    && (forall i :: 0 <= i < |runs| ==> GoodRange(runs[i]))
    && (forall i :: 0 < i < |runs| ==> Separate(runs[i - 1], runs[i]))
  }

  lemma CanonicalInit(runs: seq<MemoryRange>)
    requires Canonical(runs) && runs != []
    ensures Canonical(runs[..|runs| - 1])
  {
    var init := runs[..|runs| - 1];
    assert forall i :: 0 <= i < |init| ==> init[i] == runs[i];
    forall i | 0 < i < |init| ensures Separate(init[i - 1], init[i]) {
      assert Separate(runs[i - 1], runs[i]);
    }
  }

  /** All earlier runs end before the last one starts. */
  lemma {:induction false} EarlierEndsBefore(runs: seq<MemoryRange>, i: nat, j: nat)
    requires Canonical(runs) && i < j < |runs|
    ensures RangeEnd(runs[i]) <= runs[j].start
    decreases j - i
  {
    assert Separate(runs[j - 1], runs[j]);
    if i < j - 1 {
      EarlierEndsBefore(runs, i, j - 1);
      assert GoodRange(runs[j - 1]);
    }
  }

  /** Appending a valid descriptor keeps a list canonical. */
  lemma AppendCanonical(runs: seq<MemoryRange>, d: Descriptor)
    requires Canonical(runs) && GoodDescriptor(d) && (runs != [] ==> RangeEnd(runs[|runs| - 1]) <= d.start)
    ensures Canonical(Append(runs, d)) && Append(runs, d) != []
    ensures RangeEnd(Append(runs, d)[|Append(runs, d)| - 1]) == End(d.start, d.pages)
  {
    var out := Append(runs, d);
    if |out| == |runs| {
      var last := runs[|runs| - 1];
      assert GoodRange(last);
      assert last.pages + d.pages < TWO64;
      forall i | 0 < i < |out| ensures Separate(out[i - 1], out[i]) {
        assert Separate(runs[i - 1], runs[i]);
      }
      assert forall i :: 0 <= i < |out| - 1 ==> out[i] == runs[i];
    } else {
      forall i | 0 < i < |out| ensures Separate(out[i - 1], out[i]) {
        if i < |runs| {
          assert Separate(runs[i - 1], runs[i]);
        }
      }
    }
  }

  /** The output is canonical and ends where the last descriptor ends. */
  lemma {:induction false} RunsCanonical(input: seq<Descriptor>)
    requires ValidMap(input)
    ensures Canonical(Runs(input))
    ensures input != [] ==>
              Runs(input) != []
              && RangeEnd(Runs(input)[|Runs(input)| - 1]) == End(input[|input| - 1].start, input[|input| - 1].pages)
    ensures input == [] ==> Runs(input) == []
    decreases |input|
  {
    if input != [] {
      var n := |input| - 1;
      ValidPrefix(input, n);
      RunsCanonical(input[..n]);
      assert ValidAt(input, n);
      AppendCanonical(Runs(input[..n]), input[n]);
    }
  }

  // ---- Meaning of a page -----------------------------------------------------------------

  datatype Meaning = Meaning(kind: MemoryKind, attributes: Word)

  predicate Covers(start: int, pages: int, page: nat) { start <= page * PAGE < End(start, pages) }

  /** What a list says about a page. */
  ghost function MeaningOf(runs: seq<MemoryRange>, page: nat): Option<Meaning> {
    if runs == [] then None
    else
      var last := runs[|runs| - 1];
      if Covers(last.start, last.pages, page) then Some(Meaning(last.kind, last.attributes))
      else MeaningOf(runs[..|runs| - 1], page)
  }

  /** What the firmware says about a page, in normalised kinds. */
  ghost function FirmwareMeaning(input: seq<Descriptor>, page: nat): Option<Meaning>
    requires ValidMap(input)
  {
    if input == [] then None
    else
      var n := |input| - 1;
      var last := input[n];
      assert ValidMap(input[..n]) by { ValidPrefix(input, n); }
      assert ValidAt(input, n);
      if Covers(last.start, last.pages, page) then Some(Meaning(NormalizeKind(last.kind.value), last.attributes))
      else FirmwareMeaning(input[..n], page)
  }

  lemma AppendMeaning(runs: seq<MemoryRange>, d: Descriptor, page: nat)
    requires Canonical(runs) && GoodDescriptor(d) && (runs != [] ==> RangeEnd(runs[|runs| - 1]) <= d.start)
    ensures MeaningOf(Append(runs, d), page) ==
            if Covers(d.start, d.pages, page) then Some(Meaning(NormalizeKind(d.kind.value), d.attributes))
            else MeaningOf(runs, page)
  {
    var out := Append(runs, d);
    if |out| == |runs| {
      var last := runs[|runs| - 1];
      assert GoodRange(last) && last.pages + d.pages < TWO64;
      assert out[..|out| - 1] == runs[..|runs| - 1];
    } else {
      assert out[..|out| - 1] == runs;
    }
  }

  /** Meaning is preserved: each page keeps its normalised kind and attributes, and no page gains one. */
  lemma {:induction false} MeaningKept(input: seq<Descriptor>, page: nat)
    requires ValidMap(input)
    ensures MeaningOf(Runs(input), page) == FirmwareMeaning(input, page)
    decreases |input|
  {
    if input != [] {
      var n := |input| - 1;
      ValidPrefix(input, n);
      MeaningKept(input[..n], page);
      RunsBeforeLast(input, n);
      AppendMeaning(Runs(input[..n]), input[n], page);
      FirmwareStep(input, n, page);
    }
  }

  lemma RunsBeforeLast(input: seq<Descriptor>, n: nat)
    requires ValidMap(input) && |input| == n + 1
    ensures ValidMap(input[..n]) && GoodDescriptor(input[n]) && Canonical(Runs(input[..n]))
    ensures var runs := Runs(input[..n]);
            Runs(input) == Append(runs, input[n]) && (runs != [] ==> RangeEnd(runs[|runs| - 1]) <= input[n].start)
  {
    ValidPrefix(input, n);
    RunsCanonical(input[..n]);
    assert ValidAt(input, n);
  }

  lemma FirmwareStep(input: seq<Descriptor>, n: nat, page: nat)
    requires ValidMap(input) && |input| == n + 1 && ValidMap(input[..n]) && GoodDescriptor(input[n])
    ensures FirmwareMeaning(input, page) ==
            if Covers(input[n].start, input[n].pages, page)
            then Some(Meaning(NormalizeKind(input[n].kind.value), input[n].attributes))
            else FirmwareMeaning(input[..n], page)
  {
  }

  // ---- What the kernel is told of a page -------------------------------------------------

  /** The firmware kinds behind each kind of the record: what the loader itself occupies is not usable. */
  function Sources(kind: MemoryKind): set<FirmwareKind> {
    match kind
    case Usable => {Conventional, BootServices}
    case Reserved => {FirmwareReserved, Loader}
    case AcpiReclaim => {FirmwareAcpiReclaim}
    case AcpiNvs => {FirmwareAcpiNvs}
    case Mmio => {FirmwareMmio}
    case RuntimeServices => {FirmwareRuntimeServices}
    case Unusable => {FirmwareUnusable}
    case UnknownKind(_) => {}
  }

  /** Some descriptor of the firmware gives the page a kind of this source, and these attributes. */
  ghost predicate Described(input: seq<Descriptor>, page: nat, kind: MemoryKind, attributes: Word) {
    exists i :: 0 <= i < |input| && DescribedBy(input[i], page, kind, attributes)
  }

  ghost predicate DescribedBy(d: Descriptor, page: nat, kind: MemoryKind, attributes: Word) {
    Covers(d.start, d.pages, page) && d.kind.Some? && d.kind.value in Sources(kind) && d.attributes == attributes
  }

  /** Some range of the record says so of the page. */
  ghost predicate Listed(runs: seq<MemoryRange>, page: nat, kind: MemoryKind, attributes: Word) {
    exists i :: 0 <= i < |runs| && ListedBy(runs[i], page, kind, attributes)
  }

  ghost predicate ListedBy(r: MemoryRange, page: nat, kind: MemoryKind, attributes: Word) {
    Covers(r.start, r.pages, page) && r.kind == kind && r.attributes == attributes
  }

  /** Valid descriptors follow each other. */
  lemma {:induction false} DescriptorsFollow(input: seq<Descriptor>, i: nat, j: nat)
    requires ValidMap(input) && i < j < |input|
    ensures End(input[i].start, input[i].pages) <= input[j].start
    decreases j
  {
    assert ValidAt(input, j) && ValidAt(input, j - 1);
    if i < j - 1 { DescriptorsFollow(input, i, j - 1); }
  }

  lemma {:induction false} FirmwareExact(input: seq<Descriptor>, page: nat, kind: MemoryKind, attributes: Word)
    requires ValidMap(input)
    ensures FirmwareMeaning(input, page) == Some(Meaning(kind, attributes)) <==>
            Described(input, page, kind, attributes)
    decreases |input|
  {
    if input != [] {
      var n := |input| - 1;
      ValidPrefix(input, n);
      FirmwareExact(input[..n], page, kind, attributes);
      assert ValidAt(input, n);
      FirmwareStep(input, n, page);
      if Described(input, page, kind, attributes) {
        var i :| 0 <= i < |input| && DescribedBy(input[i], page, kind, attributes);
        if i < n {
          DescriptorsFollow(input, i, n);
          assert DescribedBy(input[..n][i], page, kind, attributes);
        }
      }
    }
  }

  lemma ListedExact(runs: seq<MemoryRange>, page: nat, kind: MemoryKind, attributes: Word)
    requires Canonical(runs)
    ensures Listed(runs, page, kind, attributes) <==> MeaningOf(runs, page) == Some(Meaning(kind, attributes))
  {
    if Listed(runs, page, kind, attributes) {
      var i :| 0 <= i < |runs| && ListedBy(runs[i], page, kind, attributes);
      RunGivesMeaning(runs, page, i);
    }
    if MeaningOf(runs, page) == Some(Meaning(kind, attributes)) {
      var i := MeaningHasRun(runs, page);
      assert ListedBy(runs[i], page, kind, attributes);
    }
  }

  /** The record lists a page with a kind and attributes exactly when the firmware describes it so. */
  lemma RecordTells(input: seq<Descriptor>, page: nat, kind: MemoryKind, attributes: Word)
    requires ValidMap(input)
    ensures Listed(Runs(input), page, kind, attributes) <==> Described(input, page, kind, attributes)
  {
    RunsCanonical(input);
    ListedExact(Runs(input), page, kind, attributes);
    MeaningKept(input, page);
    FirmwareExact(input, page, kind, attributes);
  }

  /** Of every page, the record says exactly what the firmware does. */
  ghost predicate Tells(input: seq<Descriptor>, runs: seq<MemoryRange>) {
    forall page: nat, kind, attributes {:trigger Listed(runs, page, kind, attributes)} ::
      Listed(runs, page, kind, attributes) <==> Described(input, page, kind, attributes)
  }

  lemma AllTold(input: seq<Descriptor>)
    requires ValidMap(input)
    ensures Tells(input, Runs(input))
  {
    forall page: nat, kind, attributes
      ensures Listed(Runs(input), page, kind, attributes) <==> Described(input, page, kind, attributes)
    {
      RecordTells(input, page, kind, attributes);
    }
  }

  // ---- Canonical lists are determined by their meaning -----------------------------------

  /** A page with a meaning lies in a run that gives it. */
  lemma {:induction false} MeaningHasRun(runs: seq<MemoryRange>, page: nat) returns (i: nat)
    requires MeaningOf(runs, page).Some?
    ensures i < |runs| && Covers(runs[i].start, runs[i].pages, page)
    ensures MeaningOf(runs, page) == Some(Meaning(runs[i].kind, runs[i].attributes))
  {
    var n := |runs| - 1;
    if Covers(runs[n].start, runs[n].pages, page) {
      i := n;
    } else {
      i := MeaningHasRun(runs[..n], page);
    }
  }

  lemma {:induction false} RunGivesMeaning(runs: seq<MemoryRange>, page: nat, i: nat)
    requires Canonical(runs) && i < |runs| && Covers(runs[i].start, runs[i].pages, page)
    ensures MeaningOf(runs, page) == Some(Meaning(runs[i].kind, runs[i].attributes))
    decreases |runs|
  {
    var n := |runs| - 1;
    if i < n {
      EarlierEndsBefore(runs, i, n);
      CanonicalInit(runs);
      RunGivesMeaning(runs[..n], page, i);
    }
  }

  /** The first and the last page of a run. */
  function FirstPage(r: MemoryRange): nat { r.start / PAGE }

  function LastPage(r: MemoryRange): int { r.start / PAGE + r.pages - 1 }

  lemma RunPages(r: MemoryRange, page: nat)
    requires GoodRange(r)
    ensures Covers(r.start, r.pages, page) <==> FirstPage(r) <= page <= LastPage(r)
    ensures r.start == FirstPage(r) * PAGE && RangeEnd(r) == (LastPage(r) + 1) * PAGE
  {
  }

  ghost predicate SameMeaning(a: seq<MemoryRange>, b: seq<MemoryRange>) {
    forall page: nat :: MeaningOf(a, page) == MeaningOf(b, page)
  }

  /** No page beyond the last run has a meaning. */
  lemma NothingBeyond(runs: seq<MemoryRange>, page: nat)
    requires Canonical(runs) && MeaningOf(runs, page).Some?
    ensures runs != [] && page <= LastPage(runs[|runs| - 1])
  {
    var n := |runs| - 1;
    var i := MeaningHasRun(runs, page);
    assert GoodRange(runs[i]) && GoodRange(runs[n]);
    RunPages(runs[i], page);
    RunPages(runs[n], page);
    if i < n {
      EarlierEndsBefore(runs, i, n);
    }
  }

  /** A run that starts later than its counterpart would have to merge with the run before it. */
  lemma StartsNoLater(a: seq<MemoryRange>, b: seq<MemoryRange>)
    requires Canonical(a) && Canonical(b) && a != [] && b != [] && SameMeaning(a, b)
    requires var x, y := a[|a| - 1], b[|b| - 1];
             LastPage(x) == LastPage(y) && x.kind == y.kind && x.attributes == y.attributes
    ensures b[|b| - 1].start <= a[|a| - 1].start
  {
    var m, n := |a| - 1, |b| - 1;
    var x, y := a[m], b[n];
    assert GoodRange(x) && GoodRange(y);
    if x.start < y.start {
      var page := FirstPage(y) - 1;
      RunPages(x, page);
      RunPages(y, page);
      RunGivesMeaning(a, page, m);
      assert MeaningOf(b, page) == MeaningOf(a, page);
      var i := MeaningHasRun(b, page);
      BeforeLast(b, i, page);
      assert false;
    }
  }

  /** The run right before the last one's first page is its neighbour and has another meaning. */
  lemma BeforeLast(b: seq<MemoryRange>, i: nat, page: nat)
    requires Canonical(b) && i < |b| && Covers(b[i].start, b[i].pages, page) && page == FirstPage(b[|b| - 1]) - 1
    ensures b[i].kind != b[|b| - 1].kind || b[i].attributes != b[|b| - 1].attributes
  {
    var n := |b| - 1;
    assert GoodRange(b[i]) && GoodRange(b[n]);
    RunPages(b[i], page);
    RunPages(b[n], page);
    assert i < n;
    EarlierEndsBefore(b, i, n);
    assert Separate(b[n - 1], b[n]) && GoodRange(b[n - 1]);
    if i < n - 1 {
      EarlierEndsBefore(b, i, n - 1);
    }
  }

  lemma LastRunsAgree(a: seq<MemoryRange>, b: seq<MemoryRange>)
    requires Canonical(a) && Canonical(b) && a != [] && SameMeaning(a, b)
    ensures b != [] && a[|a| - 1] == b[|b| - 1]
  {
    var m := |a| - 1;
    var x := a[m];
    assert GoodRange(x);
    RunPages(x, LastPage(x));
    RunGivesMeaning(a, LastPage(x), m);
    assert MeaningOf(b, LastPage(x)) == MeaningOf(a, LastPage(x));
    NothingBeyond(b, LastPage(x));
    var n := |b| - 1;
    var y := b[n];
    assert GoodRange(y);
    RunPages(y, LastPage(y));
    RunGivesMeaning(b, LastPage(y), n);
    assert MeaningOf(b, LastPage(y)) == MeaningOf(a, LastPage(y));
    NothingBeyond(a, LastPage(y));
    StartsNoLater(a, b);
    StartsNoLater(b, a);
  }

  /** Canonicity: lists of maximal runs that describe the same pages are identical. */
  lemma {:induction false} CanonicalUnique(a: seq<MemoryRange>, b: seq<MemoryRange>)
    requires Canonical(a) && Canonical(b) && SameMeaning(a, b)
    ensures a == b
    decreases |a|
  {
    if a == [] {
      if b != [] {
        LastRunsAgree(b, a);
      }
    } else {
      LastRunsAgree(a, b);
      var m, n := |a| - 1, |b| - 1;
      CanonicalInit(a);
      CanonicalInit(b);
      forall page: nat ensures MeaningOf(a[..m], page) == MeaningOf(b[..n], page) {
        InitMeaning(a, page);
        InitMeaning(b, page);
        assert MeaningOf(a, page) == MeaningOf(b, page);
      }
      CanonicalUnique(a[..m], b[..n]);
      assert a == a[..m] + [a[m]] && b == b[..n] + [b[n]];
    }
  }

  /** Dropping the last run takes away exactly its own pages. */
  lemma InitMeaning(runs: seq<MemoryRange>, page: nat)
    requires Canonical(runs) && runs != []
    ensures var n := |runs| - 1;
            MeaningOf(runs[..n], page) ==
            if Covers(runs[n].start, runs[n].pages, page) then None else MeaningOf(runs, page)
  {
    var n := |runs| - 1;
    if Covers(runs[n].start, runs[n].pages, page) && MeaningOf(runs[..n], page).Some? {
      var i := MeaningHasRun(runs[..n], page);
      EarlierEndsBefore(runs, i, n);
      assert false;
    }
  }

  /** Two firmware maps that describe the same pages are normalised to the same list. */
  lemma EquivalentMapsCoincide(a: seq<Descriptor>, b: seq<Descriptor>)
    requires ValidMap(a) && ValidMap(b) && forall page: nat :: FirmwareMeaning(a, page) == FirmwareMeaning(b, page)
    ensures Runs(a) == Runs(b)
  {
    RunsCanonical(a);
    RunsCanonical(b);
    forall page: nat ensures MeaningOf(Runs(a), page) == MeaningOf(Runs(b), page) {
      MeaningKept(a, page);
      MeaningKept(b, page);
    }
    CanonicalUnique(Runs(a), Runs(b));
  }

  // ---- The normaliser --------------------------------------------------------------------

  /** Why normalisation stopped: a bad descriptor, or more runs than the buffer holds. */
  ghost predicate StopsBecause(input: seq<Descriptor>, capacity: nat, error: MemoryMapError) {
    exists n: nat :: n < |input| && ValidMap(input[..n]) && StopsAt(input, n, capacity, error)
  }

  ghost predicate StopsAt(input: seq<Descriptor>, n: nat, capacity: nat, error: MemoryMapError)
    requires n < |input|
  {
    if error.OutputExhausted? then ValidMap(input[..n + 1]) && |Runs(input[..n + 1])| > capacity
    else CheckDescriptor(input[n], Previous(input, n)) == Some(error)
  }

  lemma ValidNext(input: seq<Descriptor>, n: nat)
    requires n < |input| && ValidMap(input[..n]) && CheckDescriptor(input[n], Previous(input, n)).None?
    ensures ValidMap(input[..n + 1]) && Runs(input[..n + 1]) == Append(Runs(input[..n]), input[n])
  {
    var longer := input[..n + 1];
    forall i | 0 <= i < n + 1 ensures ValidAt(longer, i) {
      if i < n {
        assert ValidAt(input[..n], i);
      }
    }
    assert longer[..n] == input[..n] && longer[n] == input[n];
  }

  /** `normalize_and_coalesce`. */
  method NormalizeAndCoalesce(input: seq<Descriptor>, output: array<MemoryRange>)
    returns (r: Result<nat, MemoryMapError>)
    modifies output
    ensures r.Ok? ==> ValidMap(input) && r.value <= output.Length && output[..r.value] == Runs(input)
    ensures r.Ok? ==> Tells(input, output[..r.value])
    ensures r.Err? ==> StopsBecause(input, output.Length, r.error)
  {
    var len: nat := 0;
    ghost var runs: seq<MemoryRange> := [];
    for n := 0 to |input|
      invariant ValidMap(input[..n]) && runs == Runs(input[..n])
      invariant len <= output.Length && output[..len] == runs
    {
      var d := input[n];
      var wrong := CheckDescriptor(d, Previous(input, n));
      if wrong.Some? {
        NotExhausted(d, Previous(input, n));
        return Err(wrong.value);
      }
      LastRunBefore(input, n);
      ValidNext(input, n);
      var longer := AppendInPlace(output, len, runs, d);
      if longer.None? {
        assert StopsAt(input, n, output.Length, OutputExhausted);
        return Err(OutputExhausted);
      }
      len, runs := longer.value, Append(runs, d);
    }
    assert input[..|input|] == input;
    AllTold(input);
    return Ok(len);
  }

  /** One turn of the loop: the last run grows, or a new one is pushed if there is room. */
  method AppendInPlace(output: array<MemoryRange>, len: nat, ghost runs: seq<MemoryRange>, d: Descriptor)
    returns (r: Option<nat>)
    requires len <= output.Length && output[..len] == runs && Canonical(runs) && GoodDescriptor(d)
    requires runs != [] ==> RangeEnd(runs[|runs| - 1]) <= d.start
    modifies output
    ensures r.Some? ==> r.value <= output.Length && output[..r.value] == Append(runs, d)
    ensures r.None? ==> |Append(runs, d)| > output.Length
  {
    if len > 0 && Mergeable(output[len - 1], NormalizeKind(d.kind.value), d.attributes, d.start) {
      assert output[len - 1] == runs[len - 1];
      AppendCanonical(runs, d);
      MergeFits(runs, d);
      output[len - 1] := output[len - 1].(pages := output[len - 1].pages + d.pages);
      assert output[..len - 1] == runs[..len - 1];
      assert output[..len] == output[..len - 1] + [output[len - 1]];
      return Some(len);
    }
    if len >= output.Length {
      return None;
    }
    output[len] := RangeOf(d);
    assert output[..len] == runs;
    assert output[..len + 1] == output[..len] + [output[len]];
    return Some(len + 1);
  }

  lemma NotExhausted(d: Descriptor, previous: Option<Descriptor>)
    ensures CheckDescriptor(d, previous) != Some(OutputExhausted)
  {
  }

  lemma LastRunBefore(input: seq<Descriptor>, n: nat)
    requires n < |input| && ValidMap(input[..n]) && CheckDescriptor(input[n], Previous(input, n)).None?
    ensures var runs := Runs(input[..n]);
            Canonical(runs) && (runs != [] ==> RangeEnd(runs[|runs| - 1]) <= input[n].start)
  {
    RunsCanonical(input[..n]);
  }

  /** Merging never leaves 64 bits. */
  lemma MergeFits(runs: seq<MemoryRange>, d: Descriptor)
    requires Canonical(runs) && GoodDescriptor(d) && runs != []
    requires Mergeable(runs[|runs| - 1], NormalizeKind(d.kind.value), d.attributes, d.start)
    ensures runs[|runs| - 1].pages + d.pages < TWO64
  {
    assert GoodRange(runs[|runs| - 1]);
  }

  /** Success is decided by validity and room alone; on a valid map the only failure is a list longer than the
      buffer. */
  lemma StopsExactly(input: seq<Descriptor>, capacity: nat, error: MemoryMapError)
    requires StopsBecause(input, capacity, error)
    ensures !(ValidMap(input) && |Runs(input)| <= capacity)
    ensures ValidMap(input) ==> error == OutputExhausted
  {
    var n: nat :| n < |input| && ValidMap(input[..n]) && StopsAt(input, n, capacity, error);
    if ValidMap(input) {
      assert ValidAt(input, n);
      RunsGrow(input, n + 1);
    }
  }

  lemma {:induction false} RunsGrow(input: seq<Descriptor>, n: nat)
    requires ValidMap(input) && n <= |input|
    ensures ValidMap(input[..n]) && |Runs(input[..n])| <= |Runs(input)|
    decreases |input| - n
  {
    ValidPrefix(input, n);
    if n < |input| {
      assert ValidAt(input, n);
      ValidNext(input, n);
      RunsGrow(input, n + 1);
    } else {
      assert input[..n] == input;
    }
  }

  // ---- The handoff record's own validation -----------------------------------------------

  datatype MapFault = InvalidHeader | InvalidReservedField | UnknownKindFault | EmptyRangeFault | UnalignedFault
      | OverflowFault | MemoryMapOverlap

  function CheckRange(r: MemoryRange): (f: Option<MapFault>)
    ensures f.None? <==> GoodRange(r)
  {
    if !r.headerOk then Some(InvalidHeader)
    else if !r.reservedZero then Some(InvalidReservedField)
    else if r.kind.UnknownKind? then Some(UnknownKindFault)
    else if r.pages == 0 then Some(EmptyRangeFault)
    else if r.start % PAGE != 0 then Some(UnalignedFault)
    else if RangeEnd(r) >= TWO64 then Some(OverflowFault)
    else None
  }

  /** Good ranges in ascending order, pairwise disjoint. */
  ghost predicate MapOk(map_: seq<MemoryRange>) {
    && (forall i :: 0 <= i < |map_| ==> GoodRange(map_[i]))
    && (forall i, j :: 0 <= i < j < |map_| ==> RangeEnd(map_[i]) <= map_[j].start)
  }

  /** `validate_memory_map`: comparing neighbours decides pairwise disjointness. */
  method ValidateMemoryMap(map_: seq<MemoryRange>) returns (fault: Option<MapFault>)
    ensures fault.None? <==> MapOk(map_)
  {
    var previousEnd := 0;
    for i := 0 to |map_|
      invariant MapOk(map_[..i])
      invariant i > 0 ==> previousEnd == RangeEnd(map_[i - 1])
    {
      fault := CheckRange(map_[i]);
      if fault.Some? {
        return;
      }
      if i > 0 && map_[i].start < previousEnd {
        return Some(MemoryMapOverlap);
      }
      assert i > 0 ==> GoodRange(map_[..i][i - 1]);
      assert forall j :: 0 <= j < i - 1 ==> RangeEnd(map_[..i][j]) <= map_[..i][i - 1].start;
      previousEnd := RangeEnd(map_[i]);
      assert forall j :: 0 <= j < i ==> map_[..i + 1][j] == map_[..i][j];
    }
    assert map_[..|map_|] == map_;
    return None;
  }

  /** Whatever the firmware map was, the normalised list passes the handoff validation. */
  lemma RunsPassValidation(input: seq<Descriptor>)
    requires ValidMap(input)
    ensures MapOk(Runs(input))
  {
    RunsCanonical(input);
    var runs := Runs(input);
    forall i, j | 0 <= i < j < |runs| ensures RangeEnd(runs[i]) <= runs[j].start {
      EarlierEndsBefore(runs, i, j);
    }
  }
}
