/** What a launch policy says and where each of its bytes lies, told without the codec. */
module PolicyLayout {
  import opened Outcome
  import opened ByteStrings
  import opened ArchivePaths
  import opened LittleEndian
  import opened LaunchPolicy

  // ---- What a policy may say -------------------------------------------------------------

  /** "system/wyrmsh". */
  ghost predicate IsShell(path: Bytes) {
    |path| == 13 && forall i :: 0 <= i < 13 ==> path[i] == "system/wyrmsh"[i] as int
  }

  /** A relative ASCII path of at most 256 bytes without empty, `.` or `..` components. */
  ghost predicate PlainPath(path: Bytes) {
    && 1 <= |path| <= 256 && (forall i :: 0 <= i < |path| ==> 1 <= path[i] <= 127)
    && !HasComponent(path, []) && !HasComponent(path, ['.' as int]) && !HasComponent(path, ['.' as int, '.' as int])
  }

  /** Ordinary jobs, the shell under its own profile once the format knows it, and recovery triggers in the latest. */
  ghost predicate MayStart(minor: nat, profile: nat, path: Bytes) {
    || (profile == 1 && minor <= 2 && (minor >= 1 ==> !IsShell(path)))
    || (profile == 2 && 1 <= minor <= 2 && IsShell(path))
    || (profile == 3 && minor == 2)
  }

  /** Some stream mode is allowed, and for the shell and recovery triggers exactly the one with three streams. */
  predicate MayStream(e: PolicyEntry) {
    && (e.noStreams || e.threeStreams)
    && (e.profile == 2 || e.profile == 3 ==> e.threeStreams && !e.noStreams)
  }

  ghost predicate NonZero(digest: Bytes) { exists i :: 0 <= i < |digest| && digest[i] != 0 }

  ghost predicate Launchable(minor: nat, e: PolicyEntry) {
    PlainPath(e.path) && e.abi == 2 && MayStart(minor, e.profile, e.path) && MayStream(e) && NonZero(e.digest)
  }

  /** One to 32 entries in strictly ascending path order, for a boot generation that is not zero. */
  ghost predicate Sensible(p: Policy) {
    && p.minor <= 2 && NonZero(p.generation) && 1 <= |p.entries| <= 32
    && (forall i :: 0 <= i < |p.entries| ==> Launchable(p.minor, p.entries[i]))
    && (forall i, j :: 0 <= i < j < |p.entries| ==> Less(p.entries[i].path, p.entries[j].path))
  }

  // ---- Where it says it ------------------------------------------------------------------

  ghost predicate ZeroAt(bytes: Bytes, from: nat, to: nat) {
    to <= |bytes| && forall i :: from <= i < to ==> bytes[i] == 0
  }

  /** The path bytes of the first `n` entries. */
  function PathBytes(entries: seq<PolicyEntry>, n: nat): nat
    requires n <= |entries|
  {
    if n == 0 then 0 else PathBytes(entries, n - 1) + |entries[n - 1].path|
  }

  /** The 64 bytes of a record; bit 0 of the modes is "no streams", bit 1 is "three streams". */
  ghost predicate RecordLaid(bytes: Bytes, at: nat, offset: nat, e: PolicyEntry) {
    && at + 64 <= |bytes|
    && U32At(bytes, at, offset) && U16At(bytes, at + 4, |e.path|) && U16At(bytes, at + 6, e.abi)
    && U16At(bytes, at + 8, e.profile)
    && bytes[at + 10] / 4 == 0 && (bytes[at + 10] % 2 == 1 <==> e.noStreams)
    && (bytes[at + 10] / 2 % 2 == 1 <==> e.threeStreams) && bytes[at + 11] == 0
    && U32At(bytes, at + 12, 1) && bytes[at + 16..at + 48] == e.digest && ZeroAt(bytes, at + 48, at + 64)
  }

  /** Record `index`, and its path at `offset` of the string area. */
  ghost predicate EntryLaid(bytes: Bytes, index: nat, strings: nat, offset: nat, e: PolicyEntry) {
    && RecordLaid(bytes, 64 + 64 * index, offset, e)
    && strings + offset + |e.path| <= |bytes| && bytes[strings + offset..strings + offset + |e.path|] == e.path
  }

  ghost predicate HeaderLaid(bytes: Bytes, minor: nat, count: nat, stringBytes: nat, generation: Bytes) {
    && 64 <= |bytes| == 64 + 64 * count + stringBytes
    && bytes[..4] == ['W' as int, 'R' as int, 'J' as int, 'P' as int]
    && U16At(bytes, 4, 1) && U16At(bytes, 6, minor) && U16At(bytes, 8, 64) && U16At(bytes, 10, 64)
    && U16At(bytes, 12, count) && U16At(bytes, 14, 0) && U32At(bytes, 16, |bytes|) && U32At(bytes, 20, stringBytes)
    && bytes[24..56] == generation && ZeroAt(bytes, 56, 64)
  }

  ghost predicate PolicyLaid(bytes: Bytes, p: Policy) {
    var count := |p.entries|;
    && HeaderLaid(bytes, p.minor, count, PathBytes(p.entries, count), p.generation)
    && forall i {:trigger p.entries[i]} :: 0 <= i < count ==>
         EntryLaid(bytes, i, 64 + 64 * count, PathBytes(p.entries, i), p.entries[i])
  }

  // ---- The codec agrees ------------------------------------------------------------------

  lemma ZeroExact(bytes: Bytes, from: nat, to: nat)
    requires from <= to <= |bytes|
    ensures ZeroAt(bytes, from, to) <==> bytes[from..to] == Zeros(to - from)
  {
    if bytes[from..to] == Zeros(to - from) {
      forall i | from <= i < to ensures bytes[i] == 0 { assert bytes[from..to][i - from] == 0; }
    }
  }

  lemma NonZeroExact(d: Bytes)
    requires |d| == 32
    ensures NonZero(d) <==> d != Zeros(32)
  {
  }

  lemma ShellExact(path: Bytes)
    ensures IsShell(path) <==> path == WYRMSH_PATH
  {
    if IsShell(path) {
      forall i | 0 <= i < 13 ensures path[i] == WYRMSH_PATH[i] { ShellLetter(i); }
    }
    if path == WYRMSH_PATH {
      forall i | 0 <= i < 13 ensures path[i] == "system/wyrmsh"[i] as int { ShellLetter(i); }
    }
  }

  lemma ShellLetter(i: nat)
    requires i < 13
    ensures WYRMSH_PATH[i] == "system/wyrmsh"[i] as int
  {
  }

  lemma PathExact(path: Bytes)
    ensures PlainPath(path) <==> PolicyPath(path)
  {
    if PlainPath(path) {
      forall i, j | 0 <= i <= j <= |path| && IsComponent(path, i, j) ensures GoodComponent(path[i..j]) {
        assert HasComponent(path, path[i..j]);
      }
    }
  }

  lemma LaunchableExact(minor: nat, e: PolicyEntry)
    ensures Launchable(minor, e) <==> GoodEntry(minor, e)
  {
    PathExact(e.path);
    ShellExact(e.path);
    NonZeroExact(e.digest);
  }

  lemma RecordLaidExact(bytes: Bytes, at: nat, offset: nat, e: PolicyEntry)
    requires e.abi == 2
    ensures RecordLaid(bytes, at, offset, e) <==> RecordNumbers(bytes, at, offset, e)
  {
    if at + 64 <= |bytes| {
      U32Exact(bytes, at, offset);
      U16Exact(bytes, at + 4, |e.path|);
      U16Exact(bytes, at + 6, 2);
      U16Exact(bytes, at + 8, e.profile);
      ModesExact(bytes, at + 10, e);
      U32Exact(bytes, at + 12, 1);
      ZeroExact(bytes, at + 48, at + 64);
    }
  }

  /** An entry is laid out exactly where its record and its path are in place. */
  lemma EntryLaidExact(bytes: Bytes, index: nat, strings: nat, offset: nat, e: PolicyEntry)
    requires offset < 0x1_0000_0000 && |e.path| < 0x1_0000 && e.abi == 2
    ensures EntryLaid(bytes, index, strings, offset, e) <==>
            TextAt(bytes, RecordStart(index), RecordText(offset, e)) && TextAt(bytes, strings + offset, e.path)
  {
    RecordIsLaid(bytes, RecordStart(index), offset, e);
    PathIsLaid(bytes, strings + offset, e.path);
  }

  lemma RecordIsLaid(bytes: Bytes, at: nat, offset: nat, e: PolicyEntry)
    requires offset < 0x1_0000_0000 && |e.path| < 0x1_0000 && e.abi == 2
    ensures RecordLaid(bytes, at, offset, e) <==> TextAt(bytes, at, RecordText(offset, e))
  {
    RecordLaidExact(bytes, at, offset, e);
    RecordExact(bytes, at, offset, e);
  }

  lemma PathIsLaid(bytes: Bytes, place: nat, path: Bytes)
    ensures TextAt(bytes, place, path) <==>
            place + |path| <= |bytes| && bytes[place..place + |path|] == path
  {
    if place + |path| <= |bytes| { TextAtSlice(bytes, place, path); }
  }

  lemma ModesExact(bytes: Bytes, at: nat, e: PolicyEntry)
    requires at + 2 <= |bytes|
    ensures NumberAt(bytes, at, 2) == StreamModes(e) <==>
            && bytes[at] / 4 == 0 && (bytes[at] % 2 == 1 <==> e.noStreams)
            && (bytes[at] / 2 % 2 == 1 <==> e.threeStreams) && bytes[at + 1] == 0
  {
    U16Exact(bytes, at, StreamModes(e));
  }

  lemma {:induction false} PathBytesExact(entries: seq<PolicyEntry>, n: nat)
    requires n <= |entries|
    ensures PathBytes(entries, n) == |PathsText(entries[..n])|
  {
    if n > 0 {
      PathBytesExact(entries, n - 1);
      assert entries[..n][..n - 1] == entries[..n - 1];
    }
  }

  /** Entry `i` is admitted, in order and in place. */
  ghost predicate InPlace(bytes: Bytes, minor: nat, strings: nat, entries: seq<PolicyEntry>, i: nat)
    requires i < |entries|
  {
    && GoodEntry(minor, entries[i]) && (i > 0 ==> Less(entries[i - 1].path, entries[i].path))
    && TextAt(bytes, RecordStart(i), RecordText(PathBytes(entries, i), entries[i]))
    && TextAt(bytes, strings + PathBytes(entries, i), entries[i].path)
  }

  ghost predicate InPlaceUpTo(bytes: Bytes, minor: nat, strings: nat, entries: seq<PolicyEntry>, n: nat)
    requires n <= |entries|
  {
    forall i {:trigger InPlace(bytes, minor, strings, entries, i)} ::
      0 <= i < n ==> InPlace(bytes, minor, strings, entries, i)
  }

  lemma InPlaceNext(bytes: Bytes, minor: nat, strings: nat, entries: seq<PolicyEntry>, n: nat)
    requires n < |entries|
    ensures EntriesAt(bytes, minor, strings, entries[..n + 1]) <==>
            EntriesAt(bytes, minor, strings, entries[..n]) && InPlace(bytes, minor, strings, entries, n)
  {
    assert entries[..n + 1] == entries[..n] + [entries[n]];
    PathBytesExact(entries, n);
    SnocInPlace(bytes, minor, strings, entries, n, entries[..n], entries[n], PathBytes(entries, n));
  }

  lemma SnocInPlace(bytes: Bytes, minor: nat, strings: nat, entries: seq<PolicyEntry>, n: nat, front: seq<PolicyEntry>,
                    e: PolicyEntry, offset: nat)
    requires n < |entries| && front == entries[..n] && e == entries[n] && offset == PathBytes(entries, n)
    requires offset == |PathsText(front)|
    ensures EntriesAt(bytes, minor, strings, front + [e]) <==>
            EntriesAt(bytes, minor, strings, front) && InPlace(bytes, minor, strings, entries, n)
  {
    var place := strings + offset;
    var at, atFront := EntriesAt(bytes, minor, strings, front + [e]), EntriesAt(bytes, minor, strings, front);
    EntriesSnoc(bytes, minor, strings, front, e, offset, place);
    InPlaceIs(bytes, minor, strings, entries, n, front, e, offset, place);
  }

  lemma InPlaceIs(bytes: Bytes, minor: nat, strings: nat, entries: seq<PolicyEntry>, n: nat, front: seq<PolicyEntry>,
                  e: PolicyEntry, offset: nat, place: nat)
    requires n < |entries| && front == entries[..n] && e == entries[n] && offset == PathBytes(entries, n)
    requires place == strings + offset
    ensures InPlace(bytes, minor, strings, entries, n) <==>
            && GoodEntry(minor, e) && (front != [] ==> Less(front[|front| - 1].path, e.path))
            && TextAt(bytes, RecordStart(|front|), RecordText(offset, e)) && TextAt(bytes, place, e.path)
  {
  }

  lemma {:induction false} EntriesInPlace(bytes: Bytes, minor: nat, strings: nat, entries: seq<PolicyEntry>, n: nat)
    requires n <= |entries| && 64 <= |bytes| && strings <= |bytes|
    ensures EntriesAt(bytes, minor, strings, entries[..n]) <==> InPlaceUpTo(bytes, minor, strings, entries, n)
  {
    if n == 0 {
      NoEntries(bytes, minor, strings, entries[..0]);
    } else {
      EntriesInPlace(bytes, minor, strings, entries, n - 1);
      InPlaceNext(bytes, minor, strings, entries, n - 1);
      UpToNext(bytes, minor, strings, entries, n - 1);
    }
  }

  lemma NoEntries(bytes: Bytes, minor: nat, strings: nat, none: seq<PolicyEntry>)
    requires none == [] && 64 <= |bytes| && strings <= |bytes|
    ensures EntriesAt(bytes, minor, strings, none)
  {
  }

  lemma UpToNext(bytes: Bytes, minor: nat, strings: nat, entries: seq<PolicyEntry>, n: nat)
    requires n < |entries|
    ensures InPlaceUpTo(bytes, minor, strings, entries, n + 1) <==>
            InPlaceUpTo(bytes, minor, strings, entries, n) && InPlace(bytes, minor, strings, entries, n)
  {
  }

  lemma HeaderLaidExact(bytes: Bytes, minor: nat, count: nat, stringBytes: nat, generation: Digest)
    ensures HeaderLaid(bytes, minor, count, stringBytes, generation) <==>
            HeaderNumbers(bytes, minor, count, stringBytes, generation) && |bytes| == StringsOffset(count) + stringBytes
  {
    if 64 <= |bytes| {
      U16Exact(bytes, 4, 1);
      U16Exact(bytes, 6, minor);
      U16Exact(bytes, 8, 64);
      U16Exact(bytes, 10, 64);
      U16Exact(bytes, 12, count);
      U16Exact(bytes, 14, 0);
      U32Exact(bytes, 16, |bytes|);
      U32Exact(bytes, 20, stringBytes);
      ZeroExact(bytes, 56, 64);
    }
  }

  /** Entry `i` of a policy, read off the bytes. */
  ghost predicate LaidAt(bytes: Bytes, p: Policy, i: nat)
    requires i < |p.entries|
  {
    && Launchable(p.minor, p.entries[i]) && (i > 0 ==> Less(p.entries[i - 1].path, p.entries[i].path))
    && EntryLaid(bytes, i, 64 + 64 * |p.entries|, PathBytes(p.entries, i), p.entries[i])
  }

  ghost predicate AllLaid(bytes: Bytes, p: Policy) {
    forall i {:trigger LaidAt(bytes, p, i)} :: 0 <= i < |p.entries| ==> LaidAt(bytes, p, i)
  }

  lemma LaidAtExact(bytes: Bytes, p: Policy, i: nat)
    requires i < |p.entries| <= 32 && AllGood(p.minor, p.entries)
    ensures LaidAt(bytes, p, i) <==> InPlace(bytes, p.minor, StringsOffset(|p.entries|), p.entries, i)
  {
    assert GoodEntry(p.minor, p.entries[i]);
    PathBytesSmall(p.minor, p.entries, i);
    var e, offset, strings := p.entries[i], PathBytes(p.entries, i), StringsOffset(|p.entries|);
    OneLaid(bytes, p.minor, i, strings, offset, e);
    LaidAtIs(bytes, p, i, e, offset, strings);
    InPlaceIs(bytes, p.minor, strings, p.entries, i, p.entries[..i], e, offset, strings + offset);
  }

  lemma OneLaid(bytes: Bytes, minor: nat, i: nat, strings: nat, offset: nat, e: PolicyEntry)
    requires GoodEntry(minor, e) && offset < 0x1_0000_0000
    ensures Launchable(minor, e)
    ensures EntryLaid(bytes, i, strings, offset, e) <==>
            TextAt(bytes, RecordStart(i), RecordText(offset, e)) && TextAt(bytes, strings + offset, e.path)
  {
    LaunchableExact(minor, e);
    EntryLaidExact(bytes, i, strings, offset, e);
  }

  lemma LaidAtIs(bytes: Bytes, p: Policy, i: nat, e: PolicyEntry, offset: nat, strings: nat)
    requires i < |p.entries| && e == p.entries[i] && offset == PathBytes(p.entries, i)
    requires strings == StringsOffset(|p.entries|)
    ensures LaidAt(bytes, p, i) <==>
            && Launchable(p.minor, e)
            && (p.entries[..i] != [] ==> Less(p.entries[..i][|p.entries[..i]| - 1].path, e.path))
            && EntryLaid(bytes, i, strings, offset, e)
  {
  }

  lemma AllLaidExact(bytes: Bytes, p: Policy)
    requires |p.entries| <= 32 && 64 + 64 * |p.entries| <= |bytes|
    ensures AllLaid(bytes, p) <==> EntriesAt(bytes, p.minor, StringsOffset(|p.entries|), p.entries)
  {
    var strings, n := StringsOffset(|p.entries|), |p.entries|;
    assert p.entries[..n] == p.entries;
    EntriesInPlace(bytes, p.minor, strings, p.entries, n);
    if AllLaid(bytes, p) {
      forall i | 0 <= i < n ensures GoodEntry(p.minor, p.entries[i]) {
        assert LaidAt(bytes, p, i);
        LaunchableExact(p.minor, p.entries[i]);
      }
    }
    if AllGood(p.minor, p.entries) {
      forall i | 0 <= i < n ensures LaidAt(bytes, p, i) <==> InPlace(bytes, p.minor, strings, p.entries, i) {
        LaidAtExact(bytes, p, i);
      }
    }
  }

  lemma {:induction false} PathBytesSmall(minor: nat, entries: seq<PolicyEntry>, n: nat)
    requires n <= |entries| <= 32 && forall i :: 0 <= i < |entries| ==> GoodEntry(minor, entries[i])
    ensures PathBytes(entries, n) <= 256 * n
  {
    if n > 0 { PathBytesSmall(minor, entries, n - 1); }
  }

  lemma {:induction false} AscendingPairs(entries: seq<PolicyEntry>, i: nat, j: nat)
    requires i < j < |entries| && forall k :: 0 < k < |entries| ==> Less(entries[k - 1].path, entries[k].path)
    ensures Less(entries[i].path, entries[j].path)
    decreases j
  {
    if i < j - 1 {
      AscendingPairs(entries, i, j - 1);
      LessTransitive(entries[i].path, entries[j - 1].path, entries[j].path);
    }
  }

  ghost predicate Outer(bytes: Bytes, p: Policy) {
    && p.minor <= 2 && NonZero(p.generation) && 1 <= |p.entries| <= 32
    && HeaderLaid(bytes, p.minor, |p.entries|, PathBytes(p.entries, |p.entries|), p.generation)
  }

  lemma SensibleIsLaid(bytes: Bytes, p: Policy)
    requires Sensible(p) && PolicyLaid(bytes, p)
    ensures Outer(bytes, p) && AllLaid(bytes, p)
  {
    forall i | 0 <= i < |p.entries| ensures LaidAt(bytes, p, i) {
      assert p.entries[i] == p.entries[i];
    }
  }

  lemma LaidIsSensible(bytes: Bytes, p: Policy)
    requires Outer(bytes, p) && AllLaid(bytes, p)
    ensures Sensible(p) && PolicyLaid(bytes, p)
  {
    LaidEntries(bytes, p);
    LaidAscends(p.entries);
  }

  lemma LaidEntries(bytes: Bytes, p: Policy)
    requires AllLaid(bytes, p)
    ensures forall i :: 0 <= i < |p.entries| ==> Launchable(p.minor, p.entries[i])
    ensures forall i {:trigger p.entries[i]} :: 0 < i < |p.entries| ==> Less(p.entries[i - 1].path, p.entries[i].path)
    ensures forall i {:trigger p.entries[i]} :: 0 <= i < |p.entries| ==>
              EntryLaid(bytes, i, 64 + 64 * |p.entries|, PathBytes(p.entries, i), p.entries[i])
  {
    forall i {:trigger p.entries[i]} | 0 <= i < |p.entries|
      ensures Launchable(p.minor, p.entries[i]) && (i > 0 ==> Less(p.entries[i - 1].path, p.entries[i].path))
      ensures EntryLaid(bytes, i, 64 + 64 * |p.entries|, PathBytes(p.entries, i), p.entries[i])
    {
      LaidEntry(bytes, p, i);
    }
  }

  lemma LaidEntry(bytes: Bytes, p: Policy, i: nat)
    requires i < |p.entries| && AllLaid(bytes, p)
    ensures Launchable(p.minor, p.entries[i]) && (i > 0 ==> Less(p.entries[i - 1].path, p.entries[i].path))
    ensures EntryLaid(bytes, i, 64 + 64 * |p.entries|, PathBytes(p.entries, i), p.entries[i])
  {
    assert LaidAt(bytes, p, i);
  }

  lemma LaidAscends(entries: seq<PolicyEntry>)
    requires forall i {:trigger entries[i]} :: 0 < i < |entries| ==> Less(entries[i - 1].path, entries[i].path)
    ensures forall i, j :: 0 <= i < j < |entries| ==> Less(entries[i].path, entries[j].path)
  {
    forall i, j | 0 <= i < j < |entries| ensures Less(entries[i].path, entries[j].path) {
      AscendingPairs(entries, i, j);
    }
  }

  /** Bytes are read as a policy exactly when the policy makes sense and the bytes say it, each at its place. */
  lemma PolicyExact(bytes: Bytes, p: Policy)
    ensures Parsed(bytes) == Ok(p) <==> Sensible(p) && PolicyLaid(bytes, p)
  {
    var n := |p.entries|;
    ParsedExact(bytes, p);
    if Sensible(p) && PolicyLaid(bytes, p) { SensibleIsLaid(bytes, p); }
    if Outer(bytes, p) && AllLaid(bytes, p) { LaidIsSensible(bytes, p); }
    NonZeroExact(p.generation);
    PathBytesExact(p.entries, n);
    assert p.entries[..n] == p.entries;
    HeaderLaidExact(bytes, p.minor, n, PathBytes(p.entries, n), p.generation);
    if n <= 32 && 64 + 64 * n <= |bytes| { AllLaidExact(bytes, p); }
  }

  /** The policies that can be encoded are those that make sense, and their encoding says them. */
  lemma EncodingExact(p: Policy)
    ensures LaunchPolicy.Admissible(p) <==> Sensible(p)
    ensures Sensible(p) ==> PolicyLaid(PolicyText(p), p)
  {
    if LaunchPolicy.Admissible(p) {
      ParseIsInverse(PolicyText(p), p);
      PolicyExact(PolicyText(p), p);
    }
    if Sensible(p) { SensibleIsAdmissible(p); }
  }

  lemma SensibleIsAdmissible(p: Policy)
    requires Sensible(p)
    ensures LaunchPolicy.Admissible(p)
  {
    NonZeroExact(p.generation);
    forall i | 0 <= i < |p.entries| ensures GoodEntry(p.minor, p.entries[i]) { LaunchableExact(p.minor, p.entries[i]); }
  }
}
