/** The bytes of a `cpio newc` record, field by field at fixed offsets, as other tools read them. */
module ArchiveLayout {
  import opened Outcome
  import opened Words
  import opened ByteStrings
  import opened ArchivePaths
  import opened ArchiveRecords

  // ---- Numbers ---------------------------------------------------------------------------

  /** The byte is the hexadecimal digit `d`, in either case. */
  predicate IsDigit(b: Byte, d: nat)
    requires d < 16
  {
    b == "0123456789abcdef"[d] as int || b == "0123456789ABCDEF"[d] as int
  }

  /** Digit `i` of eight. */
  ghost predicate DigitAt(bytes: Bytes, at: nat, v: nat, i: nat) {
    i < 8 && at + i < |bytes| && IsDigit(bytes[at + i], v / Pow16(7 - i) % 16)
  }

  /** Eight digits from `at` spell `v`, the most significant first. */
  ghost predicate Number(bytes: Bytes, at: nat, v: nat) {
    at + 8 <= |bytes| && v < 0x1_0000_0000
    && forall i {:trigger DigitAt(bytes, at, v, i)} :: 0 <= i < 8 ==> DigitAt(bytes, at, v, i)
  }

  lemma DigitIs(b: Byte, d: nat)
    requires d < 16
    ensures IsDigit(b, d) <==> LowerByte(b) == DigitByte(d)
  {
  }

  lemma DigitIsSpelled(bytes: Bytes, at: nat, v: nat, i: nat)
    requires at + 8 <= |bytes| && i < 8
    ensures DigitAt(bytes, at, v, i) <==> Lower(bytes[at..at + 8])[i] == Hex(v, 8)[i]
  {
    HexAt(v, 8, i);
    DigitIs(bytes[at + i], v / Pow16(7 - i) % 16);
  }

  lemma NumberIsValue(bytes: Bytes, at: nat, v: nat)
    requires at + 8 <= |bytes|
    ensures Number(bytes, at, v) <==> HexValue(bytes[at..at + 8]) == Some(v)
  {
    var lower, text := Lower(bytes[at..at + 8]), Hex(v, 8);
    FieldExact(bytes[at..at + 8], v);
    if Number(bytes, at, v) {
      forall i | 0 <= i < 8 ensures lower[i] == text[i] {
        assert DigitAt(bytes, at, v, i);
        DigitIsSpelled(bytes, at, v, i);
      }
    }
    if lower == text {
      forall i | 0 <= i < 8 ensures DigitAt(bytes, at, v, i) {
        DigitIsSpelled(bytes, at, v, i);
      }
    }
  }

  // ---- Modes -----------------------------------------------------------------------------

  /** Permission bits of a mode word: `who` is 6 for the owner, 3 for the group and 0 for others. */
  predicate Readable(mode: nat, who: nat) { mode / Pow2(who + 2) % 2 == 1 }
  predicate Writable(mode: nat, who: nat) { mode / Pow2(who + 1) % 2 == 1 }
  predicate Runnable(mode: nat, who: nat) { mode / Pow2(who) % 2 == 1 }

  /** A regular file, without the set-id and sticky bits, which everyone may read, nobody may write, and everyone or
      nobody may run. */
  predicate FileMode(mode: nat, executable: bool) {
    mode / 0x1000 == 8 && mode / 512 % 8 == 0
    && May(mode, 6, executable) && May(mode, 3, executable) && May(mode, 0, executable)
  }

  predicate May(mode: nat, who: nat, run: bool) {
    Readable(mode, who) && !Writable(mode, who) && (Runnable(mode, who) <==> run)
  }

  lemma BitSplits(m: nat, k: nat)
    ensures m / Pow2(k) == 2 * (m / Pow2(k + 1)) + m / Pow2(k) % 2
  {
    DivDiv(m, Pow2(k), 2);
  }

  lemma SmallPowers()
    ensures Pow2(0) == 1 && Pow2(1) == 2 && Pow2(2) == 4 && Pow2(3) == 8 && Pow2(4) == 16 && Pow2(5) == 32
    ensures Pow2(6) == 64 && Pow2(7) == 128 && Pow2(8) == 256 && Pow2(9) == 512
  {
  }

  /** Nine bits and what is above them make the number. */
  lemma NineBits(m: nat)
    ensures m == 512 * (m / 512) + 256 * (m / Pow2(8) % 2) + 128 * (m / Pow2(7) % 2) + 64 * (m / Pow2(6) % 2)
                 + 32 * (m / Pow2(5) % 2) + 16 * (m / Pow2(4) % 2) + 8 * (m / Pow2(3) % 2) + 4 * (m / Pow2(2) % 2)
                 + 2 * (m / Pow2(1) % 2) + m / Pow2(0) % 2
  {
    SmallPowers();
    BitSplits(m, 0);
    BitSplits(m, 1);
    BitSplits(m, 2);
    BitSplits(m, 3);
    BitSplits(m, 4);
    BitSplits(m, 5);
    BitSplits(m, 6);
    BitSplits(m, 7);
    BitSplits(m, 8);
  }

  /** The mode of an entry is the one word whose bits say so. */
  lemma ModeExact(mode: nat, executable: bool)
    ensures FileMode(mode, executable) <==> mode == ModeOf(executable)
  {
    NineBits(mode);
    if FileMode(mode, executable) {
      DivDiv(mode, 512, 8);
    }
    SmallPowers();
  }

  // ---- Records ---------------------------------------------------------------------------

  /** The next multiple of four. */
  function Up4(n: nat): nat { (n + 3) / 4 * 4 }

  lemma {:induction false} PaddingIsUp4(n: nat)
    ensures n + Padding(n) == Up4(n)
  {
    if n >= 4 { PaddingIsUp4(n - 4); }
  }

  ghost predicate ZeroFrom(bytes: Bytes, from: nat, to: nat) {
    to <= |bytes| && forall i :: from <= i < to ==> bytes[i] == 0
  }

  /** Magic, thirteen numbers, name with its terminator, and data, both padded with zeros to a multiple of four. */
  ghost predicate RecordAt(bytes: Bytes, start: nat, mode: nat, links: nat, name: Bytes, data: Bytes) {
    var nameEnd := start + 110 + |name|;
    var dataStart := start + Up4(110 + |name| + 1);
    && dataStart + Up4(|data|) <= |bytes|
    && bytes[start..start + 6] == ['0' as int, '7' as int, '0' as int, '7' as int, '0' as int, '1' as int]
    && Number(bytes, start + 6, 0)                                       // inode
    && Number(bytes, start + 14, mode)
    && Number(bytes, start + 22, 0) && Number(bytes, start + 30, 0)      // user, group
    && Number(bytes, start + 38, links)
    && Number(bytes, start + 46, 0)                                      // time
    && Number(bytes, start + 54, |data|)
    && Number(bytes, start + 62, 0) && Number(bytes, start + 70, 0)      // device of the file
    && Number(bytes, start + 78, 0) && Number(bytes, start + 86, 0)      // device that it is
    && Number(bytes, start + 94, |name| + 1)
    && Number(bytes, start + 102, 0)                                     // checksum
    && bytes[start + 110..nameEnd] == name && ZeroFrom(bytes, nameEnd, dataStart)
    && bytes[dataStart..dataStart + |data|] == data && ZeroFrom(bytes, dataStart + |data|, dataStart + Up4(|data|))
  }

  /** A file of the archive. */
  ghost predicate FileAt(bytes: Bytes, start: nat, e: Entry) {
    exists mode: nat :: FileMode(mode, e.executable) && RecordAt(bytes, start, mode, 1, e.name, e.data)
  }

  /** Where the record after one with these sizes begins. */
  function RecordEnd(start: nat, nameLength: nat, dataLength: nat): nat {
    start + Up4(110 + nameLength + 1) + Up4(dataLength)
  }

  lemma SizeIsUp4(start: nat, nameLength: nat, dataLength: nat)
    ensures start + RecordSize(nameLength, dataLength) == RecordEnd(start, nameLength, dataLength)
  {
    PaddingIsUp4(110 + nameLength + 1);
    PaddingIsUp4(dataLength);
  }

  /** The thirteen numbers of a header. */
  ghost predicate HeaderAt(bytes: Bytes, start: nat, mode: nat, links: nat, fileSize: nat, nameSize: nat) {
    && Number(bytes, start + 6, 0) && Number(bytes, start + 14, mode)
    && Number(bytes, start + 22, 0) && Number(bytes, start + 30, 0) && Number(bytes, start + 38, links)
    && Number(bytes, start + 46, 0) && Number(bytes, start + 54, fileSize)
    && Number(bytes, start + 62, 0) && Number(bytes, start + 70, 0)
    && Number(bytes, start + 78, 0) && Number(bytes, start + 86, 0)
    && Number(bytes, start + 94, nameSize) && Number(bytes, start + 102, 0)
  }

  /** Field `k` of the header is the number at its offset. */
  ghost predicate FieldIs(bytes: Bytes, start: nat, k: nat, v: nat) { Number(bytes, start + 6 + 8 * k, v) }

  lemma FieldsAre(bytes: Bytes, start: nat, fields: seq<nat>)
    requires start + HEADER_SIZE <= |bytes| && |fields| == 13
    ensures Numbers(bytes, start, fields) <==>
            && FieldIs(bytes, start, 0, fields[0]) && FieldIs(bytes, start, 1, fields[1])
            && FieldIs(bytes, start, 2, fields[2]) && FieldIs(bytes, start, 3, fields[3])
            && FieldIs(bytes, start, 4, fields[4]) && FieldIs(bytes, start, 5, fields[5])
            && FieldIs(bytes, start, 6, fields[6]) && FieldIs(bytes, start, 7, fields[7])
            && FieldIs(bytes, start, 8, fields[8]) && FieldIs(bytes, start, 9, fields[9])
            && FieldIs(bytes, start, 10, fields[10]) && FieldIs(bytes, start, 11, fields[11])
            && FieldIs(bytes, start, 12, fields[12])
  {
    forall k {:trigger fields[k]} | 0 <= k < 13
      ensures FieldIs(bytes, start, k, fields[k]) <==> HexValue(FieldAt(bytes, start, k)) == Some(fields[k])
    {
      NumberIsValue(bytes, start + 6 + 8 * k, fields[k]);
    }
  }

  lemma HeaderExact(bytes: Bytes, start: nat, mode: nat, links: nat, fileSize: nat, nameSize: nat)
    requires start + HEADER_SIZE <= |bytes|
    ensures HeaderAt(bytes, start, mode, links, fileSize, nameSize) <==>
            Numbers(bytes, start, FieldsOf(mode, links, fileSize, nameSize))
  {
    FieldsAre(bytes, start, FieldsOf(mode, links, fileSize, nameSize));
    FieldPlace(bytes, start, 0, 0, start + 6);
    FieldPlace(bytes, start, 1, mode, start + 14);
    FieldPlace(bytes, start, 2, 0, start + 22);
    FieldPlace(bytes, start, 3, 0, start + 30);
    FieldPlace(bytes, start, 4, links, start + 38);
    FieldPlace(bytes, start, 5, 0, start + 46);
    FieldPlace(bytes, start, 6, fileSize, start + 54);
    FieldPlace(bytes, start, 7, 0, start + 62);
    FieldPlace(bytes, start, 8, 0, start + 70);
    FieldPlace(bytes, start, 9, 0, start + 78);
    FieldPlace(bytes, start, 10, 0, start + 86);
    FieldPlace(bytes, start, 11, nameSize, start + 94);
    FieldPlace(bytes, start, 12, 0, start + 102);
  }

  lemma FieldPlace(bytes: Bytes, start: nat, k: nat, v: nat, at: nat)
    requires at == start + 6 + 8 * k
    ensures FieldIs(bytes, start, k, v) <==> Number(bytes, at, v)
  {
  }

  lemma BodyIsLaid(bytes: Bytes, start: nat, name: Bytes, data: Bytes)
    ensures BodyAt(bytes, start + HEADER_SIZE, name, data) <==>
            var nameEnd, dataStart := start + 110 + |name|, start + Up4(110 + |name| + 1);
            && dataStart + Up4(|data|) <= |bytes|
            && bytes[start + 110..nameEnd] == name && ZeroFrom(bytes, nameEnd, dataStart)
            && bytes[dataStart..dataStart + |data|] == data
            && ZeroFrom(bytes, dataStart + |data|, dataStart + Up4(|data|))
  {
    PaddingIsUp4(110 + |name| + 1);
    PaddingIsUp4(|data|);
    var nameEnd, dataStart := start + 110 + |name|, start + Up4(110 + |name| + 1);
    var next := dataStart + Up4(|data|);
    if next <= |bytes| {
      ZeroExact(bytes, nameEnd + 1, dataStart);
      ZeroExact(bytes, dataStart + |data|, next);
    }
  }

  lemma ZeroExact(bytes: Bytes, from: nat, to: nat)
    requires from <= to <= |bytes|
    ensures AllZero(bytes[from..to]) <==> ZeroFrom(bytes, from, to)
  {
    if AllZero(bytes[from..to]) {
      forall i | from <= i < to ensures bytes[i] == 0 {
        assert bytes[from..to][i - from] == 0;
      }
    }
  }

  /** A record's text is laid out at these offsets, and nothing else is. */
  lemma RecordExact(bytes: Bytes, start: nat, mode: nat, links: nat, name: Bytes, data: Bytes)
    ensures RecordAt(bytes, start, mode, links, name, data) <==>
            var fields := FieldsOf(mode, links, |data|, |name| + 1);
            Fit(fields) && Spells(bytes, start, fields, name, data)
  {
    var fields := FieldsOf(mode, links, |data|, |name| + 1);
    SpellsParts(bytes, start, fields, name, data);
    BodyIsLaid(bytes, start, name, data);
    if start + HEADER_SIZE <= |bytes| {
      HeaderExact(bytes, start, mode, links, |data|, |name| + 1);
      NumbersExact(bytes, start, fields);
    }
  }

  /** A file is laid out exactly where its text is spelled. */
  lemma FileExact(bytes: Bytes, start: nat, e: Entry)
    requires |e.data| < U32 && |e.name| + 1 < U32
    ensures FileAt(bytes, start, e) <==>
            Spells(bytes, start, FieldsOf(ModeOf(e.executable), 1, |e.data|, |e.name| + 1), e.name, e.data)
  {
    var mode := ModeOf(e.executable);
    ModeExact(mode, e.executable);
    RecordExact(bytes, start, mode, 1, e.name, e.data);
    if FileAt(bytes, start, e) {
      var m: nat :| FileMode(m, e.executable) && RecordAt(bytes, start, m, 1, e.name, e.data);
      ModeExact(m, e.executable);
    }
  }

  /** The closing record. */
  ghost predicate EndAt(bytes: Bytes, start: nat) {
    RecordAt(bytes, start, 0, 0, seq(10, i requires 0 <= i < 10 => "TRAILER!!!"[i] as int), [])
  }

  lemma EndExact(bytes: Bytes, start: nat)
    ensures EndAt(bytes, start) <==>
            Spells(bytes, start, FieldsOf(0, 0, 0, |TRAILER_NAME| + 1), TRAILER_NAME, [])
  {
    assert seq(10, i requires 0 <= i < 10 => "TRAILER!!!"[i] as int) == TRAILER_NAME;
    RecordExact(bytes, start, 0, 0, TRAILER_NAME, []);
  }

  /** From `start` to the end of the bytes lie the files one after the other, then the closing record. */
  ghost predicate LaidFrom(bytes: Bytes, start: nat, entries: seq<Entry>)
    decreases |entries|
  {
    if entries == [] then EndAt(bytes, start) && RecordEnd(start, 10, 0) == |bytes|
    else
      && FileAt(bytes, start, entries[0])
      && LaidFrom(bytes, RecordEnd(start, |entries[0].name|, |entries[0].data|), entries[1..])
  }
}
