/** Little-endian numbers and overwriting parts of a byte string. */
module LittleEndian {
  import opened ByteStrings

  lemma TextAtPrefix(bytes: Bytes, n: nat, at: nat, text: Bytes)
    requires n <= |bytes| && TextAt(bytes, at, text) && at + |text| <= n
    ensures TextAt(bytes[..n], at, text)
  {
    TextAtSlice(bytes, at, text);
    TextAtSlice(bytes[..n], at, text);
    assert bytes[..n][at..at + |text|] == bytes[at..at + |text|];
  }

  /** A byte string that consists of three parts. */
  lemma ThreeParts(bytes: Bytes, a: Bytes, b: Bytes, c: Bytes, second: nat, third: nat)
    requires |bytes| == |a| + |b| + |c| && second == |a| && third == |a| + |b|
    ensures bytes == a + b + c <==> TextAt(bytes, 0, a) && TextAt(bytes, second, b) && TextAt(bytes, third, c)
  {
    TextAtParts(bytes, 0, a + b + c, a + b, c, third);
    TextAtParts(bytes, 0, a + b, a, b, second);
    TextAtSlice(bytes, 0, a + b + c);
    assert bytes[0..|bytes|] == bytes;
  }

  lemma TextAtFour(bytes: Bytes, at: nat, a: Bytes, b: Bytes, c: Bytes, d: Bytes)
    ensures TextAt(bytes, at, a + b + c + d) <==>
            && TextAt(bytes, at, a) && TextAt(bytes, at + |a|, b) && TextAt(bytes, at + |a| + |b|, c)
            && TextAt(bytes, at + |a| + |b| + |c|, d)
  {
    TextAtSplit(bytes, at, a + b + c, d);
    TextAtSplit(bytes, at, a + b, c);
    TextAtSplit(bytes, at, a, b);
  }

  /** The `n` low bytes of `v`, least significant first. */
  function Little(v: nat, n: nat): (s: Bytes)
    ensures |s| == n
  {
    if n == 0 then [] else [v % 256] + Little(v / 256, n - 1)
  }

  function Number(s: Bytes): nat {
    if s == [] then 0 else s[0] + 256 * Number(s[1..])
  }

  function Pow256(n: nat): (p: nat)
    ensures p >= 1
  {
    if n == 0 then 1 else 256 * Pow256(n - 1)
  }

  /** Reading and writing a fixed-width number undo each other. */
  lemma {:induction false} NumberExact(s: Bytes, v: nat)
    ensures Number(s) == v <==> v < Pow256(|s|) && s == Little(v, |s|)
    decreases |s|
  {
    if s != [] {
      NumberExact(s[1..], v / 256);
      assert s == [s[0]] + s[1..];
      var text := [v % 256] + Little(v / 256, |s| - 1);
      assert text[0] == v % 256 && text[1..] == Little(v / 256, |s| - 1);
      assert v < Pow256(|s|) <==> v / 256 < Pow256(|s| - 1);
    }
  }

  /** The `n`-byte number at an offset. */
  function NumberAt(bytes: Bytes, at: nat, n: nat): nat
    requires at + n <= |bytes|
  {
    Number(bytes[at..at + n])
  }

  lemma NumberAtExact(bytes: Bytes, at: nat, n: nat, v: nat)
    requires at + n <= |bytes| && v < Pow256(n)
    ensures NumberAt(bytes, at, n) == v <==> TextAt(bytes, at, Little(v, n))
  {
    NumberExact(bytes[at..at + n], v);
    TextAtSlice(bytes, at, Little(v, n));
  }

  lemma NumberAtBounded(bytes: Bytes, at: nat, n: nat)
    requires at + n <= |bytes|
    ensures NumberAt(bytes, at, n) < Pow256(n)
  {
    NumberExact(bytes[at..at + n], NumberAt(bytes, at, n));
  }

  lemma Widths()
    ensures Pow256(2) == 0x1_0000 && Pow256(4) == 0x1_0000_0000
  {
    assert Pow256(1) == 256;
  }

  // ---- Numbers byte by byte --------------------------------------------------------------

  predicate U16At(bytes: Bytes, at: nat, v: int) {
    at + 2 <= |bytes| && var a: int, b: int := bytes[at], bytes[at + 1]; a + 256 * b == v
  }

  predicate U32At(bytes: Bytes, at: nat, v: int) {
    && at + 4 <= |bytes|
    && var a: int, b: int, c: int, d: int := bytes[at], bytes[at + 1], bytes[at + 2], bytes[at + 3];
       a + 256 * b + 0x1_0000 * c + 0x100_0000 * d == v
  }

  predicate U64At(bytes: Bytes, at: nat, v: nat) {
    U32At(bytes, at, v % 0x1_0000_0000) && U32At(bytes, at + 4, v / 0x1_0000_0000)
  }

  lemma U16Exact(bytes: Bytes, at: nat, v: nat)
    requires at + 2 <= |bytes|
    ensures U16At(bytes, at, v) <==> NumberAt(bytes, at, 2) == v
  {
    var s := bytes[at..at + 2];
    assert s[1..][1..] == [];
    assert Number(s[1..]) == s[1];
  }

  lemma U32Exact(bytes: Bytes, at: nat, v: nat)
    requires at + 4 <= |bytes|
    ensures U32At(bytes, at, v) <==> NumberAt(bytes, at, 4) == v
  {
    var s := bytes[at..at + 4];
    var a, b, c := s[1..], s[2..], s[3..];
    assert a[1..] == b && b[1..] == c && c[1..] == [];
    assert Number(c) == s[3] && Number(b) == s[2] + 256 * Number(c) && Number(a) == s[1] + 256 * Number(b);
  }

  lemma U64Exact(bytes: Bytes, at: nat, v: nat)
    requires at + 8 <= |bytes|
    ensures U64At(bytes, at, v) <==> NumberAt(bytes, at, 8) == v
  {
    U32Exact(bytes, at, v % 0x1_0000_0000);
    U32Exact(bytes, at + 4, v / 0x1_0000_0000);
    Widths();
    NumberAtBounded(bytes, at, 4);
    EightIsTwice(bytes, at);
  }

  lemma EightIsTwice(bytes: Bytes, at: nat)
    requires at + 8 <= |bytes|
    ensures NumberAt(bytes, at, 8) == NumberAt(bytes, at, 4) + 0x1_0000_0000 * NumberAt(bytes, at + 4, 4)
  {
    Widths();
    NumberJoins(bytes[at..at + 4], bytes[at + 4..at + 8]);
    assert bytes[at..at + 4] + bytes[at + 4..at + 8] == bytes[at..at + 8];
  }

  lemma {:induction false} NumberJoins(a: Bytes, b: Bytes)
    ensures Number(a + b) == Number(a) + Pow256(|a|) * Number(b)
  {
    if a == [] {
      assert a + b == b;
    } else {
      NumberJoins(a[1..], b);
      assert (a + b)[1..] == a[1..] + b;
      assert 256 * (Pow256(|a| - 1) * Number(b)) == Pow256(|a|) * Number(b);
    }
  }

  // ---- Overwriting -----------------------------------------------------------------------

  /** `bytes` with `text` written over offset `at`. */
  function Overwrite(bytes: Bytes, at: nat, text: Bytes): (r: Bytes)
    requires at + |text| <= |bytes|
    ensures |r| == |bytes|
  {
    bytes[..at] + text + bytes[at + |text|..]
  }

  lemma OverwriteHits(bytes: Bytes, at: nat, text: Bytes)
    requires at + |text| <= |bytes|
    ensures TextAt(Overwrite(bytes, at, text), at, text)
  {
    TextAtSlice(Overwrite(bytes, at, text), at, text);
  }

  lemma OverwriteMisses(bytes: Bytes, at: nat, text: Bytes, other: nat, kept: Bytes)
    requires at + |text| <= |bytes| && TextAt(bytes, other, kept)
    requires other + |kept| <= at || at + |text| <= other
    ensures TextAt(Overwrite(bytes, at, text), other, kept)
  {
    var r := Overwrite(bytes, at, text);
    assert forall i :: 0 <= i < |r| && !(at <= i < at + |text|) ==> r[i] == bytes[i];
    assert r[other..other + |kept|] == bytes[other..other + |kept|];
    TextAtSlice(bytes, other, kept);
    TextAtSlice(r, other, kept);
  }

  /** Writes `text` into the buffer. */
  method Put(buffer: array<Byte>, at: nat, text: Bytes)
    requires at + |text| <= buffer.Length
    modifies buffer
    ensures buffer[..] == Overwrite(old(buffer[..]), at, text)
  {
    ghost var was := buffer[..];
    for i := 0 to |text|
      invariant forall j :: 0 <= j < i ==> buffer[at + j] == text[j]
      invariant forall j :: 0 <= j < buffer.Length && !(at <= j < at + i) ==> buffer[j] == was[j]
    {
      buffer[at + i] := text[i];
    }
    assert forall j :: at <= j < at + |text| ==> buffer[j] == text[j - at];
  }

  /** Three texts in place, the second growing to its right. */
  lemma GrowMiddle(bytes: Bytes, head: Bytes, middle: Bytes, more: Bytes, place: nat, at: nat, tail: Bytes)
    requires TextAt(bytes, 0, head) && TextAt(bytes, |head|, middle) && TextAt(bytes, at, tail)
    requires place == |head| + |middle| && place + |more| <= at
    ensures var r := Overwrite(bytes, place, more);
            TextAt(r, 0, head) && TextAt(r, |head|, middle + more) && TextAt(r, at, tail)
  {
    OverwriteHits(bytes, place, more);
    OverwriteMisses(bytes, place, more, 0, head);
    OverwriteMisses(bytes, place, more, |head|, middle);
    OverwriteMisses(bytes, place, more, at, tail);
    TextAtParts(Overwrite(bytes, place, more), |head|, middle + more, middle, more, place);
  }

  /** Three texts in place, the last growing to its right. */
  lemma GrowLast(bytes: Bytes, head: Bytes, middle: Bytes, at: nat, tail: Bytes, more: Bytes, place: nat)
    requires TextAt(bytes, 0, head) && TextAt(bytes, |head|, middle) && TextAt(bytes, at, tail)
    requires |head| + |middle| <= at && place == at + |tail| && place + |more| <= |bytes|
    ensures var r := Overwrite(bytes, place, more);
            TextAt(r, 0, head) && TextAt(r, |head|, middle) && TextAt(r, at, tail + more)
  {
    OverwriteHits(bytes, place, more);
    OverwriteMisses(bytes, place, more, 0, head);
    OverwriteMisses(bytes, place, more, |head|, middle);
    OverwriteMisses(bytes, place, more, at, tail);
    TextAtParts(Overwrite(bytes, place, more), at, tail + more, tail, more, place);
  }

  lemma OverwriteTail(bytes: Bytes, at: nat, text: Bytes, from: nat)
    requires at + |text| <= from <= |bytes|
    ensures Overwrite(bytes, at, text)[from..] == bytes[from..]
  {
  }
}
