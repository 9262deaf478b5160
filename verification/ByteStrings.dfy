/** Byte strings, their bytewise order, and the eight-digit hexadecimal fields of `newc` headers. */
module ByteStrings {
  import opened Outcome

  type Byte = b: int | 0 <= b < 256
  type Bytes = seq<Byte>

  function Zeros(n: nat): (z: Bytes)
    ensures |z| == n && forall i :: 0 <= i < n ==> z[i] == 0
  {
    seq(n, _ => 0)
  }

  /** Bytes that follow `n` so that the next offset is a multiple of four. */
  function Padding(n: nat): (p: nat)
    ensures p < 4
  {
    if n == 0 then 0 else if n < 4 then 4 - n else Padding(n - 4)
  }

  lemma {:induction false} PaddingAligns(n: nat)
    ensures (n + Padding(n)) % 4 == 0
  {
    if n >= 4 {
      PaddingAligns(n - 4);
    }
  }

  // ---- Byte strings inside byte strings --------------------------------------------------

  ghost predicate SameAt(bytes: Bytes, at: nat, text: Bytes, i: int) {
    0 <= i < |text| && at + i < |bytes| && bytes[at + i] == text[i]
  }

  /** `text` lies in `bytes` at offset `at`. */
  ghost predicate TextAt(bytes: Bytes, at: nat, text: Bytes) {
    at + |text| <= |bytes|
      && forall i {:trigger SameAt(bytes, at, text, i)} :: 0 <= i < |text| ==> SameAt(bytes, at, text, i)
  }

  lemma TextAtSlice(bytes: Bytes, at: nat, text: Bytes)
    requires at + |text| <= |bytes|
    ensures TextAt(bytes, at, text) <==> bytes[at..at + |text|] == text
  {
    var slice := bytes[at..at + |text|];
    assert forall i :: 0 <= i < |text| ==> slice[i] == bytes[at + i];
    if TextAt(bytes, at, text) {
      forall i | 0 <= i < |text| ensures slice[i] == text[i] {
        assert SameAt(bytes, at, text, i);
      }
    }
    if slice == text {
      forall i | 0 <= i < |text| ensures SameAt(bytes, at, text, i) {
        assert slice[i] == text[i];
      }
    }
  }

  /** The same for a text that is known to consist of two parts. */
  lemma TextAtParts(bytes: Bytes, at: nat, whole: Bytes, a: Bytes, b: Bytes, next: nat)
    requires whole == a + b && next == at + |a|
    ensures TextAt(bytes, at, whole) <==> TextAt(bytes, at, a) && TextAt(bytes, next, b)
  {
    TextAtSplit(bytes, at, a, b);
  }

  lemma TextAtSplit(bytes: Bytes, at: nat, a: Bytes, b: Bytes)
    ensures TextAt(bytes, at, a + b) <==> TextAt(bytes, at, a) && TextAt(bytes, at + |a|, b)
  {
    var ab, next := a + b, at + |a|;
    if TextAt(bytes, at, ab) {
      forall i | 0 <= i < |a| ensures SameAt(bytes, at, a, i) {
        assert SameAt(bytes, at, ab, i);
      }
      forall i | 0 <= i < |b| ensures SameAt(bytes, next, b, i) {
        assert SameAt(bytes, at, ab, |a| + i);
      }
    }
    if TextAt(bytes, at, a) && TextAt(bytes, next, b) {
      forall i | 0 <= i < |ab| ensures SameAt(bytes, at, ab, i) {
        if i < |a| {
          assert SameAt(bytes, at, a, i);
        } else {
          assert SameAt(bytes, next, b, i - |a|);
        }
      }
    }
  }

  // ---- Order -----------------------------------------------------------------------------

  /** Bytewise lexicographic order. */
  predicate Less(a: Bytes, b: Bytes) {
    b != [] && (a == [] || a[0] < b[0] || (a[0] == b[0] && Less(a[1..], b[1..])))
  }

  lemma {:induction false} LessTotal(a: Bytes, b: Bytes)
    ensures (if Less(a, b) then 1 else 0) + (if Less(b, a) then 1 else 0) + (if a == b then 1 else 0) == 1
    decreases |a|
  {
    if a != [] && b != [] {
      LessTotal(a[1..], b[1..]);
      assert a == [a[0]] + a[1..] && b == [b[0]] + b[1..];
    }
  }

  lemma {:induction false} LessTransitive(a: Bytes, b: Bytes, c: Bytes)
    requires Less(a, b) && Less(b, c)
    ensures Less(a, c)
    decreases |a|
  {
    if a != [] && a[0] == b[0] && b[0] == c[0] {
      LessTransitive(a[1..], b[1..], c[1..]);
    }
  }

  // ---- Hexadecimal fields ----------------------------------------------------------------

  function DigitValue(b: Byte): (r: Option<nat>)
    ensures r.Some? ==> r.value < 16
  {
    if 48 <= b <= 57 then Some(b - 48)
    else if 97 <= b <= 102 then Some(b - 97 + 10)
    else if 65 <= b <= 70 then Some(b - 65 + 10)
    else None
  }

  function DigitByte(d: nat): Byte
    requires d < 16
  {
    if d < 10 then 48 + d else 97 + d - 10
  }

  /** Lower case for the letters that are hexadecimal digits. */
  function LowerByte(b: Byte): Byte { if 65 <= b <= 70 then b + 32 else b }

  function Lower(s: Bytes): (r: Bytes)
    ensures |r| == |s| && forall i :: 0 <= i < |s| ==> r[i] == LowerByte(s[i])
  {
    seq(|s|, i requires 0 <= i < |s| => LowerByte(s[i]))
  }

  function Pow16(n: nat): (p: nat)
    ensures p >= 1
  {
    if n == 0 then 1 else 16 * Pow16(n - 1)
  }

  /** The number a field spells, if every byte is a digit of either case. */
  function HexValue(s: Bytes): (r: Option<nat>) {
    if s == [] then Some(0)
    else
      var front, last := HexValue(s[..|s| - 1]), DigitValue(s[|s| - 1]);
      if front.Some? && last.Some? then Some(front.value * 16 + last.value) else None
  }

  /** The low `n` digits of `v` in lower case. */
  function Hex(v: nat, n: nat): (s: Bytes)
    ensures |s| == n
  {
    if n == 0 then [] else Hex(v / 16, n - 1) + [DigitByte(v % 16)]
  }

  lemma DigitExact(b: Byte, d: nat)
    requires d < 16
    ensures DigitValue(b) == Some(d) <==> LowerByte(b) == DigitByte(d)
  {
  }

  /** A field spells `v` exactly when it is `v`'s lower-case spelling up to letter case. */
  lemma {:induction false} HexExact(s: Bytes, v: nat)
    ensures HexValue(s) == Some(v) <==> v < Pow16(|s|) && Lower(s) == Hex(v, |s|)
    decreases |s|
  {
    if s != [] {
      var n := |s| - 1;
      var front, last := s[..n], s[n];
      HexExact(front, v / 16);
      DigitExact(last, v % 16);
      assert Lower(s) == Lower(front) + [LowerByte(last)];
      assert v == v / 16 * 16 + v % 16;
      assert v < Pow16(|s|) <==> v / 16 < Pow16(n);
      var text := Hex(v / 16, n) + [DigitByte(v % 16)];
      assert text[..n] == Hex(v / 16, n) && text[n] == DigitByte(v % 16);
      assert (Lower(front) + [LowerByte(last)])[..n] == Lower(front);
      if HexValue(s).Some? {
        HexValueSplits(s);
      }
    }
  }

  lemma HexValueSplits(s: Bytes)
    requires s != [] && HexValue(s).Some?
    ensures HexValue(s[..|s| - 1]) == Some(HexValue(s).value / 16)
            && DigitValue(s[|s| - 1]) == Some(HexValue(s).value % 16)
  {
    var front, last := HexValue(s[..|s| - 1]), DigitValue(s[|s| - 1]);
    SixteenSplits(HexValue(s).value, front.value, last.value);
  }

  lemma SixteenSplits(v: nat, q: nat, d: nat)
    requires v == q * 16 + d && d < 16
    ensures v / 16 == q && v % 16 == d
  {
  }

  /** Digit `i` of the fixed-width spelling. */
  lemma {:induction false} HexAt(v: nat, n: nat, i: nat)
    requires i < n
    ensures Hex(v, n)[i] == DigitByte(v / Pow16(n - 1 - i) % 16)
    decreases n
  {
    if i < n - 1 {
      HexAt(v / 16, n - 1, i);
      DivideTwice(v, Pow16(n - 2 - i));
    }
  }

  lemma DivideTwice(v: nat, p: nat)
    requires p >= 1
    ensures v / 16 / p == v / (16 * p)
  {
    var q := v / 16 / p;
    var r := v / 16 % p;
    assert v / 16 == q * p + r;
    assert v == q * (16 * p) + (16 * r + v % 16);
    assert 16 * r + v % 16 < 16 * p;
    DivideUnique(v, 16 * p, q, 16 * r + v % 16);
  }

  lemma DivideUnique(v: nat, p: nat, q: nat, r: nat)
    requires p >= 1 && v == q * p + r && r < p
    ensures v / p == q
  {
    var q' := v / p;
    assert v == q' * p + v % p;
    assert q' < q ==> q * p >= (q' + 1) * p;
    assert q' > q ==> q' * p >= (q + 1) * p;
  }

  /** `hex_field`: the accumulator never leaves 64 bits on an eight-byte field. */
  method HexField(field: Bytes) returns (r: Option<nat>)
    requires |field| <= 8
    ensures r == HexValue(field)
    ensures r.Some? ==> r.value < 0x1_0000_0000
  {
    var value := 0;
    for i := 0 to |field|
      invariant HexValue(field[..i]) == Some(value) && value < Pow16(i)
    {
      var digit := DigitValue(field[i]);
      assert field[..i + 1][..i] == field[..i];
      if digit.None? {
        HexPrefix(field, i + 1);
        return None;
      }
      value := value * 16 + digit.value;
    }
    assert field[..|field|] == field;
    Pow16Bounded(|field|);
    return Some(value);
  }

  lemma Pow16Bounded(n: nat)
    requires n <= 8
    ensures Pow16(n) <= 0x1_0000_0000
  {
    assert Pow16(8) == 0x1_0000_0000;
    Pow16Grows(n, 8);
  }

  lemma {:induction false} Pow16Grows(n: nat, m: nat)
    requires n <= m
    ensures Pow16(n) <= Pow16(m)
    decreases m
  {
    if n < m {
      Pow16Grows(n, m - 1);
    }
  }

  /** A field whose prefix spells nothing spells nothing. */
  lemma {:induction false} HexPrefix(s: Bytes, n: nat)
    requires n <= |s| && HexValue(s[..n]).None?
    ensures HexValue(s).None?
    decreases |s|
  {
    if n < |s| {
      assert s[..|s| - 1][..n] == s[..n];
      HexPrefix(s[..|s| - 1], n);
    } else {
      assert s[..n] == s;
    }
  }

  /** `write_hex`: fills eight bytes of the header from `at`. */
  method WriteHex(header: array<Byte>, at: nat, value: nat)
    requires at + 8 <= header.Length && value < 0x1_0000_0000
    modifies header
    ensures header[..] == old(header[..at]) + Hex(value, 8) + old(header[at + 8..])
  {
    ghost var was := header[..];
    for i := 0 to 8
      invariant forall j :: 0 <= j < i ==> header[at + j] == Hex(value, 8)[j]
      invariant forall j :: 0 <= j < header.Length && !(at <= j < at + i) ==> header[j] == was[j]
    {
      HexAt(value, 8, i);
      header[at + i] := DigitByte(value / Pow16(7 - i) % 16);
    }
    var text := Hex(value, 8);
    assert forall j :: at <= j < at + 8 ==> header[j] == text[j - at];
  }
}
