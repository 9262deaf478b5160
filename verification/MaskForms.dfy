/** The masks and shifts of the loader and of the boot archive that are not about page-table words.

The model writes them as quotients and remainders; each lemma equates one of them with the form the code uses.
*/
module MaskForms {
  import opened Outcome
  import opened Words
  import opened TransitionTypes
  import opened PageEntry
  import opened ByteStrings

  lemma {:induction false} PowerIsPow2(g: nat) returns (k: nat)
    requires IsPowerOfTwo(g)
    ensures Pow2(k) == g
  {
    if g == 1 {
      k := 0;
    } else {
      k := PowerIsPow2(g / 2);
      k := k + 1;
    }
  }

  /** `value & (alignment - 1)` is the remainder, and `align_down`, `value & !(alignment - 1)`, rounds down. */
  lemma AlignDownMask(value: Word, alignment: Word)
    requires IsPowerOfTwo(alignment)
    ensures And(value, alignment - 1) == value % alignment
    ensures And(value, Not(alignment - 1)) == AlignDown(value, alignment)
  {
    var k := PowerIsPow2(alignment);
    AndLow(value, k);
    AndNot(value, alignment - 1);
  }

  lemma DoubleModulus(x: nat, p: nat)
    requires p > 0
    ensures x % (2 * p) - x % p == p * (x / p % 2)
  {
    DivDiv(x, p, 2);
  }

  /** Testing one bit is testing one binary digit. */
  lemma AndBit(x: nat, k: nat)
    ensures And(x, Pow2(k)) == Pow2(k) * (x / Pow2(k) % 2)
  {
    AndField(x, k, k + 1);
    DoubleModulus(x, Pow2(k));
  }

  /** `canonical_four_level_half`: bits 63 to 48 against bit 47. */
  lemma CanonicalHalfForm(address: Word)
    ensures var upper, sign := address / Pow2(48), And(address, Pow2(47)) != 0;
            CanonicalHalf(address) == if !sign && upper == 0 then Some(false)
            else if sign && upper == 0xffff then Some(true) else None
  {
    Pow48();
    AndBit(address, 47);
    SignDigit(address, address / 0x1_0000_0000_0000, address % 0x1_0000_0000_0000);
  }

  lemma SignDigit(address: Word, upper: nat, low: nat)
    requires address == 0x1_0000_0000_0000 * upper + low && low < 0x1_0000_0000_0000
    ensures address / 0x8000_0000_0000 % 2 == if low >= 0x8000_0000_0000 then 1 else 0
  {
    var bit := if low >= 0x8000_0000_0000 then 1 else 0;
    DivModUnique(address, 0x8000_0000_0000, 2 * upper + bit, low - 0x8000_0000_0000 * bit);
  }

  /** `page | (virtual & 0xfff)` of `translate`. */
  lemma OffsetJoin(page: Word, address: Word)
    requires page % 4096 == 0
    ensures Or(page, And(address, 4095)) == page + address % 4096
  {
    PowersOfTwo();
    AndLow(address, 12);
    AndAligned(page, 12, address % 4096);
  }

  /** `entry & (PRESENT | WRITABLE)` of the temporary path, and `physical | PRESENT | WRITABLE` of a linked table. */
  lemma BothFlags(e: Word)
    ensures Or(PRESENT, WRITABLE) == 3
    ensures And(e, 3) == 3 <==> IsPresent(e) && IsWritable(e)
    ensures e % 4096 == 0 ==> Or(Or(e, PRESENT), WRITABLE) == e + 3
  {
    assert Or(PRESENT, WRITABLE) == 3;
    assert Pow2(2) == 4 && Pow2(1) == 2;
    AndLow(e, 2);
    assert e % 4 == 2 * (e / 2 % 2) + e % 2;
    if e % 4096 == 0 {
      LowFlags(e, PRESENT, WRITABLE);
    }
  }

  // ---- The boot archive ------------------------------------------------------------------

  lemma {:induction false} PaddingForm(n: nat)
    ensures Padding(n) == (4 - n % 4) % 4
  {
    if n >= 4 {
      PaddingForm(n - 4);
    }
  }

  /** `align4`: `(value + 3) & !3`. */
  lemma AlignFourMask(n: Word)
    requires n + 3 < TWO64
    ensures And(n + 3, Not(3)) == n + Padding(n)
  {
    assert Pow2(2) == 4;
    AndClear(n + 3, 2, 3);
    PaddingUp(n);
  }

  lemma PaddingUp(n: nat)
    ensures n + 3 - (n + 3) % 4 == n + Padding(n)
  {
    PaddingForm(n);
    UpToFour(n, n / 4, n % 4);
  }

  lemma UpToFour(n: nat, q: nat, r: nat)
    requires n == 4 * q + r && r < 4
    ensures n + 3 - (n + 3) % 4 == n + (4 - r) % 4
  {
    DivModUnique(n + 3, 4, if r == 0 then q else q + 1, if r == 0 then 3 else r - 1);
  }

  /** `pad4`: `(4 - (len & 3)) & 3`. */
  lemma PadFourMask(n: Word)
    ensures And(n, 3) == n % 4 && And(4 - n % 4, 3) == Padding(n)
  {
    assert Pow2(2) == 4;
    PaddingForm(n);
    AndLow(n, 2);
    AndLow(4 - n % 4, 2);
  }

  /** `mode & 0o170000`: the file type of a record. */
  lemma FileTypeMask(mode: Word)
    ensures And(mode, 0xf000) == 0x8000 <==> mode / 0x1000 % 16 == 8
  {
    PowersOfTwo();
    assert Pow2(4) == 16;
    Pow2Monotone(12, 16);
    AndField(mode, 12, 16);
    DigitField(mode, 0x1000);
  }

  lemma DigitField(x: nat, p: nat)
    requires p > 0
    ensures x % (16 * p) - x % p == p * (x / p % 16)
  {
    DivDiv(x, p, 16);
  }

  /** `(value >> shift) & 0x0f`: one hexadecimal digit. */
  lemma HexDigitMask(shifted: Word)
    ensures And(shifted, 0x0f) == shifted % 16
  {
    assert Pow2(4) == 16;
    AndLow(shifted, 4);
  }

  // ---- Flag fields -----------------------------------------------------------------------

  /** A field whose bits outside the low `k` are clear. */
  lemma OnlyLowBits(x: Word, k: nat)
    requires Pow2(k) <= TWO64
    ensures And(x, Not(Pow2(k) - 1)) == 0 <==> x < Pow2(k)
  {
    AndNot(x, Pow2(k) - 1);
    AndLow(x, k);
    if x < Pow2(k) {
      DivModUnique(x, Pow2(k), 0, x);
    }
  }

  /** Program header flags: only the low three bits are known, and they are execute, write and read. */
  lemma SegmentFlagMasks(flags: Word)
    ensures And(flags, Not(7)) == 0 <==> flags < 8
    ensures And(flags, 1) != 0 <==> flags % 2 == 1
    ensures And(flags, 2) != 0 <==> flags / 2 % 2 == 1
    ensures And(flags, 4) != 0 <==> flags / 4 % 2 == 1
  {
    assert Pow2(0) == 1 && Pow2(1) == 2 && Pow2(2) == 4 && Pow2(3) == 8;
    OnlyLowBits(flags, 3);
    AndBit(flags, 0);
    AndBit(flags, 1);
    AndBit(flags, 2);
  }

  /** Stream modes of a launch policy entry: two flags, joined by disjunction and told apart by masks. */
  lemma StreamModeMasks(modes: Word, first: bool, second: bool)
    ensures And(modes, Not(3)) == 0 <==> modes < 4
    ensures modes < 4 ==> (And(modes, 1) != 0 <==> modes % 2 == 1) && (And(modes, 2) != 0 <==> modes >= 2)
    ensures Or(Bit(first), 2 * Bit(second)) == Bit(first) + 2 * Bit(second)
  {
    assert Pow2(0) == 1 && Pow2(1) == 2 && Pow2(2) == 4;
    OnlyLowBits(modes, 2);
    AndBit(modes, 0);
    AndBit(modes, 1);
  }
}
