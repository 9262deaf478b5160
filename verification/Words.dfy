/** Bitwise arithmetic on non-negative integers.

The loader's Rust code manipulates 64-bit words with masks and shifts.  The rest of the model works
with division and remainder; this module defines the bitwise operators once, with the laws from which
`PageEntry` and `MaskForms` prove that each mask form equals its arithmetic form.
*/
module Words {

  const TWO63: nat := 0x8000_0000_0000_0000
  const TWO64: nat := 0x1_0000_0000_0000_0000

  /** A u64 value. */
  type Word = w: int | 0 <= w < TWO64

  function Pow2(k: nat): (p: nat)
    ensures p >= 1
  {
    if k == 0 then 1 else 2 * Pow2(k - 1)
  }

  function Bit(b: bool): (r: nat) { if b then 1 else 0 }

  /** Bitwise `a & b`. */
  function And(a: nat, b: nat): nat
    decreases a
  {
    if a == 0 then 0 else Bit(a % 2 == 1 && b % 2 == 1) + 2 * And(a / 2, b / 2)
  }

  /** Bitwise `a | b`. */
  function Or(a: nat, b: nat): nat
    decreases a
  {
    if a == 0 then b else Bit(a % 2 == 1 || b % 2 == 1) + 2 * Or(a / 2, b / 2)
  }

  /** Bitwise complement of a u64. */
  function Not(a: Word): Word { TWO64 - 1 - a }

  lemma {:induction false} AndZero(a: nat)
    ensures And(a, 0) == 0
  {
    if a != 0 { AndZero(a / 2); }
  }

  lemma {:induction false} AndSelfBound(a: nat, b: nat)
    ensures And(a, b) <= a && And(a, b) <= b
  {
    if a != 0 { AndSelfBound(a / 2, b / 2); }
  }

  lemma {:induction false} AndCommutes(a: nat, b: nat)
    ensures And(a, b) == And(b, a)
    decreases a
  {
    if a == 0 {
      AndZero(b);
    } else if b == 0 {
      AndZero(a);
    } else {
      AndCommutes(a / 2, b / 2);
    }
  }

  /** Disjoint masks select independently, and their union is their sum. */
  lemma {:induction false} AndSplits(x: nat, a: nat, b: nat)
    requires And(a, b) == 0
    ensures And(x, a + b) == And(x, a) + And(x, b)
    ensures Or(a, b) == a + b
    decreases x + a
  {
    if a == 0 {
      AndZero(x);
    } else {
      SplitStep(x, a, b, x / 2, x % 2, a / 2, a % 2, b / 2, b % 2);
    }
  }

  lemma {:induction false} SplitStep(x: nat, a: nat, b: nat, hx: nat, lx: nat, ha: nat, la: nat, hb: nat, lb: nat)
    requires x == 2 * hx + lx && a == 2 * ha + la && b == 2 * hb + lb && lx < 2 && la < 2 && lb < 2
    requires And(a, b) == 0 && a != 0
    ensures And(x, a + b) == And(x, a) + And(x, b)
    ensures Or(a, b) == a + b
    decreases x + a, 0
  {
    AndStep(a, b, ha, la, hb, lb);
    AndSplits(hx, ha, hb);
    AndStep(x, a, hx, lx, ha, la);
    AndStep(x, b, hx, lx, hb, lb);
    AndStep(x, a + b, hx, lx, ha + hb, la + lb);
    OrStep(a, b, ha, la, hb, lb);
  }

  /** The lowest bits and the rest. */
  lemma AndStep(x: nat, y: nat, hx: nat, lx: nat, hy: nat, ly: nat)
    requires x == 2 * hx + lx && y == 2 * hy + ly && lx < 2 && ly < 2
    ensures And(x, y) == (if lx == 1 then ly else 0) + 2 * And(hx, hy)
  {
    Halves(x, hx, lx);
    Halves(y, hy, ly);
  }

  lemma OrStep(x: nat, y: nat, hx: nat, lx: nat, hy: nat, ly: nat)
    requires x == 2 * hx + lx && y == 2 * hy + ly && lx < 2 && ly < 2
    ensures Or(x, y) == Bit(lx == 1 || ly == 1) + 2 * Or(hx, hy)
  {
    Halves(x, hx, lx);
    Halves(y, hy, ly);
  }

  lemma Halves(x: nat, h: nat, l: nat)
    requires x == 2 * h + l && l < 2
    ensures x / 2 == h && x % 2 == l
  {
  }

  /** `x & !m == x - (x & m)`. */
  lemma {:induction false} AndNot(x: Word, m: Word)
    ensures And(x, Not(m)) == x - And(x, m)
  {
    PowersOfTwo();
    AndComplement(64, x, m);
  }

  /** `x & !(2^k - 1)` rounds down. */
  lemma AndClear(x: Word, k: nat, low: Word)
    requires low + 1 == Pow2(k)
    ensures And(x, Not(low)) == x - x % Pow2(k)
  {
    AndNot(x, low);
    AndLow(x, k);
  }

  lemma {:induction false} AndComplement(k: nat, x: nat, m: nat)
    requires x < Pow2(k) && m < Pow2(k)
    ensures And(x, Pow2(k) - 1 - m) == x - And(x, m)
  {
    ComplementOf(k, Pow2(k), x, m, Pow2(k) - 1 - m);
  }

  lemma {:induction false} ComplementOf(k: nat, p: nat, x: nat, m: nat, c: nat)
    requires p == Pow2(k) && x < p && m < p && m + c + 1 == p
    ensures And(x, c) == x - And(x, m)
  {
    if k > 0 {
      var half := Pow2(k - 1);
      var hx, lx, hm, lm := x / 2, x % 2, m / 2, m % 2;
      var hc: nat := half - 1 - hm;
      ComplementOf(k - 1, half, hx, hm, hc);
      ComplementStep(x, m, c, hx, lx, hm, lm, hc);
    }
  }

  lemma ComplementStep(x: nat, m: nat, c: nat, hx: nat, lx: nat, hm: nat, lm: nat, hc: nat)
    requires x == 2 * hx + lx && m == 2 * hm + lm && c == 2 * hc + 1 - lm && lx < 2 && lm < 2
    requires And(hx, hc) == hx - And(hx, hm)
    ensures And(x, c) == x - And(x, m)
  {
    AndStep(x, m, hx, lx, hm, lm);
    AndStep(x, c, hx, lx, hc, 1 - lm);
  }

  /** `x & (2^k - 1) == x mod 2^k`. */
  lemma {:induction false} AndLow(x: nat, k: nat)
    ensures And(x, Pow2(k) - 1) == x % Pow2(k)
  {
    LowBits(x, k, Pow2(k), Pow2(k) - 1, x % Pow2(k));
  }

  lemma {:induction false} LowBits(x: nat, k: nat, p: nat, mask: nat, r: nat)
    requires p == Pow2(k) && mask + 1 == p && r == x % p
    ensures And(x, mask) == r
  {
    if k == 0 {
      AndZero(x);
    } else {
      var half := Pow2(k - 1);
      var hx, lx := x / 2, x % 2;
      var rest := hx % half;
      LowBits(hx, k - 1, half, half - 1, rest);
      HalveMod(x, half);
      LowStep(x, mask, half, hx, lx, rest);
    }
  }

  lemma LowStep(x: nat, mask: nat, half: nat, hx: nat, lx: nat, r: nat)
    requires half >= 1 && mask == 2 * half - 1 && x == 2 * hx + lx && lx < 2 && And(hx, half - 1) == r
    ensures And(x, mask) == lx + 2 * r
  {
    AndStep(x, mask, hx, lx, half - 1, 1);
  }

  lemma HalveMod(x: nat, p: nat)
    requires p >= 1
    ensures x % (2 * p) == x % 2 + 2 * (x / 2 % p)
  {
    var q, r := x / 2 / p, x / 2 % p;
    assert x / 2 == p * q + r;
    var low := x % 2 + 2 * r;
    assert x == 2 * p * q + low by { assert 2 * (p * q + r) == 2 * p * q + 2 * r; }
    DivModUnique(x, 2 * p, q, low);
  }

  lemma DivModUnique(x: nat, d: nat, q: nat, r: nat)
    requires d >= 1 && r < d && x == d * q + r
    ensures x / d == q && x % d == r
  {
    assert d * (x / d - q) == r - x % d;
    MultipleBelow(d, x / d - q);
  }

  lemma ProductOrder(a: nat, b: nat, c: nat)
    requires b <= c
    ensures a * b <= a * c
  {
  }

  lemma Recompose(a: nat, b: nat, q: nat, s: nat, t: nat)
    requires t < a && s < b
    ensures a * (b * q + s) + t == a * b * q + (a * s + t) && a * s + t < a * b
  {
    ProductOrder(a, s + 1, b);
  }

  /** Division by a product, digit by digit. */
  lemma DivDiv(x: nat, a: nat, b: nat)
    requires a >= 1 && b >= 1
    ensures a * b >= 1 && x / (a * b) == x / a / b && x % (a * b) == a * (x / a % b) + x % a
  {
    var y, t := x / a, x % a;
    var q, s := y / b, y % b;
    DivDivParts(x, y, a, b, q, s, t);
  }

  lemma DivDivParts(x: nat, y: nat, a: nat, b: nat, q: nat, s: nat, t: nat)
    requires a >= 1 && b >= 1 && t < a && s < b && x == a * y + t && y == b * q + s
    ensures a * b >= 1 && x / (a * b) == q && x % (a * b) == a * s + t
  {
    Recompose(a, b, q, s, t);
    DivModUnique(x, a * b, q, a * s + t);
  }

  /** A base-b digit above position a can be read after dropping everything above it. */
  lemma DigitOf(x: nat, a: nat, b: nat)
    requires a >= 1 && b >= 1
    ensures a * b >= 1 && x / a % b == x % (a * b) / a
  {
    DivDiv(x, a, b);
    DivModUnique(x % (a * b), a, x / a % b, x % a);
  }

  lemma ModMod(x: nat, d: nat, c: nat)
    requires d >= 1 && c >= 1
    ensures d * c >= 1 && x % (d * c) % d == x % d
  {
    var product := d * c;
    var q, r := x / product, x % product;
    assert x == product * q + r && r == d * (r / d) + r % d;
    Regroup(d, c, q, r / d);
    DivModUnique(x, d, c * q + r / d, r % d);
  }

  lemma Regroup(d: nat, c: nat, q: nat, s: nat)
    ensures d * c * q + d * s == d * (c * q + s)
  {
    assert d * c * q == d * (c * q);
  }

  /** Dropping high digits does not change a lower digit. */
  lemma DigitBelow(x: nat, a: nat, b: nat, c: nat)
    requires a >= 1 && b >= 1 && c >= 1
    ensures a * b * c >= 1 && x % (a * b * c) / a % b == x / a % b
  {
    DigitOf(x, a, b);
    ModMod(x, a * b, c);
    DigitOf(x % (a * b * c), a, b);
  }

  lemma MultipleBelow(d: int, z: int)
    requires d > 0 && -d < d * z < d
    ensures z == 0
  {
  }

  /** `x & (2^m - 2^k)`, the field of bits k up to m. */
  lemma {:induction false} AndField(x: nat, k: nat, m: nat)
    requires k <= m
    ensures Pow2(k) <= Pow2(m)
    ensures And(x, Pow2(m) - Pow2(k)) == x % Pow2(m) - x % Pow2(k)
  {
    Pow2Monotone(k, m);
    LowAndField(k, m);
    AndSplits(x, Pow2(k) - 1, Pow2(m) - Pow2(k));
    AndLow(x, k);
    AndLow(x, m);
  }

  lemma LowAndField(k: nat, m: nat)
    requires k <= m
    ensures Pow2(k) <= Pow2(m)
    ensures And(Pow2(k) - 1, Pow2(m) - Pow2(k)) == 0
  {
    Pow2Monotone(k, m);
    MultipleMod(Pow2(k), Pow2(m - k));
    AndAlignedZero(Pow2(m) - Pow2(k), k, Pow2(k) - 1);
    AndCommutes(Pow2(m) - Pow2(k), Pow2(k) - 1);
  }

  lemma MultipleMod(p: nat, c: nat)
    requires p >= 1 && c >= 1
    ensures p * c >= p && (p * c - p) % p == 0
  {
    assert p * c - p == p * (c - 1);
    DivModUnique(p * (c - 1), p, c - 1, 0);
  }

  lemma {:induction false} Pow2Monotone(k: nat, m: nat)
    requires k <= m
    ensures Pow2(k) <= Pow2(m)
    ensures Pow2(m) == Pow2(k) * Pow2(m - k)
    decreases m
  {
    if k < m { Pow2Monotone(k, m - 1); }
  }

  /** A multiple of 2^k has no bit in common with a value below 2^k. */
  lemma {:induction false} AndAligned(x: nat, k: nat, low: nat)
    requires x % Pow2(k) == 0 && low < Pow2(k)
    ensures And(x, low) == 0 && Or(x, low) == x + low
  {
    AndAlignedZero(x, k, low);
    AndSplits(0, x, low);
  }

  lemma {:induction false} AndAlignedZero(x: nat, k: nat, low: nat)
    requires x % Pow2(k) == 0 && low < Pow2(k)
    ensures And(x, low) == 0
    decreases k
  {
    if k == 0 {
      AndZero(x);
    } else {
      var half := Pow2(k - 1);
      var hx, lx, hy, ly := x / 2, x % 2, low / 2, low % 2;
      HalveMod(x, half);
      AndAlignedZero(hx, k - 1, hy);
      EvenStep(x, low, hx, lx, hy, ly);
    }
  }

  lemma EvenStep(x: nat, low: nat, hx: nat, lx: nat, hy: nat, ly: nat)
    requires x == 2 * hx + lx && low == 2 * hy + ly && lx == 0 && ly < 2 && And(hx, hy) == 0
    ensures And(x, low) == 0
  {
    AndStep(x, low, hx, lx, hy, ly);
  }

  lemma PowersOfTwo()
    ensures Pow2(1) == 2 && Pow2(9) == 512 && Pow2(12) == 4096 && Pow2(21) == 0x20_0000
    ensures Pow2(30) == 0x4000_0000 && Pow2(39) == 0x80_0000_0000
    ensures Pow2(47) == 0x8000_0000_0000 && Pow2(48) == 0x1_0000_0000_0000
    ensures Pow2(52) == 0x10_0000_0000_0000
    ensures Pow2(63) == TWO63 && Pow2(64) == TWO64
  {
    assert Pow2(4) == 16 by { assert Pow2(2) == 4; }
    Pow2Monotone(4, 8);
    Pow2Monotone(1, 9);
    Pow2Monotone(4, 12);
    Pow2Monotone(9, 21);
    Pow2Monotone(9, 30);
    Pow2Monotone(9, 39);
    Pow2Monotone(9, 48);
    Pow2Monotone(47, 48);
    Pow2Monotone(4, 52);
    Pow2Monotone(12, 64);
    Pow2Monotone(63, 64);
    assert Pow2(64 - 12) == Pow2(52) && Pow2(52 - 4) == Pow2(48) && Pow2(8 - 4) == 16;
    assert Pow2(9 - 1) == Pow2(8) && Pow2(12 - 4) == Pow2(8);
    assert Pow2(21 - 9) == Pow2(12) && Pow2(30 - 9) == Pow2(21) && Pow2(39 - 9) == Pow2(30) && Pow2(48 - 9) == Pow2(39);
    assert Pow2(48 - 47) == Pow2(1) && Pow2(64 - 63) == Pow2(1);
  }
}
