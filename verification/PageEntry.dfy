/** Architectural page-table words.

Every predicate here is arithmetic; the lemmas at the end prove that each one is the mask-and-shift
test the encoder performs on its 64-bit words (4-level paging, section 4.5 of the Intel SDM, Volume 3A).
*/
module PageEntry {
  import opened Outcome
  import opened Words
  import opened Regions
  import opened TransitionTypes

  const PRESENT: Word := 1
  const WRITABLE: Word := 2
  const EXECUTE_DISABLE: Word := TWO63

  type Page = p: seq<Word> | |p| == 512 witness seq(512, _ => 0)

  ghost predicate ZeroPage(p: Page) { forall j :: 0 <= j < 512 ==> p[j] == 0 }

  /** Physical widths the encoder may be configured with. */
  predicate GoodWidth(bits: nat) { 13 <= bits <= 52 }

  /** First physical address that does not fit the width. */
  function Limit(bits: nat): nat { Pow2(bits) }

  predicate IsPresent(e: Word) { e % 2 == 1 }
  predicate IsWritable(e: Word) { e / 2 % 2 == 1 }
  predicate IsExecutable(e: Word) { e < TWO63 }

  /** The physical-address field. */
  function AddressOf(e: Word, limit: nat): int
    requires limit > 0
  {
    e % limit - e % 4096
  }

  predicate ValidPhysicalPage(a: nat, limit: nat) { a != 0 && a % 4096 == 0 && a < limit }

  /** No bit outside the address field, PRESENT and WRITABLE. */
  predicate TableBitsOk(e: Word, limit: nat) { e < limit && e % 4096 < 4 }

  /** As for tables, with execute-disable allowed. */
  predicate LeafBitsOk(e: Word, limit: nat) { e % TWO63 < limit && e % 4096 < 4 }

  function TableEntry(base: nat, index: nat): nat { base + 4096 * index + 3 }

  function LeafEntry(physical: nat, permissions: Permissions): nat {
    physical + 1 + (if permissions.writable then 2 else 0)
    + (if !permissions.executable && physical < TWO63 then TWO63 else 0)
  }

  /** The 48-bit page number of an address. */
  function PageNumber(address: nat): nat { address % 0x1_0000_0000_0000 / 4096 }

  /** Undoes `PageNumber` on canonical page addresses (`canonicalize_48_bit`). */
  function CanonicalAddress(page: nat): nat {
    if page * 4096 < CANONICAL_LOW_END then page * 4096 else page * 4096 + 0xffff_0000_0000_0000
  }

  lemma PageNumberBound(address: nat)
    ensures PageNumber(address) < 0x10_0000_0000
  {
  }

  lemma CanonicalRoundTrip(address: nat)
    requires Canonical(address)
    ensures CanonicalAddress(PageNumber(address)) == address - address % 4096
    ensures PageNumber(address - address % 4096) == PageNumber(address)
  {
    var k := if address >= CANONICAL_HIGH_START then 0xffff else 0;
    SplitPage(address, k, address - 0x1_0000_0000_0000 * k);
  }

  /** An address as its bits above 48 and the rest. */
  lemma SplitPage(address: nat, k: nat, x: nat)
    requires address == 0x1_0000_0000_0000 * k + x && x < 0x1_0000_0000_0000
    ensures address % 0x1_0000_0000_0000 == x && address % 4096 == x % 4096
    ensures (address - address % 4096) % 0x1_0000_0000_0000 == x - x % 4096 && (x - x % 4096) / 4096 == x / 4096
  {
    var page, low := x / 4096, x % 4096;
    assert x == 4096 * page + low;
    DivModUnique(address, 0x1_0000_0000_0000, k, x);
    DivModUnique(address, 4096, 0x10_0000_0000 * k + page, low);
    DivModUnique(address - low, 0x1_0000_0000_0000, k, x - low);
    DivModUnique(x - low, 4096, page, 0);
  }

  lemma PageRoundTrip(page: nat)
    requires page < 0x10_0000_0000
    ensures Canonical(CanonicalAddress(page)) && CanonicalAddress(page) % 4096 == 0
    ensures PageNumber(CanonicalAddress(page)) == page
  {
    var a := CanonicalAddress(page);
    if a >= CANONICAL_HIGH_START {
      assert a % 0x1_0000_0000_0000 == page * 4096;
    }
  }

  /** The table indexes are the base-512 digits of the page number. */
  lemma IndexDigits(address: nat)
    ensures var pn := PageNumber(address);
            IndexesFor(address) == [pn / 0x800_0000, pn / 0x4_0000 % 512, pn / 512 % 512, pn % 512]
  {
    var x, pn := address / 4096, PageNumber(address);
    DigitOf(address, 4096, 0x10_0000_0000);
    DivDiv(address, 4096, 0x800_0000);
    DivDiv(address, 4096, 0x4_0000);
    DivDiv(address, 4096, 512);
    DigitOf(x, 0x800_0000, 512);
    DigitBelow(x, 0x4_0000, 512, 512);
    DigitBelow(x, 512, 512, 0x4_0000);
    DigitBelow(x, 1, 512, 0x800_0000);
  }

  lemma LimitFacts(bits: nat)
    requires GoodWidth(bits)
    ensures 8192 <= Limit(bits) <= Pow2(52) && Limit(bits) % 4096 == 0 && TWO63 % Limit(bits) == 0
    ensures Limit(bits) <= 0x10_0000_0000_0000
  {
    PowersOfTwo();
    Pow2Monotone(13, bits);
    Pow2Monotone(12, 13);
    Pow2Monotone(bits, 52);
    Pow2Monotone(12, bits);
    Pow2Monotone(bits, 63);
    DivModUnique(Limit(bits), 4096, Pow2(bits - 12), 0);
    DivModUnique(TWO63, Limit(bits), Pow2(63 - bits), 0);
  }

  lemma AddressOfTable(e: Word, limit: nat)
    requires 0 < limit && e < limit
    ensures AddressOf(e, limit) == e - e % 4096
  {
    DivModUnique(e, limit, 0, e);
  }

  // ---- Mask forms ------------------------------------------------------------------------

  /** `((1 << bits) - 1) & !(PAGE_BYTES - 1)`. */
  function AddressMask(bits: nat): Word
    requires GoodWidth(bits)
  {
    LimitFacts(bits);
    Limit(bits) - 4096
  }

  lemma AddressMaskForm(bits: nat)
    requires GoodWidth(bits)
    ensures And(Limit(bits) - 1, Not(4095)) == AddressMask(bits)
  {
    LimitFacts(bits);
    PowersOfTwo();
    PageMask(Limit(bits), Limit(bits) - 1, 4095);
  }

  lemma PageMask(limit: nat, last: Word, low: Word)
    requires limit > 0 && limit % 4096 == 0 && last + 1 == limit && low + 1 == Pow2(12) == 4096
    ensures And(last, Not(low)) == limit - 4096
  {
    AndClear(last, 12, low);
    LastLow(limit);
  }

  lemma LastLow(limit: nat)
    requires limit > 0 && limit % 4096 == 0
    ensures (limit - 1) % 4096 == 4095
  {
  }

  lemma AddressFieldMask(e: Word, bits: nat)
    requires GoodWidth(bits)
    ensures Limit(bits) > 0 && And(e, AddressMask(bits)) == AddressOf(e, Limit(bits))
  {
    PowersOfTwo();
    LimitFacts(bits);
    AndField(e, 12, bits);
  }

  lemma FlagMasks(e: Word)
    ensures And(e, PRESENT) != 0 <==> IsPresent(e)
    ensures And(e, WRITABLE) != 0 <==> IsWritable(e)
    ensures And(e, EXECUTE_DISABLE) != 0 <==> !IsExecutable(e)
    ensures And(e, PRESENT) == e % 2 && And(e, WRITABLE) == e % 4 - e % 2
  {
    PowersOfTwo();
    AndLow(e, 1);
    AndField(e, 1, 2);
    TopBitMask(e);
  }

  lemma TopBitMask(e: Word)
    ensures And(e, EXECUTE_DISABLE) != 0 <==> !IsExecutable(e)
  {
    TopBit(e);
    if e < TWO63 {
      DivModUnique(e, TWO63, 0, e);
    }
  }

  lemma ValidPageMask(a: Word, bits: nat)
    requires GoodWidth(bits)
    ensures ValidPhysicalPage(a, Limit(bits)) <==> a != 0 && And(a, Not(AddressMask(bits))) == 0
  {
    LimitFacts(bits);
    AndNot(a, AddressMask(bits));
    AddressFieldMask(a, bits);
    if a < Limit(bits) { AddressOfTable(a, Limit(bits)); }
  }

  /** A word made of its low two bits and its address field only. */
  lemma FieldSum(x: nat, limit: nat)
    requires limit > 0
    ensures x == x % limit - x % 4096 + x % 4 <==> x < limit && x % 4096 < 4
  {
    if x < limit { DivModUnique(x, limit, 0, x); }
  }

  /** Bits 0 and 1 beside an aligned mask. */
  lemma LowFlags(mask: nat, one: nat, two: nat)
    requires mask % 4096 == 0 && one == 1 && two == 2
    ensures Or(mask, one) == mask + 1 && Or(mask + 1, two) == mask + 3 && And(mask, one + two) == 0
  {
    FourDivides(mask);
    BelowAligned(mask, 2, one);
    BelowAligned(mask, 2, one + two);
    SecondFlag(mask, one, two);
  }

  lemma FourDivides(mask: nat)
    requires mask % 4096 == 0
    ensures mask % 4 == 0
  {
    var q := mask / 4096;
    assert mask == 4096 * q;
    DivModUnique(mask, 4, 1024 * q, 0);
  }

  lemma BelowAligned(x: nat, k: nat, low: nat)
    requires 1 <= k <= 2 && x % 4 == 0 && low < Pow2(k)
    ensures And(x, low) == 0 && Or(x, low) == x + low
  {
    assert Pow2(k) == 2 * k;
    AndAligned(x, k, low);
  }

  lemma SecondFlag(mask: nat, one: nat, two: nat)
    requires mask % 4 == 0 && one == 1 && two == 2
    ensures Or(mask + 1, two) == mask + 3
  {
    var half := mask / 2;
    assert mask == 2 * half && half % 2 == 0;
    assert Pow2(1) == 2;
    AndAligned(half, 1, one);
    OrOdd(half, one);
  }

  lemma OrOdd(a: nat, b: nat)
    ensures Or(2 * a + 1, 2 * b) == 1 + 2 * Or(a, b)
  {
    assert (2 * a + 1) / 2 == a && (2 * b) / 2 == b && (2 * a + 1) % 2 == 1;
  }

  /** Selecting address field, PRESENT and WRITABLE. */
  lemma AllowedMask(e: Word, bits: nat)
    requires GoodWidth(bits)
    ensures Or(Or(AddressMask(bits), PRESENT), WRITABLE) == AddressMask(bits) + 3 < TWO63
    ensures Limit(bits) > 0 && And(e, AddressMask(bits) + 3) == AddressOf(e, Limit(bits)) + e % 4
  {
    LimitFacts(bits);
    var mask, three := AddressMask(bits), PRESENT + WRITABLE;
    LowFlags(mask, PRESENT, WRITABLE);
    AddressFieldMask(e, bits);
    FieldAndFlags(e, mask, three, AddressOf(e, Limit(bits)));
  }

  lemma FieldAndFlags(e: nat, mask: nat, three: nat, field: int)
    requires three == 3 && And(mask, three) == 0 && And(e, mask) == field
    ensures And(e, mask + three) == field + e % 4
  {
    AndSplits(e, mask, three);
    LowTwoBits(e, three);
  }

  lemma LowTwoBits(e: nat, three: nat)
    requires three == 3
    ensures And(e, three) == e % 4
  {
    assert Pow2(2) == 4;
    AndLow(e, 2);
  }

  /** `entry & !table_allowed_bits() == 0`. */
  lemma TableBitsMask(e: Word, bits: nat)
    requires GoodWidth(bits)
    ensures AddressMask(bits) + 3 < TWO64
    ensures And(e, Not(AddressMask(bits) + 3)) == 0 <==> TableBitsOk(e, Limit(bits))
  {
    AllowedMask(e, bits);
    AndNot(e, AddressMask(bits) + 3);
    FieldSum(e, Limit(bits));
  }

  lemma TopBit(e: Word)
    ensures And(e, TWO63) == e - e % TWO63
  {
    TopBitOf(e, TWO63);
  }

  lemma TopBitOf(e: Word, top: Word)
    requires top == TWO63
    ensures And(e, top) == e - e % top
  {
    Pow63();
    AndField(e, 63, 64);
    DivModUnique(e, Pow2(64), 0, e);
    assert Pow2(64) - Pow2(63) == top;
  }

  lemma Pow63()
    ensures Pow2(63) == TWO63 && Pow2(64) == TWO64
  {
    PowersOfTwo();
  }

  lemma TopBitApart(low: nat)
    requires low < TWO63
    ensures And(low, TWO63) == 0 && Or(low, TWO63) == low + TWO63
  {
    TopApartOf(low, TWO63);
  }

  lemma TopApartOf(low: nat, top: nat)
    requires low < top == TWO63
    ensures And(low, top) == 0 && Or(low, top) == low + top
  {
    Pow63();
    DivModUnique(top, Pow2(63), 1, 0);
    AndAligned(top, 63, low);
    AndCommutes(top, low);
    AndSplits(0, low, top);
  }

  /** `entry & !leaf_allowed_bits() == 0`. */
  lemma LeafBitsMask(e: Word, bits: nat)
    requires GoodWidth(bits)
    ensures AddressMask(bits) + 3 + TWO63 < TWO64
    ensures Or(AddressMask(bits) + 3, EXECUTE_DISABLE) == AddressMask(bits) + 3 + TWO63
    ensures And(e, Not(AddressMask(bits) + 3 + TWO63)) == 0 <==> LeafBitsOk(e, Limit(bits))
  {
    var low := AddressMask(bits) + 3;
    AllowedMask(e, bits);
    TopBitApart(low);
    AndSplits(e, low, TWO63);
    TopBit(e);
    AndNot(e, low + TWO63);
    LowPart(e, bits);
    FieldSum(e % TWO63, Limit(bits));
  }

  lemma LowPart(e: Word, bits: nat)
    requires GoodWidth(bits)
    ensures Limit(bits) > 0 && e % Limit(bits) == e % TWO63 % Limit(bits)
    ensures e % 4096 == e % TWO63 % 4096 && e % 4 == e % TWO63 % 4
  {
    LimitModulus(e, bits);
    TopBitModulus(e);
  }

  lemma LimitModulus(e: Word, bits: nat)
    requires GoodWidth(bits)
    ensures Limit(bits) > 0 && e % Limit(bits) == e % TWO63 % Limit(bits)
  {
    Pow63();
    Pow2Monotone(bits, 63);
    ModMod(e, Limit(bits), Pow2(63 - bits));
  }

  lemma TopBitModulus(e: Word)
    ensures e % 4096 == e % TWO63 % 4096 && e % 4 == e % TWO63 % 4
  {
    ModMod(e, 4096, TWO63 / 4096);
    ModMod(e, 4, TWO63 / 4);
  }

  /** `leaf_entry` in mask form. */
  lemma LeafEntryMask(physical: Word, permissions: Permissions)
    requires physical % 4096 == 0
    ensures LeafEntry(physical, permissions) == LeafMask(physical, permissions, PRESENT, WRITABLE, EXECUTE_DISABLE)
  {
    LowFlags(physical, PRESENT, WRITABLE);
    LeafMaskSum(physical, permissions, PRESENT, WRITABLE, EXECUTE_DISABLE);
  }

  /** The word assembled by `|=`, flag by flag. */
  function LeafMask(physical: nat, permissions: Permissions, present: nat, writable: nat, noExecute: nat): nat {
    var p := Or(physical, present);
    var w := if permissions.writable then Or(p, writable) else p;
    if permissions.executable then w else Or(w, noExecute)
  }

  lemma LeafMaskSum(physical: Word, permissions: Permissions, present: Word, writable: Word, noExecute: Word)
    requires physical % 4096 == 0 && noExecute == TWO63
    requires Or(physical, present) == physical + 1 && Or(physical + 1, writable) == physical + 3
    ensures LeafMask(physical, permissions, present, writable, noExecute) == LeafEntry(physical, permissions)
  {
    HalfAligned(physical);
    var w: Word := physical + (if permissions.writable then 3 else 1);
    TopFlag(w, noExecute);
    LeafMaskParts(physical, permissions, present, writable, noExecute, w);
    LeafSum(physical, permissions, w, Or(w, noExecute));
  }

  lemma LeafSum(physical: Word, permissions: Permissions, w: Word, joined: nat)
    requires physical + 3 < TWO63 || physical >= TWO63
    requires w == physical + (if permissions.writable then 3 else 1) && joined == if w < TWO63 then w + TWO63 else w
    ensures LeafEntry(physical, permissions) == if permissions.executable then w else joined
  {
  }

  lemma LeafMaskParts(physical: Word, permissions: Permissions, present: Word, writable: Word, noExecute: Word, w: Word)
    requires Or(physical, present) == physical + 1 && Or(physical + 1, writable) == physical + 3
    requires w == physical + (if permissions.writable then 3 else 1)
    ensures LeafMask(physical, permissions, present, writable, noExecute) ==
            if permissions.executable then w else Or(w, noExecute)
  {
  }

  lemma TopFlag(w: Word, top: Word)
    requires top == TWO63
    ensures Or(w, top) == if w < TWO63 then w + TWO63 else w
  {
    if w < TWO63 {
      TopBitApart(w);
    } else {
      OrTopBit(w);
    }
  }

  /** A page address does not come within three bytes below the top bit. */
  lemma HalfAligned(physical: Word)
    requires physical % 4096 == 0
    ensures physical + 3 < TWO64 && (physical + 3 < TWO63 || physical >= TWO63)
  {
  }

  lemma OrTopBit(w: Word)
    requires w >= TWO63
    ensures Or(w, TWO63) == w
  {
    TopOwn(w, TWO63);
  }

  lemma TopOwn(w: Word, top: Word)
    requires w >= top == TWO63
    ensures Or(w, top) == w
  {
    TopBitOf(w, top);
    DivModUnique(w, top, 1, w - top);
    OrOwnBits(w, top);
  }

  lemma {:induction false} OrOwnBits(a: nat, b: nat)
    ensures And(a, b) == b ==> Or(a, b) == a
    decreases a
  {
    if a != 0 {
      AndSelfBound(a / 2, b / 2);
      OrOwnBits(a / 2, b / 2);
    }
  }

  /** `(address >> shift) & 0x1ff`. */
  lemma IndexMask(shifted: Word)
    ensures And(shifted, 0x1ff) == shifted % 512
  {
    PowersOfTwo();
    AndLow(shifted, 9);
  }

  /** The temporary slot's `address & !(SLOT - 1)`. */
  lemma SlotMask(address: Word)
    ensures And(address, Not(SLOT - 1)) == address - address % SLOT
  {
    PowersOfTwo();
    AndNot(address, SLOT - 1);
    AndLow(address, 39);
  }

  /** `prefix | (index << shift)` of the graph walk. */
  lemma PrefixForm(prefix: nat, index: nat, k: nat)
    requires index < 512
    ensures Or(prefix * Pow2(k + 9), index * Pow2(k)) == (prefix * 512 + index) * Pow2(k)
  {
    var p := Pow2(k);
    assert Pow2(k + 9) == p * 512 by {
      Pow2Monotone(k, k + 9);
      PowersOfTwo();
    }
    PrefixParts(prefix, index, p);
    AndAligned(prefix * (p * 512), k + 9, index * p);
  }

  lemma PrefixParts(prefix: nat, index: nat, p: nat)
    requires index < 512 && p > 0
    ensures prefix * (p * 512) % (p * 512) == 0 && index * p < p * 512
    ensures prefix * (p * 512) + index * p == (prefix * 512 + index) * p
  {
    DivModUnique(prefix * (p * 512), p * 512, prefix, 0);
    ProductOrder(p, index + 1, 512);
  }

  /** `canonicalize_48_bit` on the address of a page. */
  lemma CanonicalizeForm(page: nat)
    requires page < 0x10_0000_0000
    ensures CanonicalAddress(page) == if And(page * 4096, CANONICAL_LOW_END) != 0
                                      then Or(page * 4096, 0xffff_0000_0000_0000) else page * 4096
  {
    SignBit(page * 4096);
    SignExtension(page * 4096);
  }

  lemma SignBit(a: nat)
    requires a < 0x1_0000_0000_0000
    ensures And(a, CANONICAL_LOW_END) != 0 <==> a >= CANONICAL_LOW_END
  {
    Pow48();
    AndField(a, 47, 48);
    DivModUnique(a, Pow2(48), 0, a);
    if a < CANONICAL_LOW_END {
      DivModUnique(a, Pow2(47), 0, a);
    } else {
      DivModUnique(a, Pow2(47), 1, a - CANONICAL_LOW_END);
    }
  }

  lemma Pow48()
    ensures Pow2(47) == CANONICAL_LOW_END && Pow2(48) == 0x1_0000_0000_0000
  {
    PowersOfTwo();
  }

  lemma SignExtension(a: nat)
    requires a < 0x1_0000_0000_0000
    ensures Or(a, 0xffff_0000_0000_0000) == a + 0xffff_0000_0000_0000
  {
    PowersOfTwo();
    var high := 0xffff_0000_0000_0000;
    DivModUnique(high, Pow2(48), 0xffff, 0);
    AndAligned(high, 48, a);
    AndCommutes(high, a);
    AndSplits(0, a, high);
  }
}
