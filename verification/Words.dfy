/** Unsigned machine words as natural numbers, with C's bitwise operators defined bit by bit.
    The lemmas turn every mask and shift the walks use into division and remainder. */
module Words {

  datatype Option<+T> = None | Some(value: T)

  type Byte = b: int | 0 <= b < 256
  type U32 = v: int | 0 <= v < 0x1_0000_0000
  type U64 = v: int | 0 <= v < 0x1_0000_0000_0000_0000

  /** Assignment of a wider value to a uint32_t. */
  function Low32(v: nat): U32 { v % 0x1_0000_0000 }

  /** 64-bit wrap-around. */
  function Low64(v: nat): U64 { v % 0x1_0000_0000_0000_0000 }

  function Pow2(k: nat): (p: nat)
    ensures p >= 1
  {
    if k == 0 then 1 else 2 * Pow2(k - 1)
  }

  /** a & b */
  function And(a: nat, b: nat): nat {
    if a == 0 || b == 0 then 0
    else (if a % 2 == 1 && b % 2 == 1 then 1 else 0) + 2 * And(a / 2, b / 2)
  }

  /** a | b */
  function Or(a: nat, b: nat): nat
    decreases a + b
  {
    if a == 0 then b else if b == 0 then a
    else (if a % 2 == 1 || b % 2 == 1 then 1 else 0) + 2 * Or(a / 2, b / 2)
  }

  /** a >> k */
  function Shr(a: nat, k: nat): nat { if k == 0 then a else Shr(a / 2, k - 1) }

  lemma PowerValues()
    ensures Pow2(0) == 1 && Pow2(1) == 2 && Pow2(5) == 0x20 && Pow2(7) == 0x80 && Pow2(8) == 0x100
    ensures Pow2(9) == 0x200 && Pow2(10) == 0x400 && Pow2(12) == 0x1000
    ensures Pow2(18) == 0x4_0000 && Pow2(21) == 0x20_0000 && Pow2(22) == 0x40_0000
    ensures Pow2(27) == 0x800_0000 && Pow2(30) == 0x4000_0000 && Pow2(32) == 0x1_0000_0000
    ensures Pow2(36) == 0x10_0000_0000 && Pow2(39) == 0x80_0000_0000
    ensures Pow2(48) == 0x1_0000_0000_0000 && Pow2(52) == 0x10_0000_0000_0000
    ensures Pow2(64) == 0x1_0000_0000_0000_0000
  {
    assert Pow2(12) == 0x1000;
    assert Pow2(22) == 0x40_0000;
    assert Pow2(32) == 0x1_0000_0000;
    assert Pow2(39) == 0x80_0000_0000;
    assert Pow2(48) == 0x1_0000_0000_0000;
    assert Pow2(57) == 0x200_0000_0000_0000;
  }

  /** Uniqueness of quotient and remainder. */
  lemma DivModUnique(v: nat, d: nat, q: nat, r: nat)
    requires d > 0 && r < d && v == d * q + r
    ensures v / d == q && v % d == r
  {
    var e := v / d - q;
    assert v == d * (v / d) + v % d;
    assert d * e == r - v % d by {
      assert d * (v / d) - d * q == d * e;
    }
    assert e >= 1 ==> d * e >= d;
    assert e <= -1 ==> d * e + d <= 0;
  }

  /** The lowest bit splits off a remainder by an even number. */
  lemma ModByDouble(v: nat, p: nat)
    requires p > 0
    ensures v % (2 * p) == v % 2 + 2 * (v / 2 % p)
  {
    var q, r := v / 2 / p, v / 2 % p;
    assert v / 2 == p * q + r;
    assert 2 * p * q == 2 * (p * q);
    DivModUnique(v, 2 * p, q, v % 2 + 2 * r);
  }

  lemma DivByDouble(v: nat, p: nat)
    requires p > 0
    ensures v / (2 * p) == v / 2 / p
  {
    var q, r := v / 2 / p, v / 2 % p;
    assert v / 2 == p * q + r;
    assert 2 * p * q == 2 * (p * q);
    DivModUnique(v, 2 * p, q, v % 2 + 2 * r);
  }

  lemma {:induction false} ShrIsDiv(a: nat, k: nat)
    ensures Shr(a, k) == a / Pow2(k)
  {
    if k > 0 {
      ShrIsDiv(a / 2, k - 1);
      DivByDouble(a, Pow2(k - 1));
    }
  }

  lemma AndStep(a: nat, b: nat)
    ensures And(a, b) == (if a % 2 == 1 && b % 2 == 1 then 1 else 0) + 2 * And(a / 2, b / 2)
  {
  }

  lemma AndOdd(v: nat, m: nat)
    ensures And(v, 2 * m + 1) == v % 2 + 2 * And(v / 2, m)
  {
    hide And;
    AndStep(v, 2 * m + 1);
    assert (2 * m + 1) / 2 == m && (2 * m + 1) % 2 == 1;
  }

  lemma AndEven(v: nat, m: nat)
    ensures And(v, 2 * m) == 2 * And(v / 2, m)
  {
    hide And;
    AndStep(v, 2 * m);
    assert (2 * m) / 2 == m && (2 * m) % 2 == 0;
  }

  function LowBits(v: nat, k: nat): nat { v % Pow2(k) }

  lemma LowBitsStep(v: nat, k: nat)
    requires k > 0
    ensures LowBits(v, k) == v % 2 + 2 * LowBits(v / 2, k - 1)
  {
    ModByDouble(v, Pow2(k - 1));
  }

  lemma {:induction false} AndLow(v: nat, k: nat)
    ensures And(v, Pow2(k) - 1) == LowBits(v, k)
  {
    hide And, LowBits;
    if k == 0 {
      AndNone(v);
    } else {
      AndLow(v / 2, k - 1);
      AndOdd(v, Pow2(k - 1) - 1);
      LowBitsStep(v, k);
    }
  }

  lemma AndNone(v: nat)
    ensures And(v, 0) == LowBits(v, 0) == 0
  {
  }

  lemma {:induction false} AndRange(v: nat, lo: nat, hi: nat)
    requires lo <= hi
    ensures Pow2(lo) <= Pow2(hi)
    ensures And(v, Pow2(hi) - Pow2(lo)) == LowBits(v, hi) - LowBits(v, lo)
    decreases hi
  {
    hide And, LowBits;
    if lo == 0 {
      AndLow(v, hi);
      AndNone(v);
    } else {
      AndRange(v / 2, lo - 1, hi - 1);
      AndEven(v, Pow2(hi - 1) - Pow2(lo - 1));
      LowBitsStep(v, hi);
      LowBitsStep(v, lo);
    }
  }

  /** Masking bits hi-1..lo keeps exactly those bits. */
  lemma AndField(v: nat, lo: nat, hi: nat)
    requires lo <= hi
    ensures Pow2(lo) <= Pow2(hi)
    ensures And(v, Pow2(hi) - Pow2(lo)) == v % Pow2(hi) - v % Pow2(lo)
  {
    AndRange(v, lo, hi);
  }

  lemma AndBound(a: nat, b: nat)
    ensures And(a, b) <= a
  {
  }

  /** OR of a multiple of 2^k with a value below 2^k is their sum. */
  lemma {:induction false} OrIsSum(a: nat, b: nat, k: nat)
    requires a % Pow2(k) == 0 && b < Pow2(k)
    ensures Or(a, b) == a + b
    decreases k
  {
    if k > 0 && a != 0 && b != 0 {
      ModByDouble(a, Pow2(k - 1));
      OrIsSum(a / 2, b / 2, k - 1);
    }
  }

  /** The bits from `unit` up, `count` values of them, in place. */
  lemma FieldValue(v: nat, unit: nat, count: nat)
    requires unit > 0 && count > 0
    ensures unit * count > 0
    ensures v / (unit * count) == v / unit / count
    ensures v % (unit * count) - v % unit == v / unit % count * unit
  {
    var q, b, r := v / unit / count, v / unit % count, v % unit;
    Quotient(v, unit);
    Quotient(v / unit, count);
    Regroup(v, unit, count, q, b, r);
    DivModUnique(v, unit * count, q, b * unit + r);
  }

  lemma Quotient(v: nat, d: nat)
    requires d > 0
    ensures v == d * (v / d) + v % d && v % d < d
  {
  }

  lemma Whole(q: nat, unit: nat, offset: nat, count: nat)
    requires offset < unit && q < count
    ensures q * unit % unit == 0 && q * unit + offset < unit * count
  {
    DivModUnique(q * unit, unit, q, 0);
    Monotone(q + 1, count, unit);
  }

  lemma Monotone(a: nat, b: nat, unit: nat)
    requires a <= b
    ensures a * unit <= b * unit
  {
  }

  lemma Regroup(v: nat, unit: nat, count: nat, q: nat, b: nat, r: nat)
    requires v == unit * (count * q + b) + r && b < count && r < unit
    ensures v == unit * count * q + (b * unit + r) && b * unit + r < unit * count
  {
    assert unit * (count * q) == unit * count * q;
    Monotone(b + 1, count, unit);
  }

  lemma LowPage(v: U64)
    ensures Low32(v) / 0x1000 == v / 0x1000 % 0x10_0000 && Low32(v) % 0x1000 == v % 0x1000
  {
    FieldValue(v, 0x1000, 0x10_0000);
    DivModUnique(Low32(v), 0x1000, v / 0x1000 % 0x10_0000, v % 0x1000);
  }

  /** value & mask, where the mask selects bits hi-1..lo. */
  function Field(value: U64, mask: U64,
                 ghost lo: nat, ghost hi: nat, ghost unit: nat, ghost count: nat, ghost top: nat): (r: U64)
    requires lo <= hi && unit == Pow2(lo) && count > 0 && unit * count == top == Pow2(hi)
    requires mask == top - unit
    ensures r == value / unit % count * unit
  {
    AndField(value, lo, hi);
    FieldValue(value, unit, count);
    AndBound(value, mask);
    And(value, mask)
  }

  /** a >> k */
  function ShiftRight(a: U64, k: nat, ghost unit: nat): (r: U64)
    requires unit == Pow2(k)
    ensures r == a / unit
  {
    ShrIsDiv(a, k);
    assert 0 <= a / unit <= a;
    Shr(a, k)
  }

  /** Joins a page or table base with an offset below it: base | offset. */
  function Join(base: U64, offset: U64, ghost k: nat, ghost unit: nat): (r: U64)
    requires unit == Pow2(k) && base % unit == 0 && offset < unit
    requires base + offset < 0x1_0000_0000_0000_0000
    ensures r == base + offset
  {
    OrIsSum(base, offset, k);
    Or(base, offset)
  }

  /** (entry & baseMask) | (vaddr & offsetMask): a page base joined with an offset into the page. */
  function Splice(entry: U64, baseMask: U64, vaddr: U64, offsetMask: U64,
                  ghost lo: nat, ghost hi: nat, ghost unit: nat, ghost count: nat, ghost top: nat): (r: nat)
    requires lo <= hi && unit == Pow2(lo) && count > 0 && unit * count == top == Pow2(hi)
    requires baseMask == top - unit && offsetMask == unit - 1
    ensures r == entry / unit % count * unit + vaddr % unit
    ensures r < top
  {
    AndField(entry, lo, hi);
    FieldValue(entry, unit, count);
    AndField(vaddr, 0, lo);
    SpliceValue(And(entry, baseMask), And(vaddr, offsetMask), lo, unit, entry / unit % count, count);
    Or(And(entry, baseMask), And(vaddr, offsetMask))
  }

  lemma SpliceValue(base: nat, offset: nat, lo: nat, unit: nat, q: nat, count: nat)
    requires unit == Pow2(lo) && base == q * unit && offset < unit && q < count
    ensures Or(base, offset) == base + offset < unit * count
  {
    Whole(q, unit, offset, count);
    OrIsSum(base, offset, lo);
  }
}
