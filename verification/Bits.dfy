/** Unsigned machine words and the C bit operators on them.

    Words are modelled as bounded naturals. The operators are defined bit by bit, and the lemmas
    say what they do to the bit fields the programs cut out: a mask is a division and a remainder,
    an "or" of disjoint fields is a sum. */
module Bits {

  const TWO32: nat := 0x1_0000_0000
  const TWO64: nat := 0x1_0000_0000_0000_0000

  type Byte = x: nat | x < 0x100
  type Word32 = x: nat | x < 0x1_0000_0000
  type Word = x: nat | x < 0x1_0000_0000_0000_0000

  function Pow2(n: nat): (r: nat)
    ensures r >= 1
  {
    if n == 0 then 1 else 2 * Pow2(n - 1)
  }

  function And(a: nat, b: nat): nat {
    if a == 0 || b == 0 then 0
    else 2 * And(a / 2, b / 2) + (if a % 2 == 1 && b % 2 == 1 then 1 else 0)
  }

  function Or(a: nat, b: nat): nat {
    if a == 0 && b == 0 then 0
    else 2 * Or(a / 2, b / 2) + (if a % 2 == 1 || b % 2 == 1 then 1 else 0)
  }

  /** Masking with 2^width - 1 keeps the low `width` bits. */
  lemma {:induction false} AndLow(a: nat, width: nat)
    ensures And(a, Pow2(width) - 1) == a % Pow2(width)
  {
    hide And;
    if width == 0 {
      AndZero(a);
    } else {
      AndLow(a / 2, width - 1);
      ModHalf(a, Pow2(width - 1));
      AndOdd(a, Pow2(width - 1) - 1);
    }
  }

  lemma AndZero(a: nat)
    ensures And(a, 0) == 0
  {
  }

  lemma AndOdd(a: nat, b: nat)
    ensures And(a, 2 * b + 1) == 2 * And(a / 2, b) + a % 2
  {
    DivModUnique(2 * b + 1, 2, b, 1);
  }

  /** A number modulo 2p is its half modulo p, with the low bit put back. */
  lemma ModHalf(a: nat, p: nat)
    requires p >= 1
    ensures a % (2 * p) == 2 * (a / 2 % p) + a % 2
  {
    var h := a / 2;
    var q, r := h / p, h % p;
    assert a == 2 * (p * q + r) + a % 2;
    assert a == (2 * p) * q + (2 * r + a % 2);
    DivModUnique(a, 2 * p, q, 2 * r + a % 2);
  }

  lemma DivModUnique(a: nat, b: nat, q: nat, r: nat)
    requires r < b && a == b * q + r
    ensures a / b == q && a % b == r
  {
    var q', r' := a / b, a % b;
    assert a == b * q' + r';
    if q' < q {
      assert b * (q' + 1) <= b * q by { MulMono(b, q' + 1, q); }
    } else if q < q' {
      assert b * (q + 1) <= b * q' by { MulMono(b, q + 1, q'); }
    }
  }

  lemma MulMono(b: nat, x: nat, y: nat)
    requires x <= y
    ensures b * x <= b * y
  {
  }

  lemma DivDiv(a: nat, b: nat, c: nat)
    requires b > 0 && c > 0
    ensures b * c > 0 && a / b / c == a / (b * c)
  {
    var q, r := a / b, a % b;
    var q2, r2 := q / c, q % c;
    assert a == b * q + r && q == c * q2 + r2;
    assert b * (c * q2 + r2) == (b * c) * q2 + b * r2;
    assert b * r2 + r < b * c by { MulMono(b, r2 + 1, c); }
    DivModUnique(a, b * c, q2, b * r2 + r);
  }

  /** The powers that occur as field positions and widths. */
  lemma Powers()
    ensures Pow2(0) == 1 && Pow2(1) == 2 && Pow2(2) == 4 && Pow2(6) == 0x40 && Pow2(9) == 0x200 && Pow2(10) == 0x400
    ensures Pow2(12) == 0x1000 && Pow2(20) == 0x10_0000 && Pow2(21) == 0x20_0000 && Pow2(30) == 0x4000_0000
    ensures Pow2(36) == 0x10_0000_0000 && Pow2(39) == 0x80_0000_0000 && Pow2(52) == 0x10_0000_0000_0000
    ensures Pow2(62) == 0x4000_0000_0000_0000 && Pow2(64) == TWO64
  {
    assert Pow2(8) == 0x100;
    assert Pow2(16) == 0x1_0000;
    assert Pow2(24) == 0x100_0000;
    assert Pow2(32) == 0x1_0000_0000;
    assert Pow2(40) == 0x100_0000_0000;
    assert Pow2(48) == 0x1_0000_0000_0000;
    assert Pow2(56) == 0x100_0000_0000_0000;
  }

  function Shl(a: nat, k: nat): nat {
    if k == 0 then a else 2 * Shl(a, k - 1)
  }

  function Shr(a: nat, k: nat): nat {
    if k == 0 then a else Shr(a / 2, k - 1)
  }

  lemma {:induction false} ShlIsTimes(a: nat, k: nat)
    ensures Shl(a, k) == a * Pow2(k)
  {
    if k > 0 { ShlIsTimes(a, k - 1); }
  }

  lemma {:induction false} ShrIsDiv(a: nat, k: nat)
    ensures Shr(a, k) == a / Pow2(k)
    decreases k
  {
    if k > 0 {
      ShrIsDiv(a / 2, k - 1);
      DivDiv(a, 2, Pow2(k - 1));
    }
  }

  /** Masking with a shifted mask: cut the field out at the bottom, then put it back in place. */
  lemma {:induction false} AndShift(a: nat, mask: nat, lo: nat)
    ensures And(a, Shl(mask, lo)) == Shl(And(Shr(a, lo), mask), lo)
    decreases lo
  {
    if lo > 0 {
      AndShift(a / 2, mask, lo - 1);
      AndTwice(a, Shl(mask, lo - 1));
    }
  }

  lemma AndTwice(a: nat, b: nat)
    ensures And(a, 2 * b) == 2 * And(a / 2, b)
  {
    assert (2 * b) / 2 == b && (2 * b) % 2 == 0;
  }

  /** Masking with a run of `width` ones at bit `lo` keeps that field and clears the rest. */
  lemma AndField(a: nat, lo: nat, width: nat)
    ensures And(a, Shl(Pow2(width) - 1, lo)) == a / Pow2(lo) % Pow2(width) * Pow2(lo)
  {
    AndShift(a, Pow2(width) - 1, lo);
    AndLow(Shr(a, lo), width);
    ShrIsDiv(a, lo);
    ShlIsTimes(And(Shr(a, lo), Pow2(width) - 1), lo);
  }

  lemma {:induction false} OrZero(a: nat)
    ensures Or(a, 0) == a && Or(0, a) == a
  {
    if a > 0 { OrZero(a / 2); }
  }

  /** "Or" into a word whose low k bits are clear only concerns those bits. */
  lemma {:induction false} OrSplit(a: nat, x: nat, y: nat, k: nat)
    requires a % Pow2(k) == 0 && x < Pow2(k) && y < Pow2(k)
    ensures Or(a + x, y) == a + Or(x, y)
    decreases k
  {
    if k == 0 {
      OrZero(a);
    } else {
      ModHalf(a, Pow2(k - 1));
      OrSplit(a / 2, x / 2, y / 2, k - 1);
      assert (a + x) / 2 == a / 2 + x / 2;
    }
  }

  lemma {:induction false} OrCommutes(a: nat, b: nat)
    ensures Or(a, b) == Or(b, a)
  {
    if a != 0 || b != 0 { OrCommutes(a / 2, b / 2); }
  }

  /** "Or" of a field into a word where that field is zero adds it. */
  lemma {:induction false} OrField(a: nat, f: nat, lo: nat, width: nat)
    requires a / Pow2(lo) % Pow2(width) == 0 && f < Pow2(width)
    ensures Or(a, Shl(f, lo)) == a + Shl(f, lo)
    decreases lo
  {
    hide Or;
    if lo == 0 {
      OrDisjoint(a, f, width);
    } else {
      DivDiv(a, 2, Pow2(lo - 1));
      OrField(a / 2, f, lo - 1, width);
      OrEven(a, Shl(f, lo - 1));
    }
  }

  lemma OrEven(a: nat, b: nat)
    ensures Or(a, 2 * b) == 2 * Or(a / 2, b) + a % 2
  {
    DivModUnique(2 * b, 2, b, 0);
  }

  /** "Or" of two words that do not meet is their sum. */
  lemma {:induction false} OrDisjoint(a: nat, y: nat, k: nat)
    requires a % Pow2(k) == 0 && y < Pow2(k)
    ensures Or(a, y) == a + y
    decreases k
  {
    if k == 0 {
      OrZero(a);
    } else {
      ModHalf(a, Pow2(k - 1));
      OrDisjoint(a / 2, y / 2, k - 1);
    }
  }

  lemma {:induction false} PowMono(a: nat, b: nat)
    requires a <= b
    ensures Pow2(a) <= Pow2(b)
    decreases b
  {
    if a < b { PowMono(a, b - 1); }
  }

  lemma MulTwice(p: nat, q: nat)
    ensures p * (2 * q) == 2 * (p * q)
  {
  }

  lemma {:induction false} PowSum(a: nat, b: nat)
    ensures Pow2(a + b) == Pow2(a) * Pow2(b)
    decreases b
  {
    if b > 0 {
      PowSum(a, b - 1);
      MulTwice(Pow2(a), Pow2(b - 1));
    }
  }

  // The same facts with the powers of two given as numbers, for use on the programs' constants.

  lemma Mask(a: nat, lo: nat, width: nat, p: nat, q: nat)
    requires p == Pow2(lo) && q == Pow2(width)
    ensures And(a, (q - 1) * p) == a / p % q * p
  {
    AndField(a, lo, width);
    ShlIsTimes(q - 1, lo);
  }

  lemma SetField(a: nat, f: nat, lo: nat, width: nat, p: nat, q: nat)
    requires p == Pow2(lo) && q == Pow2(width) && a / p % q == 0 && f < q
    ensures Or(a, Shl(f, lo)) == a + f * p && Shl(f, lo) == f * p
  {
    OrField(a, f, lo, width);
    ShlIsTimes(f, lo);
  }

  lemma ShiftRight(a: nat, k: nat, p: nat)
    requires p == Pow2(k)
    ensures Shr(a, k) == a / p
  {
    ShrIsDiv(a, k);
  }

  /** A flag goes into bits of the low part that are still clear, so the "or" adds the field. */
  lemma OrFlag(high: nat, k: nat, unit: nat, low: nat, f: nat, lo: nat, width: nat, p: nat)
    requires unit == Pow2(k) && p == Pow2(lo) && low / p % Pow2(width) == 0 && f < Pow2(width)
    requires low < unit && f * p < unit
    ensures Or(unit * high + low, Shl(f, lo)) == unit * high + low + f * p
  {
    hide Or, Shl, Pow2;
    SetField(low, f, lo, width, p, Pow2(width));
    DivModUnique(unit * high, unit, high, 0);
    OrSplit(unit * high, low, f * p, k);
  }
}
