// Machine words: powers of two, the two's-complement views of the C integer
// types, and the bitwise operators as the source uses them.
module Words {

  type Byte = b: int | 0 <= b < 0x100

  type Int32 = v: int | -0x8000_0000 <= v < 0x8000_0000

  const INT32_MAX: Int32 := 0x7FFF_FFFF

  /** The value of `(uint32_t)v`. */
  function Unsigned32(v: Int32): (u: nat)
    ensures u < 0x1_0000_0000
  {
    v % 0x1_0000_0000
  }

  /** The value of `(int32_t)u`. */
  function Signed32(u: nat): Int32
  {
    var w := u % 0x1_0000_0000;
    if w < 0x8000_0000 then w else w - 0x1_0000_0000
  }

  lemma SignedUnsigned(v: Int32)
    ensures Signed32(Unsigned32(v)) == v
  {
  }

  lemma UnsignedSigned(u: nat)
    ensures Unsigned32(Signed32(u)) == u % 0x1_0000_0000 <= u
  {
  }

  function Min(a: int, b: int): int
  {
    if a < b then a else b
  }

  /** n blocks of k units. A name for the product keeps non-linear terms out of the proofs. */
  function Times(n: nat, k: nat): nat
  {
    n * k
  }

  lemma TimesStep(n: nat, k: nat)
    ensures Times(0, k) == 0
    ensures Times(n + 1, k) == Times(n, k) + k
  {
  }

  lemma TimesMonotonic(a: nat, b: nat, k: nat)
    requires a <= b
    ensures Times(a, k) <= Times(b, k)
  {
    assert (b - a) * k >= 0;
  }

  function Pow2(n: nat): (p: nat)
    ensures p > 0
  {
    if n == 0 then 1 else 2 * Pow2(n - 1)
  }

  lemma {:induction false} Pow2Add(a: nat, b: nat)
    ensures Pow2(a + b) == Pow2(a) * Pow2(b)
  {
    if a != 0 {
      Pow2Add(a - 1, b);
      assert Pow2(a + b) == 2 * (Pow2(a - 1) * Pow2(b));
    }
  }

  lemma {:induction false} Pow2Monotonic(a: nat, b: nat)
    requires a <= b
    ensures Pow2(a) <= Pow2(b)
  {
    if a < b {
      Pow2Monotonic(a, b - 1);
    }
  }

  lemma Pow2Constants()
    ensures Pow2(7) == 0x80 && Pow2(8) == 0x100 && Pow2(16) == 0x1_0000
    ensures Pow2(14) == 0x4000 && Pow2(21) == 0x20_0000 && Pow2(28) == 0x1000_0000
    ensures Pow2(32) == 0x1_0000_0000 && Pow2(35) == 0x8_0000_0000
    ensures Pow2(64) == 0x1_0000_0000_0000_0000
  {
    assert Pow2(3) == 8 && Pow2(4) == 16;
    hide Pow2;
    Pow2Add(3, 4);
    Pow2Add(4, 4);
    Pow2Add(7, 7);
    Pow2Add(14, 7);
    Pow2Add(14, 14);
    Pow2Add(28, 7);
    Pow2Add(8, 8);
    Pow2Add(16, 16);
    Pow2Add(32, 32);
  }

  lemma SmallMod(x: int, d: int)
    requires 0 <= x < d
    ensures x % d == x && x / d == 0
  {
    DivModUnique(x, d, 0, x);
  }

  lemma SmallMultiple(a: int, d: int)
    requires d > 0
    requires -d < a * d < d
    ensures a == 0
  {
  }

  lemma SameRemainder(d: int, q: int, r: int, q': int, r': int)
    requires q * d + r == q' * d + r'
    requires 0 <= r < d && 0 <= r' < d
    ensures q == q' && r == r'
  {
    assert (q - q') * d == r' - r;
    SmallMultiple(q - q', d);
  }

  /** Quotient and remainder are determined by the division equation. */
  lemma DivModUnique(x: int, d: int, q: int, r: int)
    requires d > 0
    requires x == q * d + r
    requires 0 <= r < d
    ensures x / d == q
    ensures x % d == r
  {
    SameRemainder(d, q, r, x / d, x % d);
  }

  lemma MulStrict(a: nat, b: nat, d: nat)
    requires a < b && d > 0
    ensures a * d + d <= b * d
  {
    assert (a + 1) * d <= b * d;
  }

  lemma Distribute(q: int, b: int, r: int, a: int)
    ensures (q * b + r) * a == q * (a * b) + r * a
  {
  }

  lemma DivDiv(x: nat, a: nat, b: nat)
    requires a > 0 && b > 0
    ensures a * b > 0
    ensures x / (a * b) == x / a / b
    ensures x % (a * b) == (x / a % b) * a + x % a
  {
    var y := x / a;
    var q, r := y / b, y % b;
    MulStrict(r, b, a);
    assert x == (q * b + r) * a + x % a;
    Distribute(q, b, r, a);
    DivModUnique(x, a * b, q, r * a + x % a);
  }

  // ------------------------------------------------------------------
  // Shifts and truncation of unsigned numbers
  // ------------------------------------------------------------------

  /** `v << k` */
  function Shl(v: nat, k: nat): nat
  {
    v * Pow2(k)
  }

  lemma DivNonNegative(x: nat, d: nat)
    requires d > 0
    ensures x / d >= 0
  {
    var q := x / d;
    assert q * d + x % d == x;
    assert (q + 1) * d > 0;
  }

  /** `x >> k` */
  function Shr(x: nat, k: nat): nat
  {
    DivNonNegative(x, Pow2(k));
    x / Pow2(k)
  }

  /** The low k bits of `x`. */
  function Low(x: int, k: nat): (r: nat)
    ensures r < Pow2(k)
  {
    x % Pow2(k)
  }

  lemma LowShr(x: nat, k: nat)
    ensures x == Low(x, k) + Shl(Shr(x, k), k)
  {
  }

  lemma ShrUnique(lo: nat, v: nat, k: nat)
    requires lo < Pow2(k)
    ensures Shr(lo + Shl(v, k), k) == v
    ensures Low(lo + Shl(v, k), k) == lo
  {
    DivModUnique(lo + v * Pow2(k), Pow2(k), v, lo);
  }

  lemma LowSmall(x: nat, k: nat)
    requires x < Pow2(k)
    ensures Low(x, k) == x && Shr(x, k) == 0
  {
    SmallMod(x, Pow2(k));
  }

  lemma ShlShl(v: nat, a: nat, b: nat)
    ensures Shl(Shl(v, a), b) == Shl(v, a + b)
  {
    Pow2Add(a, b);
    Associate(v, Pow2(a), Pow2(b));
  }

  lemma Associate(a: int, b: int, c: int)
    ensures a * b * c == a * (b * c)
  {
  }

  lemma ShlPlus(v: nat, w: nat, k: nat)
    ensures Shl(v + w, k) == Shl(v, k) + Shl(w, k)
  {
  }

  lemma ShlFits(v: nat, a: nat, k: nat, lo: nat)
    requires v < Pow2(a) && lo < Pow2(k)
    ensures lo + Shl(v, k) < Pow2(a + k)
  {
    Pow2Add(a, k);
    MulStrict(v, Pow2(a), Pow2(k));
  }

  lemma ShrShr(x: nat, a: nat, b: nat)
    ensures Shr(Shr(x, a), b) == Shr(x, a + b)
    ensures Low(x, a + b) == Shl(Low(Shr(x, a), b), a) + Low(x, a)
  {
    Pow2Add(a, b);
    DivDiv(x, Pow2(a), Pow2(b));
  }

  lemma LowLow(x: int, a: nat, b: nat)
    requires a <= b
    ensures Low(Low(x, b), a) == Low(x, a)
  {
    hide Pow2;
    Pow2Add(a, b - a);
    ModMod(x, Pow2(a), Pow2(b - a));
  }

  lemma ModMod(x: int, d: nat, e: nat)
    requires d > 0 && e > 0
    ensures d * e > 0
    ensures x % (d * e) % d == x % d
  {
    var q, r := x / (d * e), x % (d * e);
    calc {
      x;
      q * (d * e) + (r / d * d + r % d);
      { Associate(q, e, d); }
      (q * e + r / d) * d + r % d;
    }
    DivModUnique(x, d, q * e + r / d, r % d);
  }

  // ------------------------------------------------------------------
  // Bitwise operators on unsigned words
  // ------------------------------------------------------------------

  function BitAnd(x: nat, y: nat): nat
  {
    if x == 0 || y == 0 then 0
    else 2 * BitAnd(x / 2, y / 2) + (if x % 2 == 1 && y % 2 == 1 then 1 else 0)
  }

  function BitOr(x: nat, y: nat): nat
    decreases x + y
  {
    if x == 0 then y
    else if y == 0 then x
    else 2 * BitOr(x / 2, y / 2) + (if x % 2 == 1 || y % 2 == 1 then 1 else 0)
  }

  /** `~x` in a word of the given width. */
  function BitNot(x: nat, width: nat): nat
    requires x < Pow2(width)
  {
    Pow2(width) - 1 - x
  }

  lemma AndEven(x: nat, m: nat)
    ensures BitAnd(x, 2 * m) == 2 * BitAnd(x / 2, m)
  {
    assert 2 * m / 2 == m && 2 * m % 2 == 0;
  }

  lemma AndOdd(x: nat, m: nat)
    ensures BitAnd(x, 2 * m + 1) == 2 * BitAnd(x / 2, m) + x % 2
  {
  }

  lemma {:induction false} AndLowMask(x: nat, k: nat)
    ensures BitAnd(x, Pow2(k) - 1) == Low(x, k)
  {
    if k != 0 {
      var p := Pow2(k - 1);
      AndLowMask(x / 2, k - 1);
      AndOdd(x, p - 1);
      DivDiv(x, 2, p);
    }
  }

  lemma ShlStep(a: nat, k: nat)
    requires k > 0
    ensures Shl(a, k) == 2 * Shl(a, k - 1)
  {
  }

  lemma ShrStep(x: nat, k: nat)
    requires k > 0
    ensures Shr(x, k) == Shr(x / 2, k - 1)
  {
    DivDiv(x, 2, Pow2(k - 1));
  }

  /** Masking out a field keeps exactly that field, in place. */
  lemma {:induction false} AndFieldMask(x: nat, offset: nat, width: nat)
    ensures BitAnd(x, Shl(Pow2(width) - 1, offset)) == Shl(Low(Shr(x, offset), width), offset)
  {
    if offset == 0 {
      AndLowMask(x, width);
    } else {
      hide Shl, Shr, Low;
      AndFieldMask(x / 2, offset - 1, width);
      AndEven(x, Shl(Pow2(width) - 1, offset - 1));
      ShlStep(Pow2(width) - 1, offset);
      ShrStep(x, offset);
      ShlStep(Low(Shr(x, offset), width), offset);
    }
  }

  /** `x & ~m` clears exactly the bits of `x & m`. */
  lemma {:induction false} AndNot(x: nat, m: nat, width: nat)
    requires x < Pow2(width) && m < Pow2(width)
    ensures BitAnd(x, BitNot(m, width)) == x - BitAnd(x, m)
  {
    if width != 0 && x != 0 {
      AndNot(x / 2, m / 2, width - 1);
      assert BitNot(m, width) / 2 == BitNot(m / 2, width - 1);
      assert BitNot(m, width) % 2 == 1 - m % 2;
    }
  }

  /** Words without a common bit are joined by `|` as by `+`. */
  lemma {:induction false} OrDisjoint(x: nat, y: nat)
    requires BitAnd(x, y) == 0
    ensures BitOr(x, y) == x + y
    decreases x + y
  {
    if x != 0 && y != 0 {
      OrDisjoint(x / 2, y / 2);
    }
  }

  /** `lo | (hi << offset)` when lo fits below the offset. */
  lemma {:induction false} OrAbove(lo: nat, hi: nat, offset: nat)
    requires lo < Pow2(offset)
    ensures BitOr(lo, Shl(hi, offset)) == lo + Shl(hi, offset)
  {
    AndAbove(lo, hi, offset);
    OrDisjoint(lo, Shl(hi, offset));
  }

  lemma {:induction false} AndAbove(lo: nat, hi: nat, offset: nat)
    requires lo < Pow2(offset)
    ensures BitAnd(lo, Shl(hi, offset)) == 0
  {
    if offset != 0 {
      hide Shl;
      AndAbove(lo / 2, hi, offset - 1);
      ShlStep(hi, offset);
      AndEven(lo, Shl(hi, offset - 1));
    }
  }

  lemma {:induction false} AndCommutes(x: nat, y: nat)
    ensures BitAnd(x, y) == BitAnd(y, x)
  {
    if x != 0 && y != 0 {
      AndCommutes(x / 2, y / 2);
    }
  }

  lemma ShlZero(v: nat)
    ensures Shl(v, 0) == v && Pow2(0) == 1
  {
  }

  lemma HalfBelow(lo: nat, k: nat)
    requires k > 0 && lo < Pow2(k)
    ensures lo / 2 < Pow2(k - 1)
  {
  }

  /** A word with an empty field shares no bit with a value placed in that field. */
  lemma {:induction false} AndClearedField(lo: nat, hi: nat, v: nat, offset: nat, width: nat)
    requires lo < Pow2(offset) && v < Pow2(width)
    ensures BitAnd(lo + Shl(hi, offset + width), Shl(v, offset)) == 0
  {
    if offset == 0 {
      ShlZero(v);
      hide *;
      AndAbove(v, hi, width);
      AndCommutes(v, Shl(hi, width));
    } else {
      hide Shl, Pow2, BitAnd;
      assert lo / 2 < Pow2(offset - 1) by {
        HalfBelow(lo, offset);
      }
      AndClearedField(lo / 2, hi, v, offset - 1, width);
      ShlStep(hi, offset + width);
      ShlStep(v, offset);
      AndEven(lo + Shl(hi, offset + width), Shl(v, offset - 1));
    }
  }
}
