// Block positions: two 26-bit coordinates and a 12-bit one in a signed 64-bit word.
module Positions {
  import opened Words
  import opened VarInt

  /** The value of the low n bits in two's complement. */
  function Signed(v: int, n: nat): int
    requires n > 0
  {
    if Low(v, n) < Pow2(n - 1) then Low(v, n) else Low(v, n) - Pow2(n)
  }

  lemma SignedInRange(v: int, n: nat)
    requires n > 0
    ensures Signed(v, n) == v <==> 0 <= v + Pow2(n - 1) < Pow2(n)
  {
    if v < 0 && 0 <= v + Pow2(n - 1) {
      DivModUnique(v, Pow2(n), -1, v + Pow2(n));
    } else if 0 <= v < Pow2(n - 1) {
      LowSmall(v, n);
    }
  }

  /** `v << k` and `v >> k` on a signed 64-bit word. */
  function ShiftLeft(v: int, k: nat): int
  {
    Signed64(Low(v, 64) * Pow2(k))
  }

  function ShiftRight(v: int, k: nat): int
  {
    v / Pow2(k)
  }

  function ToPosition(x: Int32, y: Int32, z: Int32): int
  {
    var mask26, mask12 := Pow2(26) - 1, Pow2(12) - 1;
    Signed64(BitOr(BitOr(Shl(BitAnd(Unsigned32(x), mask26), 38), Shl(BitAnd(Unsigned32(z), mask26), 12)),
                   BitAnd(Unsigned32(y), mask12)))
  }

  function PositionX(p: int): int { ShiftRight(p, 38) }

  function PositionY(p: int): int { ShiftRight(ShiftLeft(p, 52), 52) }

  function PositionZ(p: int): int { ShiftRight(ShiftLeft(p, 26), 38) }

  lemma OrBelow(hi: nat, lo: nat, k: nat)
    requires lo < Pow2(k)
    ensures BitOr(Shl(hi, k), lo) == Shl(hi, k) + lo
  {
    hide Shl, BitOr, BitAnd;
    AndAbove(lo, hi, k);
    AndCommutes(lo, Shl(hi, k));
    OrDisjoint(Shl(hi, k), lo);
  }

  lemma LowOfInt(v: Int32, n: nat)
    requires n <= 32
    ensures BitAnd(Unsigned32(v), Pow2(n) - 1) == Low(v, n)
  {
    hide BitAnd, Low, Pow2;
    AndLowMask(Unsigned32(v), n);
    assert Unsigned32(v) == Low(v, 32) by {
      Pow2Constants();
      LowIsMod(v);
    }
    LowLow(v, n, 32);
  }

  lemma LowIsMod(v: int)
    ensures Low(v, 32) == v % 0x1_0000_0000
  {
    hide Pow2;
    Pow2Constants();
  }

  lemma FieldPowers()
    ensures Pow2(11) == 0x800 && Pow2(12) == 0x1000 && Pow2(25) == 0x200_0000 && Pow2(26) == 0x400_0000
    ensures Pow2(38) == 0x40_0000_0000 && Pow2(52) == 0x10_0000_0000_0000
    ensures Pow2(64) == 0x1_0000_0000_0000_0000
  {
    assert Pow2(1) == 2 && Pow2(4) == 16 && Pow2(5) == 32;
    hide Pow2;
    Pow2Constants();
    Pow2Add(7, 4);
    Pow2Add(7, 5);
    Pow2Add(21, 4);
    Pow2Add(21, 5);
    Pow2Add(26, 12);
    Pow2Add(26, 26);
  }

  /** The packed word as a sum of its fields. */
  lemma PackedFields(x: Int32, y: Int32, z: Int32)
    ensures ToPosition(x, y, z)
         == Signed64(Low(x, 26) * 0x40_0000_0000 + Low(z, 26) * 0x1000 + Low(y, 12))
  {
    hide BitOr, BitAnd, Low, Pow2;
    LowOfInt(x, 26);
    LowOfInt(y, 12);
    LowOfInt(z, 26);
    FieldPowers();
    OrBelow(Low(x, 26), Shl(Low(z, 26), 12), 38);
    var hi := Low(x, 26) * 0x400_0000 + Low(z, 26);
    assert Shl(Low(x, 26), 38) + Shl(Low(z, 26), 12) == Shl(hi, 12);
    OrBelow(hi, Low(y, 12), 12);
  }

  /** Each coordinate comes back exactly when it is in the range of its field. */
  lemma PositionRoundTrip(x: Int32, y: Int32, z: Int32)
    ensures PositionX(ToPosition(x, y, z)) == x <==> -0x200_0000 <= x < 0x200_0000
    ensures PositionY(ToPosition(x, y, z)) == y <==> -0x800 <= y < 0x800
    ensures PositionZ(ToPosition(x, y, z)) == z <==> -0x200_0000 <= z < 0x200_0000
  {
    hide Pow2, ToPosition;
    FieldPowers();
    PackedFields(x, y, z);
    SignedInRange(x, 26);
    SignedInRange(y, 12);
    SignedInRange(z, 26);
    var lowX, lowY, lowZ := Low(x, 26), Low(y, 12), Low(z, 26);
    UnpackX(lowX, lowY, lowZ);
    UnpackY(lowX, lowY, lowZ);
    UnpackZ(lowX, lowY, lowZ);
  }

  function Word(x: nat, y: nat, z: nat): nat
  {
    x * 0x40_0000_0000 + z * 0x1000 + y
  }

  lemma UnpackX(x: nat, y: nat, z: nat)
    requires x < 0x400_0000 && y < 0x1000 && z < 0x400_0000
    ensures PositionX(Signed64(Word(x, y, z))) == if x < 0x200_0000 then x else x - 0x400_0000
  {
    hide Pow2;
    FieldPowers();
  }

  lemma Signed64OfSum(q: nat, low: nat)
    ensures Signed64(q * 0x1_0000_0000_0000_0000 + low) == Signed64(low)
  {
    assert (q * 0x1_0000_0000_0000_0000 + low) % 0x1_0000_0000_0000_0000 == low % 0x1_0000_0000_0000_0000;
  }

  lemma LowOfSigned64(w: nat)
    requires w < 0x1_0000_0000_0000_0000
    ensures Low(Signed64(w), 64) == w
  {
    hide Pow2;
    Pow2Constants();
  }

  lemma ShiftLeftTo(p: int, w: nat, k: nat, d: nat)
    requires Low(p, 64) == w && Pow2(k) == d
    ensures ShiftLeft(p, k) == Signed64(w * d)
  {
  }

  lemma ShiftRightTo(p: int, k: nat, d: nat, q: int, r: nat)
    requires Pow2(k) == d && r < d && p == q * d + r
    ensures ShiftRight(p, k) == q
  {
    DivModUnique(p, d, q, r);
  }

  /** Shifting left drops the fields above y, or above z. */
  lemma AboveY(top: nat, y: nat)
    requires y < 0x1000 && top < 0x10_0000_0000_0000
    ensures ShiftLeft(Signed64(top * 0x1000 + y), 52) == Signed64(y * 0x10_0000_0000_0000)
  {
    hide Low, Pow2, Signed64, ShiftLeft;
    FieldPowers();
    var w := top * 0x1000 + y;
    LowOfSigned64(w);
    ShiftLeftTo(Signed64(w), w, 52, 0x10_0000_0000_0000);
    Signed64OfSum(top, y * 0x10_0000_0000_0000);
  }

  lemma AboveZ(x: nat, low: nat)
    requires x < 0x400_0000 && low < 0x40_0000_0000
    ensures ShiftLeft(Signed64(x * 0x40_0000_0000 + low), 26) == Signed64(low * 0x400_0000)
  {
    hide Low, Pow2, Signed64, ShiftLeft;
    FieldPowers();
    var w := x * 0x40_0000_0000 + low;
    LowOfSigned64(w);
    ShiftLeftTo(Signed64(w), w, 26, 0x400_0000);
    Signed64OfSum(x, low * 0x400_0000);
  }

  lemma UnpackY(x: nat, y: nat, z: nat)
    requires x < 0x400_0000 && y < 0x1000 && z < 0x400_0000
    ensures PositionY(Signed64(Word(x, y, z))) == if y < 0x800 then y else y - 0x1000
  {
    hide Low, Pow2, ShiftLeft, ShiftRight;
    FieldPowers();
    AboveY(x * 0x400_0000 + z, y);
    ShiftRightTo(Signed64(y * 0x10_0000_0000_0000), 52, 0x10_0000_0000_0000, if y < 0x800 then y else y - 0x1000, 0);
  }

  lemma SignedWord(w: nat)
    requires w < 0x1_0000_0000_0000_0000
    ensures Signed64(w) == if w < 0x8000_0000_0000_0000 then w else w - 0x1_0000_0000_0000_0000
  {
    SmallMod(w, 0x1_0000_0000_0000_0000);
  }

  lemma SignedTop(z: nat, y: nat)
    requires z < 0x400_0000 && y < 0x1000
    ensures Signed64((z * 0x1000 + y) * 0x400_0000)
         == (if z < 0x200_0000 then z else z - 0x400_0000) * 0x40_0000_0000 + y * 0x400_0000
  {
    hide Signed64;
    SignedWord((z * 0x1000 + y) * 0x400_0000);
  }

  lemma UnpackZ(x: nat, y: nat, z: nat)
    requires x < 0x400_0000 && y < 0x1000 && z < 0x400_0000
    ensures PositionZ(Signed64(Word(x, y, z))) == if z < 0x200_0000 then z else z - 0x400_0000
  {
    hide Low, Pow2, ShiftLeft, ShiftRight, Signed64;
    FieldPowers();
    var low := z * 0x1000 + y;
    AboveZ(x, low);
    SignedTop(z, y);
    ShiftRightTo(Signed64(low * 0x400_0000), 38, 0x40_0000_0000, if z < 0x200_0000 then z else z - 0x400_0000,
                 y * 0x400_0000);
  }
}
