// Bit-packed arrays: fields of a fixed width, lowest bits first, none of them
// crossing from one 64-bit long into the next.
module Packed {
  import opened Words
  import opened Bytes
  import opened VarInt

  // ------------------------------------------------------------------
  // Fields of a word
  // ------------------------------------------------------------------

  /** The field of `width` bits at bit `offset` of `l`. */
  function Field(l: nat, offset: nat, width: nat): nat
  {
    Low(Shr(l, offset), width)
  }

  /** `l` with that field replaced by the low bits of `value`. */
  function SetField(l: nat, offset: nat, width: nat, value: int): nat
  {
    Low(l, offset) + Shl(Low(value, width), offset) + Shl(Shr(l, offset + width), offset + width)
  }

  lemma SplitAt(l: nat, offset: nat, width: nat)
    ensures l == Low(l, offset) + Shl(Field(l, offset, width), offset) + Shl(Shr(l, offset + width), offset + width)
  {
    hide Shl, Shr, Low;
    LowShr(l, offset + width);
    ShrShr(l, offset, width);
  }

  /** What lies above a field does not show in it. */
  lemma FieldBelow(lo: nat, v: nat, top: nat, offset: nat, width: nat)
    requires lo < Pow2(top) && offset + width <= top
    ensures Field(lo + Shl(v, top), offset, width) == Field(lo, offset, width)
  {
    hide Shl, Shr, Low;
    var x := lo + Shl(v, top);
    ShrUnique(lo, v, top);
    LowOfField(x, top, offset, width);
  }

  /** Truncating above a field leaves the field alone. */
  lemma LowOfField(x: nat, top: nat, offset: nat, width: nat)
    requires offset + width <= top
    ensures Field(Low(x, top), offset, width) == Field(x, offset, width)
  {
    hide Shl, Shr, Low;
    ShrShr(x, offset, top - offset);
    ShrUnique(Low(x, offset), Low(Shr(x, offset), top - offset), offset);
    LowLow(Shr(x, offset), width, top - offset);
  }

  lemma FieldAbove(l: nat, offset: nat, width: nat)
    requires l < Pow2(offset)
    ensures Field(l, offset, width) == 0
  {
    hide Shl, Shr, Low;
    LowSmall(l, offset);
    LowSmall(0, width);
  }

  lemma FieldTop(lo: nat, v: nat, offset: nat, width: nat)
    requires lo < Pow2(offset)
    ensures Field(lo + Shl(v, offset), offset, width) == Low(v, width)
  {
    hide Shl, Shr, Low;
    ShrUnique(lo, v, offset);
  }

  /** The new field reads back and every disjoint field is as before. */
  lemma SetFieldIsolated(l: nat, offset: nat, width: nat, value: int, offset': nat, width': nat)
    ensures Field(SetField(l, offset, width, value), offset, width) == Low(value, width)
    ensures offset' + width' <= offset || offset + width <= offset' ==>
              Field(SetField(l, offset, width, value), offset', width') == Field(l, offset', width')
  {
    hide Shl, Shr, Low;
    var lo, hi, v := Low(l, offset), Shr(l, offset + width), Low(value, width);
    var r, below := SetField(l, offset, width, value), lo + Shl(v, offset);
    ShlFits(v, width, offset, lo);
    ShrUnique(below, hi, offset + width);
    FieldBelow(below, hi, offset + width, offset, width);
    FieldTop(lo, v, offset, width);
    LowLow(value, width, width);
    if offset' + width' <= offset {
      FieldBelow(below, hi, offset + width, offset', width');
      FieldBelow(lo, v, offset, offset', width');
      LowOfField(l, offset, offset', width');
    } else if offset + width <= offset' {
      ShrShr(r, offset + width, offset' - offset - width);
      ShrShr(l, offset + width, offset' - offset - width);
    }
  }

  /** The low bits of a C int do not depend on its width. */
  lemma LowBits(v: Int32, width: nat)
    requires width <= 32
    ensures Low(Unsigned32(v), width) == Low(v, width)
  {
    hide Pow2;
    Pow2Constants();
    assert Unsigned32(v) == Low(v, 32);
    LowLow(v, width, 32);
  }

  // ------------------------------------------------------------------
  // Packing as a sum, and what a long holds
  // ------------------------------------------------------------------

  /** How many fields of `bpe` bits a long takes. */
  function PerLong(bpe: nat): (n: nat)
    requires 1 <= bpe <= 64
    ensures 1 <= n <= 64 && n * bpe <= 64 < (n + 1) * bpe
  {
    64 / bpe
  }

  lemma LongHoldsFields(bpe: nat, n: nat)
    requires 1 <= bpe <= 64
    requires n <= PerLong(bpe)
    ensures Times(n, bpe) <= 64
  {
    TimesMonotonic(n, PerLong(bpe), bpe);
  }

  /** The sum of (vals[n] mod 2^bpe) * 2^(n * bpe). */
  function PackLong(vals: seq<int>, bpe: nat): nat
  {
    if vals == [] then 0
    else
      var n := |vals| - 1;
      PackLong(vals[..n], bpe) + Shl(Low(vals[n], bpe), Times(n, bpe))
  }

  lemma {:induction false} PackLongFits(vals: seq<int>, bpe: nat)
    ensures PackLong(vals, bpe) < Pow2(Times(|vals|, bpe))
  {
    if vals != [] {
      hide Shl, Low, Pow2, Times;
      var n := |vals| - 1;
      PackLongFits(vals[..n], bpe);
      TimesStep(n, bpe);
      ShlFits(Low(vals[n], bpe), bpe, Times(n, bpe), PackLong(vals[..n], bpe));
    } else {
      assert Pow2(0) == 1;
    }
  }

  /** Field n of the packed long is the n-th value, and the fields past the last value are empty. */
  lemma {:induction false} PackLongField(vals: seq<int>, bpe: nat, n: nat)
    ensures Field(PackLong(vals, bpe), Times(n, bpe), bpe) == if n < |vals| then Low(vals[n], bpe) else 0
  {
    hide Field, Shl, Low, Pow2, Times;
    if n >= |vals| {
      PackLongFits(vals, bpe);
      TimesMonotonic(|vals|, n, bpe);
      Pow2Monotonic(Times(|vals|, bpe), Times(n, bpe));
      FieldAbove(PackLong(vals, bpe), Times(n, bpe), bpe);
    } else {
      var last := |vals| - 1;
      var lo := PackLong(vals[..last], bpe);
      PackLongFits(vals[..last], bpe);
      if n == last {
        FieldTop(lo, Low(vals[last], bpe), Times(last, bpe), bpe);
        LowLow(vals[last], bpe, bpe);
      } else {
        TimesStep(n, bpe);
        TimesMonotonic(n + 1, last, bpe);
        FieldBelow(lo, Low(vals[last], bpe), Times(last, bpe), Times(n, bpe), bpe);
        PackLongField(vals[..last], bpe, n);
      }
    }
  }

  /** The values cut into longs: every long but the last is full. */
  function PackLongs(vals: seq<int>, bpe: nat): (longs: seq<nat>)
    requires 1 <= bpe <= 64
  {
    if |vals| <= PerLong(bpe) then
      if vals == [] then [] else [PackLong(vals, bpe)]
    else [PackLong(vals[..PerLong(bpe)], bpe)] + PackLongs(vals[PerLong(bpe)..], bpe)
  }

  function CeilDiv(a: nat, b: nat): nat
    requires b > 0
  {
    (a + b - 1) / b
  }

  lemma CeilDivStep(a: nat, b: nat)
    requires b > 0
    ensures a == 0 ==> CeilDiv(a, b) == 0
    ensures 0 < a <= b ==> CeilDiv(a, b) == 1
    ensures a > b ==> CeilDiv(a, b) == 1 + CeilDiv(a - b, b)
  {
    if a == 0 {
      SmallMod(b - 1, b);
    } else if a <= b {
      DivModUnique(a + b - 1, b, 1, a - 1);
    } else {
      var q, r := (a - 1) / b, (a - 1) % b;
      DivModUnique(a - 1 + b, b, q + 1, r);
    }
  }

  lemma {:induction false} PackLongsCount(vals: seq<int>, bpe: nat)
    requires 1 <= bpe <= 64
    ensures |PackLongs(vals, bpe)| == CeilDiv(|vals|, PerLong(bpe))
  {
    hide CeilDiv, PerLong, PackLong;
    CeilDivStep(|vals|, PerLong(bpe));
    if |vals| > PerLong(bpe) {
      PackLongsCount(vals[PerLong(bpe)..], bpe);
    }
  }

  /** Long i is the sum of its own group of values. */
  lemma {:induction false} PackLongsAt(vals: seq<int>, bpe: nat, i: nat)
    requires 1 <= bpe <= 64
    requires i < |PackLongs(vals, bpe)|
    ensures Times(i, PerLong(bpe)) < |vals|
    ensures PackLongs(vals, bpe)[i] ==
              PackLong(vals[Times(i, PerLong(bpe))..Min(Times(i + 1, PerLong(bpe)), |vals|)], bpe)
  {
    hide PerLong, PackLong, Times;
    var per := PerLong(bpe);
    TimesStep(i, per);
    if |vals| <= per {
      assert vals[..|vals|] == vals;
    } else if i > 0 {
      PackLongsAt(vals[per..], bpe, i - 1);
      TimesStep(i - 1, per);
      SliceOfTail(vals, per, Times(i - 1, per), Min(Times(i, per), |vals| - per));
    }
  }

  lemma SliceOfTail(s: seq<int>, k: nat, a: nat, b: nat)
    requires k <= |s| && a <= b <= |s| - k
    ensures s[k..][a..b] == s[k + a..k + b]
  {
  }

  // ------------------------------------------------------------------
  // Unpacking
  // ------------------------------------------------------------------

  /** Field n of a long, as the reader stores it in an int. */
  function State(l: nat, n: nat, bpe: nat): (v: Int32)
    requires bpe <= 31
    ensures 0 <= v < Pow2(bpe)
  {
    Pow2Monotonic(bpe, 31);
    Pow2Constants();
    Field(l, Times(n, bpe), bpe)
  }

  function UnpackLong(l: nat, bpe: nat): (vals: seq<Int32>)
    requires 1 <= bpe <= 31
    ensures |vals| == PerLong(bpe)
  {
    seq(PerLong(bpe), n requires 0 <= n => State(l, n, bpe))
  }

  function Unpack(longs: seq<nat>, bpe: nat): (vals: seq<Int32>)
    requires 1 <= bpe <= 31
  {
    if longs == [] then [] else UnpackLong(longs[0], bpe) + Unpack(longs[1..], bpe)
  }

  lemma {:induction false} UnpackLength(longs: seq<nat>, bpe: nat)
    requires 1 <= bpe <= 31
    ensures |Unpack(longs, bpe)| == Times(|longs|, PerLong(bpe))
  {
    hide PerLong, UnpackLong, Times;
    TimesStep(0, PerLong(bpe));
    if longs != [] {
      TimesStep(|longs| - 1, PerLong(bpe));
      UnpackLength(longs[1..], bpe);
    }
  }

  function Zeros(n: nat): (z: seq<Int32>)
    ensures |z| == n
  {
    seq(n, _ => 0)
  }

  ghost predicate Fit(vals: seq<Int32>, bpe: nat)
  {
    forall i :: 0 <= i < |vals| ==> 0 <= vals[i] < Pow2(bpe)
  }

  lemma UnpackLongOfPackLong(vals: seq<Int32>, bpe: nat)
    requires 1 <= bpe <= 31
    requires |vals| <= PerLong(bpe) && Fit(vals, bpe)
    ensures UnpackLong(PackLong(vals, bpe), bpe) == vals + Zeros(PerLong(bpe) - |vals|)
  {
    hide Field, PackLong, Low, PerLong, Pow2;
    var l := PackLong(vals, bpe);
    forall n | 0 <= n < PerLong(bpe)
      ensures UnpackLong(l, bpe)[n] == (vals + Zeros(PerLong(bpe) - |vals|))[n]
    {
      PackLongField(vals, bpe, n);
      if n < |vals| {
        LowSmall(vals[n], bpe);
      }
    }
  }

  /** Unpacking gives the packed values back, followed by zeros up to the end of the last long. */
  lemma {:induction false} UnpackOfPack(vals: seq<Int32>, bpe: nat)
    requires 1 <= bpe <= 31
    requires Fit(vals, bpe)
    ensures |Unpack(PackLongs(vals, bpe), bpe)| >= |vals|
    ensures Unpack(PackLongs(vals, bpe), bpe) == vals + Zeros(|Unpack(PackLongs(vals, bpe), bpe)| - |vals|)
  {
    hide PackLong, PerLong, UnpackLong, Pow2;
    var per := PerLong(bpe);
    if |vals| <= per {
      UnpackLongOfPackLong(vals, bpe);
    } else {
      var first, others := vals[..per], vals[per..];
      UnpackLongOfPackLong(first, bpe);
      UnpackOfPack(others, bpe);
      assert PackLongs(vals, bpe) == [PackLong(first, bpe)] + PackLongs(others, bpe);
      assert Unpack(PackLongs(vals, bpe), bpe)
          == UnpackLong(PackLong(first, bpe), bpe) + Unpack(PackLongs(others, bpe), bpe);
      AppendPadded(first, others, Unpack(PackLongs(others, bpe), bpe));
      assert vals == first + others;
    }
  }

  lemma AppendPadded(first: seq<Int32>, others: seq<Int32>, padded: seq<Int32>)
    requires |padded| >= |others| && padded == others + Zeros(|padded| - |others|)
    ensures first + Zeros(0) + padded == first + others + Zeros(|padded| - |others|)
  {
  }

  // ------------------------------------------------------------------
  // Bytes of the longs
  // ------------------------------------------------------------------

  function LongBytes(longs: seq<nat>): (s: seq<Byte>)
    ensures |s| == 8 * |longs|
  {
    if longs == [] then [] else BigEndian(longs[0], 8) + LongBytes(longs[1..])
  }

  lemma {:induction false} LongBytesAppend(longs: seq<nat>, l: nat)
    ensures LongBytes(longs + [l]) == LongBytes(longs) + BigEndian(l, 8)
  {
    hide BigEndian;
    if longs == [] {
      assert [l][1..] == [];
    } else {
      LongBytesAppend(longs[1..], l);
      assert (longs + [l])[1..] == longs[1..] + [l];
    }
  }

  ghost predicate AreWords(longs: seq<nat>)
  {
    forall i :: 0 <= i < |longs| ==> longs[i] < Pow2(64)
  }

  lemma {:induction false} PackLongsAreWords(vals: seq<int>, bpe: nat)
    requires 1 <= bpe <= 64
    ensures AreWords(PackLongs(vals, bpe))
  {
    hide PackLong, Pow2, PerLong;
    var per := PerLong(bpe);
    var first := if |vals| <= per then vals else vals[..per];
    PackLongIsWord(first, bpe);
    if |vals| > per {
      PackLongsAreWords(vals[per..], bpe);
    }
  }

  lemma PackLongIsWord(vals: seq<int>, bpe: nat)
    requires 1 <= bpe <= 64
    requires |vals| <= PerLong(bpe)
    ensures PackLong(vals, bpe) < Pow2(64)
  {
    hide PackLong, Pow2, PerLong, Times;
    PackLongFits(vals, bpe);
    LongHoldsFields(bpe, |vals|);
    Pow2Monotonic(Times(|vals|, bpe), 64);
  }

  /** What writePackedArray produces. */
  function EncodePacked(vals: seq<int>, bpe: nat, writeLength: bool): seq<Byte>
    requires 1 <= bpe <= 64
    requires |PackLongs(vals, bpe)| < 0x8000_0000
  {
    var longs := PackLongs(vals, bpe);
    (if writeLength then Encode(|longs|) else []) + LongBytes(longs)
  }

  /** Without the count there are exactly eight bytes for each long; with it, they follow it. */
  lemma PackedSizeInBytes(vals: seq<int>, bpe: nat)
    requires 1 <= bpe <= 64 && |PackLongs(vals, bpe)| < 0x8000_0000
    ensures |EncodePacked(vals, bpe, false)| == 8 * CeilDiv(|vals|, PerLong(bpe))
    ensures EncodePacked(vals, bpe, true)
         == Encode(CeilDiv(|vals|, PerLong(bpe))) + EncodePacked(vals, bpe, false)
  {
    hide CeilDiv, PerLong, PackLongs, Encode;
    PackLongsCount(vals, bpe);
    assert [] + LongBytes(PackLongs(vals, bpe)) == LongBytes(PackLongs(vals, bpe));
  }

  // ------------------------------------------------------------------
  // The C functions
  // ------------------------------------------------------------------

  lemma SetFieldFits(l: nat, offset: nat, width: nat, value: int, word: nat)
    requires offset + width <= word && l < Pow2(word)
    ensures SetField(l, offset, width, value) < Pow2(word)
  {
    hide Shl, Shr, Low, Pow2;
    var top := offset + width;
    var below := Low(l, offset) + Shl(Low(value, width), offset);
    ShlFits(Low(value, width), width, offset, Low(l, offset));
    ShrShr(l, top, word - top);
    LowSmall(l, word);
    ShrUnique(Low(l, top), Low(Shr(l, top), word - top), top);
    ShlFits(Low(Shr(l, top), word - top), word - top, top, below);
  }

  /** Setting a field of a word that ends below it adds the value in place. */
  lemma SetFieldAbove(l: nat, offset: nat, width: nat, value: int)
    requires l < Pow2(offset)
    ensures SetField(l, offset, width, value) == l + Shl(Low(value, width), offset)
  {
    hide Shr, Low, Pow2;
    LowSmall(l, offset);
    Pow2Monotonic(offset, offset + width);
    LowSmall(l, offset + width);
  }

  /** The mask-and-shift expression of the source sets exactly one field. */
  lemma MaskedStore(l: nat, value: Int32, offset: nat, bpe: nat)
    requires bpe <= 32 && offset + bpe <= 64 && l < Pow2(64)
    ensures Shl(Pow2(bpe) - 1, offset) < Pow2(64)
    ensures BitOr(BitAnd(l, BitNot(Shl(Pow2(bpe) - 1, offset), 64)),
                  Shl(BitAnd(Unsigned32(value), Pow2(bpe) - 1), offset))
         == SetField(l, offset, bpe, value)
  {
    hide Shl, Shr, Low, Pow2, BitOr, BitAnd, BitNot;
    var mask, v := Shl(Pow2(bpe) - 1, offset), Low(value, bpe);
    ShlFits(Pow2(bpe) - 1, bpe, offset, 0);
    Pow2Monotonic(bpe + offset, 64);
    AndNot(l, mask, 64);
    AndFieldMask(l, offset, bpe);
    SplitAt(l, offset, bpe);
    AndLowMask(Unsigned32(value), bpe);
    LowBits(value, bpe);
    var cleared := Low(l, offset) + Shl(Shr(l, offset + bpe), offset + bpe);
    AndClearedField(Low(l, offset), Shr(l, offset + bpe), v, offset, bpe);
    OrDisjoint(cleared, Shl(v, offset));
  }

  ghost predicate OtherFieldsKept(l: nat, r: nat, start: nat, end: nat)
  {
    forall o: nat, w: nat | o + w <= start || end <= o :: Field(r, o, w) == Field(l, o, w)
  }

  lemma SetFieldKeepsOthers(l: nat, offset: nat, width: nat, value: int)
    ensures Field(SetField(l, offset, width, value), offset, width) == Low(value, width)
    ensures OtherFieldsKept(l, SetField(l, offset, width, value), offset, offset + width)
  {
    hide SetField, Field, Low;
    SetFieldIsolated(l, offset, width, value, 0, 0);
    forall o: nat, w: nat | o + w <= offset || offset + width <= o
      ensures Field(SetField(l, offset, width, value), o, w) == Field(l, o, w)
    {
      SetFieldIsolated(l, offset, width, value, o, w);
    }
  }

  method WriteIntToPackedArray(l: nat, value: Int32, offset: nat, bpe: nat) returns (r: nat, next: nat)
    requires 1 <= bpe <= 30 && offset + bpe <= 64 && l < Pow2(64)
    ensures next == offset + bpe
    ensures r < Pow2(64)
    ensures Field(r, offset, bpe) == Low(value, bpe)
    ensures OtherFieldsKept(l, r, offset, next)
    ensures l < Pow2(offset) ==> r == l + Shl(Low(value, bpe), offset)
  {
    hide *;
    MaskedStore(l, value, offset, bpe);
    var mask := Shl(Pow2(bpe) - 1, offset);
    var maskedValue := BitAnd(Unsigned32(value), Pow2(bpe) - 1);
    r := BitOr(BitAnd(l, BitNot(mask, 64)), Shl(maskedValue, offset));
    next := offset + bpe;
    SetFieldFits(l, offset, bpe, value, 64);
    if l < Pow2(offset) {
      SetFieldAbove(l, offset, bpe, value);
    }
    SetFieldKeepsOthers(l, offset, bpe, value);
  }

  /** One step of the packing loops. */
  method PackNext(l: nat, value: Int32, ghost done: seq<int>, n: nat, bpe: nat) returns (r: nat)
    requires 1 <= bpe <= 30 && n == |done| < PerLong(bpe)
    requires l == PackLong(done, bpe)
    ensures r == PackLong(done + [value], bpe)
  {
    hide Low, Shl, Times, PerLong;
    PackLongFits(done, bpe);
    PackLongIsWord(done, bpe);
    TimesStep(n, bpe);
    LongHoldsFields(bpe, n + 1);
    assert (done + [value])[..n] == done;
    var next;
    r, next := WriteIntToPackedArray(l, value, Times(n, bpe), bpe);
  }

  method WritePackedLong(val: seq<Int32>, perLong: nat, index: nat, bpe: nat) returns (l: nat)
    requires 1 <= bpe <= 30 && perLong <= PerLong(bpe)
    requires Times(index, perLong) + perLong <= |val|
    ensures l == PackLong(val[Times(index, perLong)..Times(index, perLong) + perLong], bpe)
  {
    hide PackLong, PerLong, Times;
    var start := Times(index, perLong);
    ghost var group := val[start..start + perLong];
    PackNothing(bpe);
    l := 0;
    for n := 0 to perLong
      invariant l == PackLong(group[..n], bpe)
    {
      l := PackNext(l, val[start + n], group[..n], n, bpe);
      assert group[..n] + [val[start + n]] == group[..n + 1];
    }
    assert group[..perLong] == group;
  }

  lemma PackNothing(bpe: nat)
    ensures PackLong([], bpe) == 0
  {
  }

  /** The integers a float holds exactly. */
  const EXACT_LENGTH := 0x100_0000

  function Ceil(r: real): int
  {
    -(-r).Floor
  }

  /** What rounding x to the nearest float keeps: r is off by at most 2^-24 of x and
      does not cross an integer. */
  predicate Nearest(x: real, r: real)
  {
    -x <= (r - x) * 16777216.0 <= x && x.Floor as real <= r <= Ceil(x) as real
  }

  /** The count of the longs, computed in floats, is the integer ceiling. */
  lemma RoundedCount(len: nat, perLong: nat, r: real)
    requires perLong > 0 && len < EXACT_LENGTH
    requires Nearest(len as real / perLong as real, r)
    ensures Ceil(r) == CeilDiv(len, perLong)
  {
    var x, n, m := len as real / perLong as real, len / perLong, len % perLong;
    RealQuotient(len, perLong, n, m);
    if m == 0 {
      DivModUnique(len + perLong - 1, perLong, n, perLong - 1);
    } else {
      DivModUnique(len + perLong - 1, perLong, n + 1, m - 1);
      if r == n as real {
        NotThatFar(len, perLong, m);
      }
    }
  }

  lemma RealQuotient(len: nat, d: nat, n: nat, m: nat)
    requires d > 0 && len == n * d + m && m < d
    ensures len as real / d as real == n as real + m as real / d as real
    ensures (len as real / d as real).Floor == n
    ensures Ceil(len as real / d as real) == if m == 0 then n else n + 1
  {
    var x, f := len as real / d as real, m as real / d as real;
    assert x * d as real == (n as real + f) * d as real;
    assert 0.0 <= f < 1.0;
  }

  lemma NotThatFar(len: nat, d: nat, m: nat)
    requires d > 0 && 0 < m && len < EXACT_LENGTH
    ensures m as real / d as real * 16777216.0 > len as real / d as real
  {
    assert m as real / d as real * 16777216.0 == (m as real * 16777216.0) / d as real;
    Smaller(len as real, m as real * 16777216.0, d as real);
  }

  lemma Smaller(a: real, b: real, d: real)
    requires a < b && d > 0.0
    ensures a / d < b / d
  {
  }

  lemma FewLongs(vals: seq<int>, bpe: nat)
    requires 1 <= bpe <= 64
    ensures |PackLongs(vals, bpe)| <= |vals|
  {
  }

  method WritePackedArray(val: seq<Int32>, len: nat, bpe: nat, writeLength: bool)
    returns (bytes: array<Byte>, n: nat)
    requires 1 <= bpe <= 30 && len <= |val| && len < EXACT_LENGTH
    ensures |PackLongs(val[..len], bpe)| < 0x8000_0000
    ensures fresh(bytes) && n <= bytes.Length
    ensures bytes[..n] == EncodePacked(val[..len], bpe, writeLength)
  {
    hide PackLongs, PerLong, LongBytes, Encode, Splice, CeilDiv;
    PackLongsCount(val[..len], bpe);
    FewLongs(val[..len], bpe);
    var perLong := PerLong(bpe);
    var longCount := CeilDiv(len, perLong);
    EncodeLength(longCount);
    bytes := new Byte[longCount * 8 + MAX_VAR_INT];
    n := 0;
    if writeLength {
      n := WriteVarInt(bytes, 0, longCount);
    }
    n := WriteLongs(bytes, n, val, len, perLong, longCount, bpe);
  }

  /** The loop of writePackedArray over the longs. */
  method WriteLongs(buff: array<Byte>, at: nat, val: seq<Int32>, len: nat, perLong: nat, longCount: nat, bpe: nat)
    returns (end: nat)
    requires 1 <= bpe <= 30 && len <= |val| && perLong == PerLong(bpe)
    requires longCount == |PackLongs(val[..len], bpe)|
    requires at + 8 * longCount <= buff.Length
    modifies buff
    ensures end == at + 8 * longCount
    ensures buff[..end] == old(buff[..at]) + LongBytes(PackLongs(val[..len], bpe))
  {
    hide *;
    ghost var longs := PackLongs(val[..len], bpe);
    ghost var head := buff[..at];
    end := at;
    NoLongBytes();
    for i := 0 to longCount
      invariant end == at + 8 * i
      invariant buff[..end] == head + LongBytes(longs[..i])
    {
      var l := PackGroup(val, len, i, perLong, bpe);
      LongBytesAppend(longs[..i], l);
      assert longs[..i + 1] == longs[..i] + [longs[i]];
      var w := WriteBigEndianLong(buff, end, l);
      end := end + w;
      assert buff[..end] == head + (LongBytes(longs[..i]) + BigEndian(l, 8));
    }
    assert longs[..longCount] == longs;
  }

  lemma NoLongBytes()
    ensures LongBytes([]) == []
  {
  }

  /** The inner loop of writePackedArray: long i from the values that are left for it. */
  method PackGroup(val: seq<Int32>, len: nat, i: nat, perLong: nat, bpe: nat) returns (l: nat)
    requires 1 <= bpe <= 30 && len <= |val| && perLong == PerLong(bpe)
    requires i < |PackLongs(val[..len], bpe)|
    ensures l == PackLongs(val[..len], bpe)[i] < Pow2(64)
  {
    hide PackLong, PerLong, PackLongs, Pow2, Times;
    ghost var vals := val[..len];
    PackLongsAt(vals, bpe, i);
    PackLongsAreWords(vals, bpe);
    TimesStep(i, perLong);
    var start := Times(i, perLong);
    ghost var size := Min(perLong, len - start);
    ghost var group := vals[start..start + size];
    PackNothing(bpe);
    l := 0;
    var n := 0;
    while n < perLong
      invariant 0 <= n <= size
      invariant l == PackLong(group[..n], bpe)
    {
      if start + n >= len {
        break;
      }
      l := PackNext(l, val[start + n], group[..n], n, bpe);
      assert group[..n] + [val[start + n]] == group[..n + 1];
      n := n + 1;
    }
    assert group[..n] == group;
  }
}
