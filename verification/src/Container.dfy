// Paletted containers: 4096 states stored as one value, as indices into a
// palette, or directly as ids.
module Container {
  import opened Words
  import opened Bytes
  import opened VarInt
  import opened Packed

  /** An empty palette stands for the NULL or zero-sized one, empty states for NULL. */
  datatype PalettedContainer = PalettedContainer(palette: seq<Int32>, states: seq<Int32>)

  const STATES := 4096
  const BLOCK_BITS_LOWEST := 4
  const BLOCK_BITS_THRESHOLD := 9

  /** The least b with 2^b >= n. */
  function CeilLog2(n: nat): (b: nat)
    requires n >= 1
    ensures n <= Pow2(b)
    ensures b > 0 ==> Pow2(b - 1) < n
  {
    if n == 1 then 0 else 1 + CeilLog2((n + 1) / 2)
  }

  lemma CeilLog2Bound(n: nat, k: nat)
    requires n >= 1
    ensures n <= Pow2(k) <==> CeilLog2(n) <= k
  {
    var b := CeilLog2(n);
    if b <= k {
      Pow2Monotonic(b, k);
    } else {
      Pow2Monotonic(k, b - 1);
    }
  }

  /** The field width of a container with its own palette. */
  function PaletteBits(paletteSize: nat): (bpe: nat)
    requires paletteSize >= 1
    ensures bpe >= 4
    ensures paletteSize <= Pow2(bpe)
  {
    var b := CeilLog2(paletteSize);
    Pow2Monotonic(b, if b < 4 then 4 else b);
    if b < 4 then 4 else b
  }

  /** It is the least width of at least four bits that every index fits in. */
  lemma PaletteBitsLeast(paletteSize: nat, k: nat)
    requires paletteSize >= 1 && k >= 4
    ensures paletteSize <= Pow2(k) <==> PaletteBits(paletteSize) <= k
  {
    hide Pow2, CeilLog2;
    CeilLog2Bound(paletteSize, k);
  }

  /** The width the format gives a palette. */
  ghost predicate IsWidth(paletteSize: nat, w: nat)
  {
    w >= 4 && forall k :: k >= 4 ==> (paletteSize <= Pow2(k) <==> w <= k)
  }

  lemma WidthOfPalette(paletteSize: nat, w: nat)
    requires paletteSize >= 1
    ensures IsWidth(paletteSize, w) <==> w == PaletteBits(paletteSize)
  {
    hide Pow2, PaletteBits;
    var b := PaletteBits(paletteSize);
    forall k | k >= 4
      ensures paletteSize <= Pow2(k) <==> b <= k
    {
      PaletteBitsLeast(paletteSize, k);
    }
    if IsWidth(paletteSize, w) {
      assert paletteSize <= Pow2(w) && paletteSize <= Pow2(b);
    }
  }

  lemma PaletteBitsBound(paletteSize: nat)
    requires 1 <= paletteSize <= 255
    ensures PaletteBits(paletteSize) <= 8
  {
    Pow2Constants();
    CeilLog2Bound(paletteSize, 8);
  }

  /** The sizes for which the float logarithm, rounded up, is the least exponent. */
  const EXACT_LOG := 0x10_0000

  /** A global palette that gives the direct layout a usable field width. */
  predicate GlobalSize(n: nat)
  {
    2 <= n <= EXACT_LOG
  }

  lemma GlobalBits(n: nat)
    requires GlobalSize(n)
    ensures 1 <= CeilLog2(n) <= 20
    ensures n > 256 <==> CeilLog2(n) >= 9
  {
    assert Pow2(20) == 0x10_0000 by {
      Pow2Constants();
      assert Pow2(20) * 2 == Pow2(21);
    }
    Pow2Constants();
    CeilLog2Bound(n, 20);
    CeilLog2Bound(n, 8);
    CeilLog2Bound(n, 0);
  }

  // ------------------------------------------------------------------
  // The three layouts
  // ------------------------------------------------------------------

  predicate OwnPalette(c: PalettedContainer)
  {
    2 <= |c.palette| <= 255
  }

  /** What writePalletedContainer needs of its arguments. */
  predicate Writable(c: PalettedContainer, global: nat)
  {
    |c.palette| == 1 || (|c.states| >= STATES && (OwnPalette(c) || GlobalSize(global)))
  }

  function EncodePalette(palette: seq<Int32>): seq<Byte>
  {
    if palette == [] then [] else Encode(palette[0]) + EncodePalette(palette[1..])
  }

  function EncodeStates(states: seq<Int32>, bpe: nat): seq<Byte>
    requires 1 <= bpe <= 30 && |states| >= STATES
  {
    FewLongs(states[..STATES], bpe);
    EncodePacked(states[..STATES], bpe, true)
  }

  function EncodeContainer(c: PalettedContainer, global: nat): seq<Byte>
    requires Writable(c, global)
  {
    if |c.palette| == 1 then
      [0] + Encode(c.palette[0]) + Encode(0)
    else if OwnPalette(c) then
      PaletteBitsBound(|c.palette|);
      var bpe := PaletteBits(|c.palette|);
      [bpe] + Encode(|c.palette|) + EncodePalette(c.palette) + EncodeStates(c.states, bpe)
    else
      GlobalBits(global);
      [CeilLog2(global)] + EncodeStates(c.states, CeilLog2(global))
  }

  // ------------------------------------------------------------------
  // Reading
  // ------------------------------------------------------------------

  function ReadByte(s: seq<Byte>): Read<Byte>
  {
    if s == [] then Undefined else Got(s[0], s[1..])
  }

  function Prepended(head: seq<Int32>, tail: Option<seq<Int32>>): Option<seq<Int32>>
  {
    match tail
    case None => None
    case Some(t) => Some(head + t)
  }

  lemma PrependedTwice(a: seq<Int32>, b: seq<Int32>, tail: Option<seq<Int32>>)
    ensures Prepended(a, Prepended(b, tail)) == Prepended(a + b, tail)
    ensures Prepended([], tail) == tail
  {
    if tail.Some? {
      assert a + (b + tail.value) == a + b + tail.value;
      assert [] + tail.value == tail.value;
    }
  }

  /** n palette entries; None once one of them is above the global palette. */
  function ReadPalette(s: seq<Byte>, n: nat, global: nat): Read<Option<seq<Int32>>>
    decreases n
  {
    if n == 0 then Got(Some([]), s)
    else
      var (v, rest) :- Decode(s);
      if Unsigned32(v) > global then Got(None, rest)
      else
        var (tail, rest') :- ReadPalette(rest, n - 1, global);
        Got(Prepended([v], tail), rest')
  }

  predicate AllAtMost(states: seq<Int32>, limit: nat)
  {
    forall i :: 0 <= i < |states| ==> states[i] <= limit
  }

  /** The fields of n longs; None at the first long with a state above the limit. */
  function ReadStates(s: seq<Byte>, n: nat, bpe: nat, limit: nat): Read<Option<seq<Int32>>>
    requires 1 <= bpe <= 31
  {
    if n == 0 then Got(Some([]), s)
    else
      var (l, rest) :- ReadBigEndian(s, 8);
      if !AllAtMost(UnpackLong(l, bpe), limit) then Got(None, rest)
      else
        var (tail, rest') :- ReadStates(rest, n - 1, bpe, limit);
        Got(Prepended(UnpackLong(l, bpe), tail), rest')
  }

  /** How far the reader's 16-bit index counts. */
  const INDEX_RANGE := 0x1_0000

  /** What n cells hold after the fields have been stored one after the other under an
      index that wraps around. */
  function Wrapped(fields: seq<Int32>, n: nat): (r: seq<Int32>)
    ensures |r| == n
  {
    if fields == [] then Zeros(n)
    else
      var k := |fields| - 1;
      var i := k % INDEX_RANGE;
      var r := Wrapped(fields[..k], n);
      if i < n then r[i := fields[k]] else r
  }

  lemma {:induction false} WrappedFew(fields: seq<Int32>, n: nat)
    requires |fields| <= n && |fields| <= INDEX_RANGE
    ensures Wrapped(fields, n) == fields + Zeros(n - |fields|)
  {
    if fields != [] {
      var k := |fields| - 1;
      WrappedFew(fields[..k], n);
      assert k % INDEX_RANGE == k;
      assert (fields[..k] + Zeros(n - k))[k := fields[k]] == fields[..k] + [fields[k]] + Zeros(n - k - 1);
    }
  }

  /** The last field stored under an index stays; cells past the range are never reached. */
  lemma {:induction false} WrappedAt(fields: seq<Int32>, n: nat, j: nat)
    requires |fields| <= n
    ensures j < |fields| <= j + 65536 ==> Wrapped(fields, n)[j % 65536] == fields[j]
    ensures 65536 <= j < n ==> Wrapped(fields, n)[j] == 0
  {
    if fields != [] {
      var k := |fields| - 1;
      WrappedAt(fields[..k], n, j);
      if j < k < j + INDEX_RANGE {
        DifferentIndex(j, k);
      }
    }
  }

  lemma DifferentIndex(j: nat, k: nat)
    requires j < k < j + INDEX_RANGE
    ensures j % INDEX_RANGE != k % INDEX_RANGE
  {
  }

  lemma WrappedAll(fields: seq<Int32>)
    requires |fields| <= INDEX_RANGE
    ensures Wrapped(fields, |fields|) == fields
  {
    WrappedFew(fields, |fields|);
    assert fields + Zeros(0) == fields;
  }

  /** The reader computes the number of its states in floats: exact up to 2^24. */
  function ReadCountedStates(s: seq<Byte>, bpe: nat, limit: nat): Read<Option<seq<Int32>>>
    requires 1 <= bpe <= 31
  {
    var (numLongs, rest) :- Decode(s);
    if numLongs < 0 || Times(numLongs, PerLong(bpe)) > EXACT_LENGTH then Undefined
    else
      var (fields, rest') :- ReadStates(rest, numLongs, bpe, limit);
      Got(match fields case None => None case Some(t) => Some(Wrapped(t, |t|)), rest')
  }

  /** No longs at all are no states, and an empty palette of its own has no entries. */
  lemma EmptyCounts(rest: seq<Byte>, bpe: nat, limit: nat)
    requires 1 <= bpe <= 31
    ensures ReadCountedStates(Encode(0) + rest, bpe, limit) == Got(Some([]), rest)
    ensures ReadPalette(rest, 0, limit) == Got(Some([]), rest)
  {
    RoundTrip(0, rest);
    hide Decode, Encode;
    assert Times(0, PerLong(bpe)) == 0;
  }

  predicate ReaderLimits(lowest: nat, threshold: nat, global: nat)
  {
    1 <= lowest < threshold <= 31 && GlobalSize(global)
  }

  function DecodeContainer(s: seq<Byte>, lowest: nat, threshold: nat, global: nat): Read<Option<PalettedContainer>>
    requires ReaderLimits(lowest, threshold, global)
  {
    GlobalBits(global);
    var (bits, s1) :- ReadByte(s);
    if bits == 0 then
      var (v, s2) :- Decode(s1);
      var (_, s3) :- Decode(s2);
      Got(Some(PalettedContainer([v], [])), s3)
    else if bits >= threshold then
      var (states, s2) :- ReadCountedStates(s1, CeilLog2(global), global);
      Got(match states case None => None case Some(t) => Some(PalettedContainer([], t)), s2)
    else
      var (n, s2) :- Decode(s1);
      if n < 0 then Undefined
      else
        var (palette, s3) :- ReadPalette(s2, n, global);
        match palette
        case None => Got(None, s3)
        case Some(p) =>
          var (states, s4) :- ReadCountedStates(s3, if bits < lowest then lowest else bits, Min(n, global));
          Got(match states case None => None case Some(t) => Some(PalettedContainer(p, t)), s4)
  }

  // ------------------------------------------------------------------
  // Round trips
  // ------------------------------------------------------------------

  lemma {:induction false} PaletteRoundTrip(palette: seq<Int32>, global: nat, rest: seq<Byte>)
    requires forall i :: 0 <= i < |palette| ==> Unsigned32(palette[i]) <= global
    ensures ReadPalette(EncodePalette(palette) + rest, |palette|, global) == Got(Some(palette), rest)
  {
    hide Decode, Encode, Unsigned32;
    if palette == [] {
      assert EncodePalette(palette) + rest == rest;
    } else {
      var tail := EncodePalette(palette[1..]) + rest;
      assert EncodePalette(palette) + rest == Encode(palette[0]) + tail;
      RoundTrip(palette[0], tail);
      PaletteRoundTrip(palette[1..], global, rest);
      assert [palette[0]] + palette[1..] == palette;
    }
  }

  lemma {:induction false} StatesRoundTrip(longs: seq<nat>, bpe: nat, limit: nat, rest: seq<Byte>)
    requires 1 <= bpe <= 31 && AreWords(longs)
    requires AllAtMost(Unpack(longs, bpe), limit)
    ensures ReadStates(LongBytes(longs) + rest, |longs|, bpe, limit) == Got(Some(Unpack(longs, bpe)), rest)
  {
    if longs == [] {
      assert LongBytes(longs) + rest == rest;
    } else {
      hide Pow2, ReadBigEndian, BigEndian, UnpackLong;
      var tail := LongBytes(longs[1..]) + rest;
      assert LongBytes(longs) + rest == BigEndian(longs[0], 8) + tail;
      ReadBigEndianRoundTrip(longs[0], 8, tail);
      AllAtMostConcat(UnpackLong(longs[0], bpe), Unpack(longs[1..], bpe), limit);
      StatesRoundTrip(longs[1..], bpe, limit, rest);
    }
  }

  lemma AllAtMostConcat(a: seq<Int32>, b: seq<Int32>, limit: nat)
    ensures AllAtMost(a + b, limit) <==> AllAtMost(a, limit) && AllAtMost(b, limit)
  {
    if AllAtMost(a + b, limit) {
      forall i | 0 <= i < |a| ensures a[i] <= limit {
        assert a[i] == (a + b)[i];
      }
      forall i | 0 <= i < |b| ensures b[i] <= limit {
        assert b[i] == (a + b)[|a| + i];
      }
    }
  }

  /** States the reader accepts and the field width can hold. */
  predicate Storable(states: seq<Int32>, bpe: nat, limit: nat)
  {
    |states| >= STATES && forall i :: 0 <= i < STATES ==> 0 <= states[i] <= limit && states[i] < Pow2(bpe)
  }

  /** The first 4096 states, then zeros up to the end of the last long. */
  predicate Padded(received: seq<Int32>, states: seq<Int32>)
    requires |states| >= STATES
  {
    |received| >= STATES && received[..STATES] == states[..STATES]
    && forall i :: STATES <= i < |received| ==> received[i] == 0
  }

  lemma PackedSize(vals: seq<int>, bpe: nat)
    requires 1 <= bpe <= 30 && |vals| == STATES
    ensures 1 <= |PackLongs(vals, bpe)| <= STATES
    ensures Times(|PackLongs(vals, bpe)|, PerLong(bpe)) < STATES + 64
  {
    hide PackLongs;
    PackLongsCount(vals, bpe);
    var per := PerLong(bpe);
    var n := CeilDiv(STATES, per);
    assert n * per <= STATES + per - 1;
    FewLongs(vals, bpe);
  }

  /** The states a reader unpacks from what the writer packed. */
  function ReceivedStates(states: seq<Int32>, bpe: nat): seq<Int32>
    requires 1 <= bpe <= 30 && |states| >= STATES
  {
    Unpack(PackLongs(states[..STATES], bpe), bpe)
  }

  lemma CountedStatesRoundTrip(states: seq<Int32>, bpe: nat, limit: nat, rest: seq<Byte>)
    requires 1 <= bpe <= 30 && Storable(states, bpe, limit)
    ensures ReadCountedStates(EncodeStates(states, bpe) + rest, bpe, limit)
         == Got(Some(ReceivedStates(states, bpe)), rest)
    ensures Padded(ReceivedStates(states, bpe), states)
  {
    hide PackLongs, PerLong, Unpack, LongBytes, Decode, Encode, Pow2, ReadStates, Times, Wrapped;
    var vals := states[..STATES];
    var longs := PackLongs(vals, bpe);
    PackedSize(vals, bpe);
    PackLongsAreWords(vals, bpe);
    UnpackOfPack(vals, bpe);
    RoundTrip(|longs|, LongBytes(longs) + rest);
    assert EncodeStates(states, bpe) + rest == Encode(|longs|) + (LongBytes(longs) + rest);
    StatesRoundTrip(longs, bpe, limit, rest);
    UnpackLength(longs, bpe);
    WrappedAll(Unpack(longs, bpe));
  }

  /** What must hold for the meaning of a container to survive the trip. */
  predicate Meaningful(c: PalettedContainer, writerGlobal: nat, readerGlobal: nat)
    requires GlobalSize(readerGlobal)
  {
    if |c.palette| == 1 then true
    else if OwnPalette(c) then
      Storable(c.states, PaletteBits(|c.palette|), Min(|c.palette|, readerGlobal))
      && forall i :: 0 <= i < |c.palette| ==> Unsigned32(c.palette[i]) <= readerGlobal
    else
      256 < writerGlobal && GlobalSize(writerGlobal) && CeilLog2(writerGlobal) == CeilLog2(readerGlobal)
      && Storable(c.states, CeilLog2(readerGlobal), readerGlobal)
  }

  /** The container a reader gets for c: the same palette (none in the direct
      layout) and the same states. */
  function Received(c: PalettedContainer, writerGlobal: nat, readerGlobal: nat): (r: PalettedContainer)
    requires GlobalSize(readerGlobal) && Meaningful(c, writerGlobal, readerGlobal)
    ensures r.palette == if |c.palette| <= 255 then c.palette else []
    ensures if |c.palette| == 1 then r.states == [] else Padded(r.states, c.states)
  {
    if |c.palette| == 1 then
      PalettedContainer(c.palette, [])
    else if OwnPalette(c) then
      PaletteBitsBound(|c.palette|);
      CountedStatesRoundTrip(c.states, PaletteBits(|c.palette|), Min(|c.palette|, readerGlobal), []);
      PalettedContainer(c.palette, ReceivedStates(c.states, PaletteBits(|c.palette|)))
    else
      GlobalBits(readerGlobal);
      CountedStatesRoundTrip(c.states, CeilLog2(readerGlobal), readerGlobal, []);
      PalettedContainer([], ReceivedStates(c.states, CeilLog2(readerGlobal)))
  }

  /** Reading what was written, whatever bytes follow, stops where those bytes start. */
  lemma ContainerRoundTrip(c: PalettedContainer, writerGlobal: nat, readerGlobal: nat, rest: seq<Byte>)
    requires GlobalSize(readerGlobal) && Meaningful(c, writerGlobal, readerGlobal)
    ensures Writable(c, writerGlobal)
    ensures DecodeContainer(EncodeContainer(c, writerGlobal) + rest,
                            BLOCK_BITS_LOWEST, BLOCK_BITS_THRESHOLD, readerGlobal)
         == Got(Some(Received(c, writerGlobal, readerGlobal)), rest)
  {
    hide DecodeContainer, EncodeContainer;
    if |c.palette| == 1 {
      SingleRoundTrip(c, writerGlobal, BLOCK_BITS_LOWEST, BLOCK_BITS_THRESHOLD, readerGlobal, rest);
    } else if OwnPalette(c) {
      IndirectRoundTrip(c, writerGlobal, readerGlobal, rest);
    } else {
      DirectRoundTrip(c, writerGlobal, readerGlobal, rest);
    }
  }

  lemma SingleRoundTrip(c: PalettedContainer, writerGlobal: nat, lowest: nat, threshold: nat, readerGlobal: nat,
                        rest: seq<Byte>)
    requires ReaderLimits(lowest, threshold, readerGlobal) && |c.palette| == 1
    ensures DecodeContainer(EncodeContainer(c, writerGlobal) + rest, lowest, threshold, readerGlobal)
         == Got(Some(PalettedContainer(c.palette, [])), rest)
  {
    hide Decode, Encode, Pow2;
    var s := EncodeContainer(c, writerGlobal) + rest;
    assert s[1..] == Encode(c.palette[0]) + (Encode(0) + rest);
    assert [c.palette[0]] == c.palette;
    RoundTrip(c.palette[0], Encode(0) + rest);
    RoundTrip(0, rest);
  }

  lemma Regroup(a: seq<Byte>, b: seq<Byte>, c: seq<Byte>, d: seq<Byte>, e: seq<Byte>)
    ensures a + b + c + d + e == a + (b + (c + (d + e)))
  {
  }

  lemma IndirectRoundTrip(c: PalettedContainer, writerGlobal: nat, readerGlobal: nat, rest: seq<Byte>)
    requires GlobalSize(readerGlobal) && OwnPalette(c) && Meaningful(c, writerGlobal, readerGlobal)
    ensures DecodeContainer(EncodeContainer(c, writerGlobal) + rest,
                            BLOCK_BITS_LOWEST, BLOCK_BITS_THRESHOLD, readerGlobal)
         == Got(Some(Received(c, writerGlobal, readerGlobal)), rest)
  {
    assert Writable(c, writerGlobal);
    hide Decode, Encode, Pow2, EncodePalette, EncodeStates, ReadPalette, ReadCountedStates, PaletteBits, ReceivedStates;
    PaletteBitsBound(|c.palette|);
    var bpe := PaletteBits(|c.palette|);
    var s := EncodeContainer(c, writerGlobal) + rest;
    var s3 := EncodeStates(c.states, bpe) + rest;
    var s2 := EncodePalette(c.palette) + s3;
    Regroup([bpe], Encode(|c.palette|), EncodePalette(c.palette), EncodeStates(c.states, bpe), rest);
    assert s == [bpe] + (Encode(|c.palette|) + s2);
    RoundTrip(|c.palette|, s2);
    PaletteRoundTrip(c.palette, readerGlobal, s3);
    CountedStatesRoundTrip(c.states, bpe, Min(|c.palette|, readerGlobal), rest);
  }

  lemma DirectRoundTrip(c: PalettedContainer, writerGlobal: nat, readerGlobal: nat, rest: seq<Byte>)
    requires GlobalSize(readerGlobal) && |c.palette| != 1 && !OwnPalette(c)
    requires Meaningful(c, writerGlobal, readerGlobal)
    ensures DecodeContainer(EncodeContainer(c, writerGlobal) + rest,
                            BLOCK_BITS_LOWEST, BLOCK_BITS_THRESHOLD, readerGlobal)
         == Got(Some(Received(c, writerGlobal, readerGlobal)), rest)
  {
    assert Writable(c, writerGlobal);
    hide Pow2, EncodeStates, DecodeContainer, ReadCountedStates, ReceivedStates, CeilLog2, Storable, Padded;
    GlobalBits(writerGlobal);
    GlobalBits(readerGlobal);
    var bpe := CeilLog2(writerGlobal);
    var s1 := EncodeStates(c.states, bpe) + rest;
    Associate3([bpe], EncodeStates(c.states, bpe), rest);
    CountedStatesRoundTrip(c.states, bpe, readerGlobal, rest);
    DecodeDirect(bpe, s1, BLOCK_BITS_LOWEST, BLOCK_BITS_THRESHOLD, readerGlobal);
  }

  lemma DecodeDirect(bits: Byte, s: seq<Byte>, lowest: nat, threshold: nat, global: nat)
    requires ReaderLimits(lowest, threshold, global) && bits >= threshold
    ensures 1 <= CeilLog2(global) <= 20
    ensures DecodeContainer([bits] + s, lowest, threshold, global) ==
              match ReadCountedStates(s, CeilLog2(global), global)
              case Undefined => Undefined
              case Got(None, rest) => Got(None, rest)
              case Got(Some(t), rest) => Got(Some(PalettedContainer([], t)), rest)
  {
    hide ReadCountedStates, CeilLog2;
    GlobalBits(global);
    assert ([bits] + s)[1..] == s;
  }

  // ------------------------------------------------------------------
  // Meaning
  // ------------------------------------------------------------------

  predicate Denotable(c: PalettedContainer)
  {
    if c.states == [] then c.palette != []
    else |c.states| >= STATES
         && (c.palette != [] ==> forall i :: 0 <= i < STATES ==> 0 <= c.states[i] < |c.palette|)
  }

  /** The block id of cell i. */
  function IdAt(c: PalettedContainer, i: nat): Int32
    requires Denotable(c) && i < STATES
  {
    if c.states == [] then c.palette[0]
    else if c.palette == [] then c.states[i]
    else c.palette[c.states[i]]
  }

  /** The ids survive exactly when the palette has at most 255 entries, or when the
      container's own indices happen to be the ids already. */
  lemma IdsSurvive(c: PalettedContainer, writerGlobal: nat, readerGlobal: nat)
    requires GlobalSize(readerGlobal) && Meaningful(c, writerGlobal, readerGlobal) && Denotable(c)
    ensures Denotable(Received(c, writerGlobal, readerGlobal))
    ensures (forall i :: 0 <= i < STATES ==> IdAt(Received(c, writerGlobal, readerGlobal), i) == IdAt(c, i))
            <==> (|c.palette| <= 255 || forall i :: 0 <= i < STATES ==> c.palette[c.states[i]] == c.states[i])
  {
    hide ReceivedStates;
    var r := Received(c, writerGlobal, readerGlobal);
    if |c.palette| != 1 {
      assert forall i :: 0 <= i < STATES ==> r.states[i] == c.states[i] by {
        assert forall i :: 0 <= i < STATES ==>
                             r.states[i] == r.states[..STATES][i] == c.states[..STATES][i] == c.states[i];
      }
    }
    forall i | 0 <= i < STATES
      ensures IdAt(r, i) == IdAt(c, i) <==> (|c.palette| <= 255 || c.palette[c.states[i]] == c.states[i])
    {
    }
  }

  const LARGE_PALETTE: PalettedContainer := PalettedContainer(seq(256, k => k + 1), Zeros(STATES))

  /** 256 entries: the cells say 1, the receiver is told 0. */
  lemma LargePaletteLosesIds()
    ensures Meaningful(LARGE_PALETTE, 512, 512)
    ensures Denotable(LARGE_PALETTE) && Denotable(Received(LARGE_PALETTE, 512, 512))
    ensures IdAt(LARGE_PALETTE, 0) == 1 && IdAt(Received(LARGE_PALETTE, 512, 512), 0) == 0
  {
    hide ReceivedStates, CeilLog2, Pow2, PaletteBits;
    GlobalBits(512);
    assert LARGE_PALETTE.states[0] == 0 && LARGE_PALETTE.palette[0] == 1;
    var r := Received(LARGE_PALETTE, 512, 512);
    assert r.states[0] == r.states[..STATES][0] == LARGE_PALETTE.states[..STATES][0];
  }

  // ------------------------------------------------------------------
  // Writing
  // ------------------------------------------------------------------

  /** The palette fits the buffer the writer allocates for it: five bytes an entry. */
  predicate PaletteFits(c: PalettedContainer)
  {
    OwnPalette(c) ==> |Encode(|c.palette|)| + |EncodePalette(c.palette)| <= MAX_VAR_INT * |c.palette|
  }

  /** How many of the five bytes reserved for it an id leaves over. */
  function Spare(v: Int32): nat
  {
    if v < 0 then 0
    else if v < 0x80 then 4
    else if v < 0x4000 then 3
    else if v < 0x20_0000 then 2
    else if v < 0x1000_0000 then 1
    else 0
  }

  /** The ids leave over the bytes the entry count takes. */
  predicate PaletteRoom(c: PalettedContainer)
  {
    OwnPalette(c) ==> AllSpare(c.palette) >= (if |c.palette| < 0x80 then 1 else 2)
  }

  lemma SpareBytes(v: Int32)
    ensures |Encode(v)| == MAX_VAR_INT - Spare(v)
  {
    hide Groups, Pow2;
    Pow2Constants();
    EncodeLength(v);
    GroupsLength(Unsigned32(v), 4);
    GroupsLength(Unsigned32(v), 3);
    GroupsLength(Unsigned32(v), 2);
  }

  function AllSpare(palette: seq<Int32>): nat
  {
    if palette == [] then 0 else Spare(palette[0]) + AllSpare(palette[1..])
  }

  lemma {:induction false} PaletteBytes(palette: seq<Int32>)
    ensures |EncodePalette(palette)| == MAX_VAR_INT * |palette| - AllSpare(palette)
  {
    hide Encode, Spare;
    if palette != [] {
      SpareBytes(palette[0]);
      PaletteBytes(palette[1..]);
    }
  }

  /** The palette fits exactly when they do. */
  lemma PaletteFitsIff(c: PalettedContainer)
    ensures PaletteFits(c) <==> PaletteRoom(c)
  {
    hide Encode, EncodePalette, AllSpare, Spare;
    if OwnPalette(c) {
      PaletteBytes(c.palette);
      SpareBytes(|c.palette|);
      assert Spare(|c.palette|) == if |c.palette| < 0x80 then 4 else 3 by {
        CountSpare(|c.palette|);
      }
    }
  }

  lemma CountSpare(n: Int32)
    requires 2 <= n <= 255
    ensures Spare(n) == if n < 0x80 then 4 else 3
  {
  }

  lemma {:induction false} SomethingSpare(palette: seq<Int32>)
    ensures AllSpare(palette) >= 1 <==> exists i :: 0 <= i < |palette| && 0 <= palette[i] < 0x1000_0000
  {
    if palette != [] {
      SomethingSpare(palette[1..]);
      if i :| 0 <= i < |palette[1..]| && 0 <= palette[1..][i] < 0x1000_0000 {
        assert palette[i + 1] == palette[1..][i];
      }
    }
  }

  /** So up to 127 entries fit exactly when at least one id lies in [0, 2^28). */
  lemma OneSmallIdHasRoom(c: PalettedContainer)
    requires 2 <= |c.palette| < 0x80
    ensures PaletteFits(c) <==> exists i :: 0 <= i < |c.palette| && 0 <= c.palette[i] < 0x1000_0000
  {
    hide Spare, AllSpare, PaletteFits;
    PaletteFitsIff(c);
    SomethingSpare(c.palette);
  }

  lemma {:induction false} EverySpare(palette: seq<Int32>)
    requires forall i :: 0 <= i < |palette| ==> 0 <= palette[i] < 0x1000_0000
    ensures AllSpare(palette) >= |palette|
  {
    if palette != [] {
      EverySpare(palette[1..]);
    }
  }

  /** The ids the game has always leave room. */
  lemma SmallIdsHaveRoom(c: PalettedContainer)
    requires forall i :: 0 <= i < |c.palette| ==> 0 <= c.palette[i] < 0x1000_0000
    ensures PaletteRoom(c) && PaletteFits(c)
  {
    hide AllSpare, PaletteFits;
    EverySpare(c.palette);
    PaletteFitsIff(c);
  }

  /** Two negative ids do not. */
  lemma NegativeIdsHaveNoRoom(states: seq<Int32>)
    ensures !PaletteFits(PalettedContainer([-1, -1], states))
  {
    hide PaletteFits;
    OneSmallIdHasRoom(PalettedContainer([-1, -1], states));
  }

  lemma {:induction false} EncodePaletteAppend(palette: seq<Int32>, v: Int32)
    ensures EncodePalette(palette + [v]) == EncodePalette(palette) + Encode(v)
  {
    hide Encode;
    if palette == [] {
      assert (palette + [v])[1..] == [];
    } else {
      EncodePaletteAppend(palette[1..], v);
      assert (palette + [v])[1..] == palette[1..] + [v];
    }
  }

  lemma {:induction false} EncodePalettePrefix(palette: seq<Int32>, k: nat)
    requires k <= |palette|
    ensures |EncodePalette(palette[..k])| <= |EncodePalette(palette)|
    decreases |palette| - k
  {
    hide Encode, EncodePalette;
    if k < |palette| {
      EncodePaletteAppend(palette[..k], palette[k]);
      assert palette[..k] + [palette[k]] == palette[..k + 1];
      EncodePalettePrefix(palette, k + 1);
    } else {
      assert palette[..k] == palette;
    }
  }

  method WritePalette(buff: array<Byte>, at: nat, palette: seq<Int32>) returns (end: nat)
    requires at + |EncodePalette(palette)| <= buff.Length
    modifies buff
    ensures end == at + |EncodePalette(palette)|
    ensures buff[..end] == old(buff[..at]) + EncodePalette(palette)
  {
    hide Encode, EncodePalette, Splice;
    ghost var head := buff[..at];
    end := at;
    assert EncodePalette([]) == [] by {
      NoPaletteBytes();
    }
    for i := 0 to |palette|
      invariant end == at + |EncodePalette(palette[..i])|
      invariant end <= buff.Length
      invariant buff[..end] == head + EncodePalette(palette[..i])
    {
      EncodePaletteAppend(palette[..i], palette[i]);
      assert palette[..i] + [palette[i]] == palette[..i + 1];
      EncodePalettePrefix(palette, i + 1);
      var w := WriteVarInt(buff, end, palette[i]);
      end := end + w;
      assert buff[..end] == head + (EncodePalette(palette[..i]) + Encode(palette[i]));
    }
    assert palette[..|palette|] == palette;
  }

  lemma NoPaletteBytes()
    ensures EncodePalette([]) == []
  {
  }

  /** The first byte of a palette layout is that width. */
  lemma WidthOnTheWire(c: PalettedContainer, global: nat)
    requires Writable(c, global) && OwnPalette(c)
    ensures |EncodeContainer(c, global)| > 0 && IsWidth(|c.palette|, EncodeContainer(c, global)[0])
  {
    hide Pow2, PaletteBits, IsWidth, EncodePalette, EncodeStates, Encode;
    PaletteBitsBound(|c.palette|);
    WidthOfPalette(|c.palette|, PaletteBits(|c.palette|));
  }

  method WritePalettedContainer(c: PalettedContainer, global: nat) returns (bytes: array<Byte>, n: nat)
    requires Writable(c, global) && PaletteRoom(c)
    ensures fresh(bytes) && n <= bytes.Length
    ensures bytes[..n] == EncodeContainer(c, global)
  {
    hide Encode, EncodePalette, EncodeStates, Splice, CeilLog2, Pow2, PackLongs;
    if |c.palette| == 1 {
      bytes := new Byte[1 + MAX_VAR_INT * 2];
      Store(bytes, 0, 0);
      EncodeLength(c.palette[0]);
      EncodeLength(0);
      n := WriteVarInt(bytes, 1, c.palette[0]);
      n := 1 + n;
      var w := WriteVarInt(bytes, n, 0);
      n := n + w;
    } else if |c.palette| != 0 && |c.palette| <= 255 {
      bytes, n := WriteIndirect(c, global);
    } else {
      GlobalBits(global);
      bytes, n := WriteDirect(c, CeilLog2(global));
    }
  }

  method WriteStates(states: seq<Int32>, bpe: nat) returns (bytes: array<Byte>, n: nat)
    requires 1 <= bpe <= 30 && |states| >= STATES
    ensures fresh(bytes) && n <= bytes.Length
    ensures bytes[..n] == EncodeStates(states, bpe)
  {
    hide PackLongs, EncodePacked, PerLong;
    bytes, n := WritePackedArray(states, STATES, bpe, true);
  }

  method WriteIndirect(c: PalettedContainer, global: nat) returns (bytes: array<Byte>, n: nat)
    requires Writable(c, global) && OwnPalette(c) && PaletteRoom(c)
    ensures fresh(bytes) && n <= bytes.Length
    ensures bytes[..n] == EncodeContainer(c, global)
  {
    hide Encode, EncodePalette, EncodeStates, Splice, PaletteBits, Pow2, PaletteRoom;
    var bpe := PaletteBits(|c.palette|);
    PaletteBitsBound(|c.palette|);
    PaletteFitsIff(c);
    bytes, n := WriteIndirectHead(c.palette, bpe);
    ghost var head := bytes[..n];
    var states, len := WriteStates(c.states, bpe);
    bytes := Realloc(bytes, 1 + len + n, n);
    Memcpy(bytes, n, states[..len]);
    n := n + len;
    assert bytes[..n] == head + EncodeStates(c.states, bpe);
  }

  /** The field width and the palette, in a buffer of five bytes an entry. */
  method WriteIndirectHead(palette: seq<Int32>, bpe: Byte) returns (bytes: array<Byte>, n: nat)
    requires |palette| <= 255
    requires |Encode(|palette|)| + |EncodePalette(palette)| <= MAX_VAR_INT * |palette|
    ensures fresh(bytes) && n <= bytes.Length
    ensures bytes[..n] == [bpe] + Encode(|palette|) + EncodePalette(palette)
  {
    hide Encode, EncodePalette, Splice;
    bytes := new Byte[1 + MAX_VAR_INT * |palette|];
    Store(bytes, 0, bpe);
    var w := WriteVarInt(bytes, 1, |palette|);
    n := WritePalette(bytes, 1 + w, palette);
  }

  method WriteDirect(c: PalettedContainer, bpe: nat) returns (bytes: array<Byte>, n: nat)
    requires 1 <= bpe <= 30 && |c.states| >= STATES
    ensures fresh(bytes) && n <= bytes.Length
    ensures bytes[..n] == [bpe] + EncodeStates(c.states, bpe)
  {
    hide EncodeStates, Splice;
    var states, len := WriteStates(c.states, bpe);
    bytes := new Byte[1 + len];
    Store(bytes, 0, bpe);
    Memcpy(bytes, 1, states[..len]);
    n := 1 + len;
  }

  // ------------------------------------------------------------------
  // Reading, as the C function does it
  // ------------------------------------------------------------------

  /** `(createLongMask(bits, bpe) & ourLong) >> bits` */
  lemma MaskedLoad(l: nat, bits: nat, bpe: nat)
    ensures Shr(BitAnd(Shl(Pow2(bpe) - 1, bits), l), bits) == Field(l, bits, bpe)
  {
    hide Shl, Shr, Low, BitAnd, Pow2;
    AndCommutes(l, Shl(Pow2(bpe) - 1, bits));
    AndFieldMask(l, bits, bpe);
    Pow2Positive(bits);
    ShrUnique(0, Field(l, bits, bpe), bits);
  }

  lemma Pow2Positive(n: nat)
    ensures 0 < Pow2(n)
  {
  }

  lemma WrappedNext(done: seq<Int32>, v: Int32, n: nat)
    requires |done| < n
    ensures Wrapped(done + [v], n) == Wrapped(done, n)[|done| % INDEX_RANGE := v]
  {
    assert (done + [v])[..|done|] == done;
  }

  lemma NextIndex(k: nat)
    ensures k % INDEX_RANGE <= k && (k % INDEX_RANGE + 1) % INDEX_RANGE == (k + 1) % INDEX_RANGE
  {
  }

  method StoreState(states: array<Int32>, arrIndex: nat, state: Int32, ghost done: seq<Int32>) returns (next: nat)
    requires |done| < states.Length && arrIndex == |done| % INDEX_RANGE
    requires states[..] == Wrapped(done, states.Length)
    modifies states
    ensures states[..] == Wrapped(done + [state], states.Length)
    ensures next == (|done| + 1) % INDEX_RANGE
  {
    hide Wrapped;
    WrappedNext(done, state, states.Length);
    NextIndex(|done|);
    states[arrIndex] := state;
    next := (arrIndex + 1) % INDEX_RANGE;
  }

  /** The inner loop: the fields of one long are stored, unless one is above the limit. */
  method ReadLongStates(l: nat, numPerLong: nat, bpe: nat, limit: nat, states: array<Int32>, arrIndex: nat,
                        ghost done: seq<Int32>)
    returns (ok: bool, next: nat)
    requires 1 <= bpe <= 31 && numPerLong == PerLong(bpe)
    requires |done| + numPerLong <= states.Length && arrIndex == |done| % INDEX_RANGE
    requires states[..] == Wrapped(done, states.Length)
    modifies states
    ensures ok <==> AllAtMost(UnpackLong(l, bpe), limit)
    ensures ok ==> states[..] == Wrapped(done + UnpackLong(l, bpe), states.Length)
    ensures ok ==> next == (|done| + numPerLong) % INDEX_RANGE
  {
    hide Field, Shr, Shl, Pow2, BitAnd, Times, PerLong, Wrapped;
    ghost var fields := UnpackLong(l, bpe);
    next := arrIndex;
    assert done + fields[..0] == done;
    for b := 0 to numPerLong
      invariant states[..] == Wrapped(done + fields[..b], states.Length)
      invariant next == (|done| + b) % INDEX_RANGE
      invariant AllAtMost(fields[..b], limit)
    {
      var bits := Times(b, bpe);
      MaskedLoad(l, bits, bpe);
      assert fields[b] == State(l, b, bpe);
      var state := Shr(BitAnd(Shl(Pow2(bpe) - 1, bits), l), bits);
      if state > limit {
        return false, next;
      }
      next := StoreState(states, next, state, done + fields[..b]);
      assert fields[..b + 1] == fields[..b] + [fields[b]];
      assert done + fields[..b + 1] == done + fields[..b] + [fields[b]];
    }
    assert fields[..numPerLong] == fields;
    ok := true;
  }

  lemma ReadStatesStep(s: seq<Byte>, n: nat, bpe: nat, limit: nat)
    requires 1 <= bpe <= 31 && n > 0
    requires ReadStates(s, n, bpe, limit).Got?
    ensures ReadBigEndian(s, 8).Got?
    ensures var r := ReadBigEndian(s, 8); var fields := UnpackLong(r.value, bpe);
            if !AllAtMost(fields, limit) then ReadStates(s, n, bpe, limit) == Got(None, r.rest)
            else var tail := ReadStates(r.rest, n - 1, bpe, limit);
                 tail.Got? && ReadStates(s, n, bpe, limit) == Got(Prepended(fields, tail.value), tail.rest)
  {
  }

  method ReadStatesArray(buff: seq<Byte>, index: nat, numLongs: nat, bpe: nat, limit: nat)
    returns (r: Option<seq<Int32>>, next: nat)
    requires index <= |buff| && 1 <= bpe <= 31
    requires ReadStates(buff[index..], numLongs, bpe, limit).Got?
    ensures index <= next <= |buff|
    ensures var fields := ReadStates(buff[index..], numLongs, bpe, limit);
            fields.rest == buff[next..]
            && r == match fields.value case None => None case Some(t) => Some(Wrapped(t, |t|))
  {
    hide ReadStates, UnpackLong, AllAtMost, FromBigEndian, PerLong, Times, Wrapped;
    ghost var whole := ReadStates(buff[index..], numLongs, bpe, limit).value;
    ghost var after := ReadStates(buff[index..], numLongs, bpe, limit).rest;
    var numPerLong := PerLong(bpe);
    var states := new Int32[Times(numLongs, numPerLong)](_ => 0);
    var arrIndex := 0;
    ghost var done: seq<Int32> := [];
    next := index;
    TimesStep(0, numPerLong);
    assert states[..] == Wrapped([], states.Length) by {
      WrappedNothing(states[..]);
    }
    PrependedTwice([], [], whole);
    for l := 0 to numLongs
      invariant index <= next <= |buff|
      invariant |done| == Times(l, numPerLong) <= states.Length && arrIndex == |done| % INDEX_RANGE
      invariant states[..] == Wrapped(done, states.Length)
      invariant ReadStates(buff[next..], numLongs - l, bpe, limit).Got?
      invariant ReadStates(buff[next..], numLongs - l, bpe, limit).rest == after
      invariant whole == Prepended(done, ReadStates(buff[next..], numLongs - l, bpe, limit).value)
    {
      ghost var s := buff[next..];
      ReadStatesStep(s, numLongs - l, bpe, limit);
      var ourLong := FromBigEndian(buff[next..next + 8]);
      assert ReadBigEndian(s, 8) == Got(ourLong, buff[next + 8..]) by {
        assert s[..8] == buff[next..next + 8] && s[8..] == buff[next + 8..];
      }
      next := next + 8;
      TimesStep(l, numPerLong);
      TimesMonotonic(l + 1, numLongs, numPerLong);
      var ok;
      ok, arrIndex := ReadLongStates(ourLong, numPerLong, bpe, limit, states, arrIndex, done);
      if !ok {
        return None, next;
      }
      PrependedTwice(done, UnpackLong(ourLong, bpe), ReadStates(buff[next..], numLongs - l - 1, bpe, limit).value);
      done := done + UnpackLong(ourLong, bpe);
    }
    ReadNoStates(buff[next..], bpe, limit);
    assert done + [] == done;
    r := Some(states[..]);
  }

  lemma WrappedNothing(s: seq<Int32>)
    requires forall i :: 0 <= i < |s| ==> s[i] == 0
    ensures Wrapped([], |s|) == s
  {
  }

  lemma ReadNoStates(s: seq<Byte>, bpe: nat, limit: nat)
    requires 1 <= bpe <= 31
    ensures ReadStates(s, 0, bpe, limit) == Got(Some([]), s)
  {
  }

  method ReadPaletteArray(buff: seq<Byte>, index: nat, n: nat, global: nat)
    returns (r: Option<seq<Int32>>, next: nat)
    requires index <= |buff|
    requires ReadPalette(buff[index..], n, global).Got?
    ensures index <= next <= |buff|
    ensures ReadPalette(buff[index..], n, global) == Got(r, buff[next..])
  {
    hide Decode, Unsigned32;
    ghost var whole := ReadPalette(buff[index..], n, global).value;
    ghost var after := ReadPalette(buff[index..], n, global).rest;
    var palette := new Int32[n](_ => 0);
    next := index;
    assert palette[..0] == [];
    PrependedTwice([], [], whole);
    for k := 0 to n
      invariant index <= next <= |buff|
      invariant ReadPalette(buff[next..], n - k, global).Got?
      invariant ReadPalette(buff[next..], n - k, global).rest == after
      invariant whole == Prepended(palette[..k], ReadPalette(buff[next..], n - k, global).value)
    {
      ghost var tail := ReadPalette(Decode(buff[next..]).rest, n - k - 1, global);
      var element;
      element, next := ReadVarInt(buff, next);
      if Unsigned32(element) > global {
        return None, next;
      }
      ghost var done := palette[..k];
      palette[k] := element;
      assert palette[..k + 1] == done + [element];
      PrependedTwice(done, [element], tail.value);
    }
    assert palette[..n] + [] == palette[..];
    r := Some(palette[..]);
  }

  method ReadCounted(buff: seq<Byte>, index: nat, bpe: nat, limit: nat)
    returns (r: Option<seq<Int32>>, next: nat)
    requires index <= |buff| && 1 <= bpe <= 31
    requires ReadCountedStates(buff[index..], bpe, limit).Got?
    ensures index <= next <= |buff|
    ensures ReadCountedStates(buff[index..], bpe, limit) == Got(r, buff[next..])
  {
    hide Decode, ReadStates, PerLong, Times, Wrapped;
    var numLongs;
    numLongs, next := ReadVarInt(buff, index);
    r, next := ReadStatesArray(buff, next, numLongs, bpe, limit);
  }

  method ReadPalettedContainer(buff: seq<Byte>, index: nat, lowest: nat, threshold: nat, global: nat)
    returns (r: Option<PalettedContainer>, next: nat)
    requires index <= |buff| && ReaderLimits(lowest, threshold, global)
    requires DecodeContainer(buff[index..], lowest, threshold, global).Got?
    ensures index <= next <= |buff|
    ensures DecodeContainer(buff[index..], lowest, threshold, global) == Got(r, buff[next..])
  {
    hide Decode, ReadPalette, ReadCountedStates, CeilLog2;
    GlobalBits(global);
    var bitsPerEntry: nat := buff[index];
    next := index + 1;
    assert buff[index..][1..] == buff[next..];
    if bitsPerEntry == 0 {
      var value, ignored;
      value, next := ReadVarInt(buff, next);
      ignored, next := ReadVarInt(buff, next);
      return Some(PalettedContainer([value], [])), next;
    }
    var palette: seq<Int32> := [];
    var limit := global;
    if bitsPerEntry >= threshold {
      bitsPerEntry := CeilLog2(global);
    } else {
      if bitsPerEntry < lowest {
        bitsPerEntry := lowest;
      }
      var paletteSize, entries;
      paletteSize, next := ReadVarInt(buff, next);
      entries, next := ReadPaletteArray(buff, next, paletteSize, global);
      if entries == None {
        return None, next;
      }
      palette := entries.value;
      limit := Min(paletteSize, global);
    }
    var states;
    states, next := ReadCounted(buff, next, bitsPerEntry, limit);
    match states {
      case None => r := None;
      case Some(t) => r := Some(PalettedContainer(palette, t));
    }
  }
}
