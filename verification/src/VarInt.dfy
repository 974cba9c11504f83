// VarInt and VarLong: seven payload bits a byte, the high bit saying whether
// another byte follows.
module VarInt {
  import opened Words
  import opened Bytes

  const SEGMENT_BITS: Byte := 0x7F
  const CONTINUE_BIT: Byte := 0x80
  const MAX_VAR_INT := 5
  const MAX_VAR_LONG := 10

  // ------------------------------------------------------------------
  // The format
  // ------------------------------------------------------------------

  function Groups(u: nat): (s: seq<Byte>)
    ensures |s| >= 1
  {
    if u < 128 then [u] else [u % 128 + 128] + Groups(u / 128)
  }

  function Encode(v: Int32): (s: seq<Byte>)
  {
    Groups(Unsigned32(v))
  }

  /** The number held by the groups at the front of `s`: at most `limit` of them. */
  datatype Leb = Value(u: nat, rest: seq<Byte>) | TooLong(after: seq<Byte>) | Truncated

  function ReadGroups(s: seq<Byte>, limit: nat): Leb
    requires limit > 0
  {
    if s == [] then Truncated
    else if s[0] < 128 then Value(s[0], s[1..])
    else if limit == 1 then TooLong(s[1..])
    else
      match ReadGroups(s[1..], limit - 1)
      case Value(u, rest) => Value(s[0] - 128 + 128 * u, rest)
      case other => other
  }

  /** What readVarInt makes of the bytes at its cursor. */
  function Decode(s: seq<Byte>): Read<Int32>
  {
    match ReadGroups(s, MAX_VAR_INT)
    case Value(u, rest) => Got(Signed32(u), rest)
    case TooLong(after) => Got(INT32_MAX, after)
    case Truncated => Undefined
  }

  function Signed64(u: nat): int
  {
    var w := u % 0x1_0000_0000_0000_0000;
    if w < 0x8000_0000_0000_0000 then w else w - 0x1_0000_0000_0000_0000
  }

  /** What readVarLong makes of the bytes at its cursor. */
  function DecodeLong(s: seq<Byte>): Read<int>
  {
    match ReadGroups(s, MAX_VAR_LONG)
    case Value(u, rest) => Got(Signed64(u), rest)
    case TooLong(after) => Got(0x7FFF_FFFF_FFFF_FFFF, after)
    case Truncated => Undefined
  }

  // ------------------------------------------------------------------
  // Properties of the format
  // ------------------------------------------------------------------

  lemma {:induction false} GroupsRoundTrip(u: nat, rest: seq<Byte>, limit: nat)
    requires limit > 0
    requires |Groups(u)| <= limit
    ensures ReadGroups(Groups(u) + rest, limit) == Value(u, rest)
  {
    var s := Groups(u) + rest;
    if u < 128 {
      assert s[1..] == rest;
    } else {
      assert s[1..] == Groups(u / 128) + rest;
      GroupsRoundTrip(u / 128, rest, limit - 1);
    }
  }

  /** n groups hold exactly the numbers below 128^n, so the encoding is the shortest. */
  lemma {:induction false} GroupsLength(u: nat, n: nat)
    requires n > 0
    ensures |Groups(u)| <= n <==> u < Pow2(7 * n)
  {
    Pow2Add(7, 7 * (n - 1));
    if u >= 128 && n > 1 {
      GroupsLength(u / 128, n - 1);
    } else if n > 1 {
      Pow2Monotonic(7, 7 * n);
    }
  }

  lemma EncodeLength(v: Int32)
    ensures 1 <= |Encode(v)| <= MAX_VAR_INT
    ensures 0 <= v < 0x1000_0000 ==> |Encode(v)| <= 4
    ensures 0 <= v < 0x20_0000 ==> |Encode(v)| <= 3
    ensures 0 <= v < 0x4000 ==> |Encode(v)| <= 2
    ensures 0 <= v < 0x80 <==> |Encode(v)| == 1
  {
    hide Groups, Pow2;
    Pow2Constants();
    GroupsLength(Unsigned32(v), 5);
    GroupsLength(Unsigned32(v), 4);
    GroupsLength(Unsigned32(v), 3);
    GroupsLength(Unsigned32(v), 2);
    GroupsLength(Unsigned32(v), 1);
  }

  /** Reading back what was written, whatever bytes follow. */
  lemma RoundTrip(v: Int32, rest: seq<Byte>)
    ensures Decode(Encode(v) + rest) == Got(v, rest)
  {
    hide Groups, ReadGroups;
    EncodeLength(v);
    GroupsRoundTrip(Unsigned32(v), rest, MAX_VAR_INT);
    SignedUnsigned(v);
  }

  /** readVarLong sees the same bytes as the unsigned value. */
  lemma RoundTripLong(v: Int32, rest: seq<Byte>)
    ensures DecodeLong(Encode(v) + rest) == Got(Unsigned32(v), rest)
  {
    hide Groups, ReadGroups;
    EncodeLength(v);
    GroupsRoundTrip(Unsigned32(v), rest, MAX_VAR_LONG);
  }

  /** No other byte string that decodes to v is shorter. */
  lemma Shortest(v: Int32, s: seq<Byte>)
    requires Decode(s) == Got(v, [])
    ensures |Encode(v)| <= |s|
  {
    hide Groups, ReadGroups, Pow2;
    ReadGroupsConsumes(s, MAX_VAR_INT);
    if ReadGroups(s, MAX_VAR_INT).Value? {
      ReadGroupsBound(s, MAX_VAR_INT);
      var u := ReadGroups(s, MAX_VAR_INT).u;
      UnsignedSigned(u);
      GroupsLength(Unsigned32(v), |s|);
    } else {
      EncodeLength(v); // five bytes that go on
    }
  }

  lemma {:induction false} ReadGroupsBound(s: seq<Byte>, limit: nat)
    requires limit > 0
    requires ReadGroups(s, limit).Value?
    ensures |ReadGroups(s, limit).rest| < |s|
    ensures ReadGroups(s, limit).u < Pow2(7 * (|s| - |ReadGroups(s, limit).rest|))
  {
    var n := |s| - |ReadGroups(s, limit).rest|;
    if s[0] >= 128 {
      ReadGroupsBound(s[1..], limit - 1);
      Pow2Add(7, 7 * (n - 1));
    } else {
      assert n == 1;
    }
  }

  /** No encoding continues another one. */
  lemma PrefixFree(v: Int32, w: Int32)
    requires Encode(v) <= Encode(w)
    ensures v == w
  {
    var rest := Encode(w)[|Encode(v)|..];
    assert Encode(w) == Encode(v) + rest == Encode(w) + [];
    RoundTrip(v, rest);
    RoundTrip(w, []);
  }

  /** The reader consumes between one and five bytes, on every input. */
  lemma {:induction false} ReadGroupsConsumes(s: seq<Byte>, limit: nat)
    requires limit > 0
    ensures ReadGroups(s, limit).Value? ==>
              exists n :: 1 <= n <= limit && n <= |s| && ReadGroups(s, limit).rest == s[n..]
    ensures ReadGroups(s, limit).TooLong? ==> limit <= |s| && ReadGroups(s, limit).after == s[limit..]
  {
    if s != [] && s[0] >= 128 && limit > 1 {
      ReadGroupsConsumes(s[1..], limit - 1);
      if ReadGroups(s, limit).Value? {
        var n :| 1 <= n <= limit - 1 && n <= |s[1..]| && ReadGroups(s[1..], limit - 1).rest == s[1..][n..];
        assert s[1..][n..] == s[n + 1..];
      } else if ReadGroups(s, limit).TooLong? {
        assert s[1..][limit - 1..] == s[limit..];
      }
    } else if s != [] && s[0] < 128 {
      assert ReadGroups(s, limit).rest == s[1..];
    }
  }

  lemma DecodeConsumes(s: seq<Byte>)
    requires Decode(s).Got?
    ensures exists n :: 1 <= n <= MAX_VAR_INT && n <= |s| && Decode(s).rest == s[n..]
  {
    ReadGroupsConsumes(s, MAX_VAR_INT);
  }

  // ------------------------------------------------------------------
  // The C functions
  // ------------------------------------------------------------------

  /** `value & SEGMENT_BITS` */
  lemma SegmentBits(u: nat)
    ensures BitAnd(u, SEGMENT_BITS) == u % 128
  {
    Pow2Constants();
    AndLowMask(u, 7);
  }

  /** `(value & ~SEGMENT_BITS) == 0` */
  lemma NoBitsAboveSegment(u: nat)
    requires u < 0x1_0000_0000
    ensures SEGMENT_BITS < Pow2(32)
    ensures BitAnd(u, BitNot(SEGMENT_BITS, 32)) == u - u % 128
  {
    hide BitAnd;
    Pow2Constants();
    SegmentBits(u);
    AndNot(u, SEGMENT_BITS, 32);
  }

  /** `segment | CONTINUE_BIT` */
  lemma WithContinueBit(g: nat)
    requires g < 128
    ensures BitOr(g, CONTINUE_BIT) == g + 128
  {
    Pow2Constants();
    OrAbove(g, 1, 7);
  }

  lemma NextGroup(done: seq<Byte>, v: nat)
    ensures v < 128 ==> done + Groups(v) == done + [v]
    ensures v >= 128 ==> done + Groups(v) == (done + [v % 128 + 128]) + Groups(v / 128)
  {
  }

  method IsLastGroup(v: nat) returns (last: bool)
    requires v < 0x1_0000_0000
    ensures last <==> v < 128
  {
    hide BitAnd;
    NoBitsAboveSegment(v);
    last := BitAnd(v, BitNot(SEGMENT_BITS, 32)) == 0;
  }

  method ContinuedGroup(v: nat) returns (b: Byte)
    ensures b == v % 128 + 128
  {
    SegmentBits(v);
    WithContinueBit(v % 128);
    b := BitOr(BitAnd(v, SEGMENT_BITS), CONTINUE_BIT);
  }

  method WriteVarInt(buff: array<Byte>, at: nat, value: Int32) returns (n: nat)
    requires at + |Encode(value)| <= buff.Length
    modifies buff
    ensures n == |Encode(value)|
    ensures buff[..] == Splice(old(buff[..]), at, Encode(value))
    ensures buff[..at + n] == old(buff[..at]) + Encode(value)
  {
    hide Groups, Splice;
    SpliceNothing(buff[..], at);
    var v := Unsigned32(value);
    var i := 0;
    ghost var done: seq<Byte> := [];
    while true
      invariant v < 0x1_0000_0000
      invariant |done| == i
      invariant Encode(value) == done + Groups(v)
      invariant buff[..] == Splice(old(buff[..]), at, done)
      decreases v
    {
      NextGroup(done, v);
      var last := IsLastGroup(v);
      if last {
        Store(buff, at + i, v);
        SpliceAppend(old(buff[..]), at, done, [v]);
        SplicePrefix(old(buff[..]), at, done + [v]);
        return i + 1;
      }
      var b := ContinuedGroup(v);
      Store(buff, at + i, b);
      SpliceAppend(old(buff[..]), at, done, [b]);
      v := v / 128;
      done := done + [b];
      i := i + 1;
    }
  }

  /** The result once `acc` has been collected from the groups below `position`. */
  function Collected(acc: nat, position: nat, r: Leb): Leb
  {
    match r
    case Value(u, rest) => Value(acc + Shl(u, position), rest)
    case other => other
  }

  lemma Shl7(u: nat)
    ensures Shl(u, 7) == 128 * u
  {
    Pow2Constants();
  }

  /** How the groups at the front of `s` continue a value collected so far. */
  lemma CollectGroup(acc: nat, position: nat, s: seq<Byte>, limit: nat)
    requires limit > 0
    ensures s == [] ==> Collected(acc, position, ReadGroups(s, limit)) == Truncated
    ensures s != [] && s[0] < 128 ==>
              Collected(acc, position, ReadGroups(s, limit)) == Value(acc + Shl(s[0], position), s[1..])
    ensures s != [] && s[0] >= 128 && limit == 1 ==>
              Collected(acc, position, ReadGroups(s, limit)) == TooLong(s[1..])
    ensures s != [] && s[0] >= 128 && limit > 1 ==>
              Collected(acc, position, ReadGroups(s, limit)) ==
              Collected(acc + Shl(s[0] - 128, position), position + 7, ReadGroups(s[1..], limit - 1))
  {
    hide Pow2, Shl;
    if s != [] && s[0] >= 128 && limit > 1 {
      var r := ReadGroups(s[1..], limit - 1);
      if r.Value? {
        Shl7(r.u);
        ShlShl(r.u, 7, position);
        ShlPlus(s[0] - 128, 128 * r.u, position);
      }
    }
  }

  /** `acc |= group << position` in a word of the given width. */
  method OrGroup(acc: nat, group: nat, position: nat, width: nat) returns (r: nat)
    requires position < width && acc < Pow2(position) && group < 128
    ensures r == Low(acc + Shl(group, position), width)
    ensures position + 7 <= width ==> r == acc + Shl(group, position) < Pow2(position + 7)
  {
    hide *;
    var kept := Low(group, width - position);
    assert Low(Shl(group, position), width) == Shl(kept, position) by {
      LowOfSum(0, group, position, width);
    }
    OrAbove(acc, kept, position);
    LowOfSum(acc, group, position, width);
    r := BitOr(acc, Low(Shl(group, position), width));
    if position + 7 <= width {
      Pow2Constants();
      ShlFits(group, 7, position, acc);
      Pow2Monotonic(position + 7, width);
      LowSmall(acc + Shl(group, position), width);
    }
  }

  lemma LowOfSum(acc: nat, group: nat, position: nat, width: nat)
    requires position <= width && acc < Pow2(position)
    ensures Low(acc + Shl(group, position), width) == acc + Shl(Low(group, width - position), position)
  {
    hide *;
    ShrShr(acc + Shl(group, position), position, width - position);
    ShrUnique(acc, group, position);
  }

  /** `b & CONTINUE_BIT` */
  lemma ContinueBit(b: Byte)
    ensures BitAnd(b, CONTINUE_BIT) == b / 128 * 128
  {
    hide BitAnd;
    Pow2Constants();
    AndFieldMask(b, 7, 1);
    assert Shl(Pow2(1) - 1, 7) == 128;
    assert Low(Shr(b, 7), 1) == b / 128;
  }

  method SegmentOf(b: Byte) returns (group: nat, more: bool)
    ensures group == b % 128
    ensures more <==> b >= 128
  {
    hide BitAnd;
    SegmentBits(b);
    Pow2Constants();
    ContinueBit(b);
    group := BitAnd(b, SEGMENT_BITS);
    more := BitAnd(b, CONTINUE_BIT) != 0;
  }

  lemma CollectNothing(r: Leb)
    ensures Pow2(0) == 1
    ensures Collected(0, 0, r) == r
  {
  }

  lemma Signed32OfWord(u: nat)
    ensures Signed32(Low(u, 32)) == Signed32(u)
  {
    hide Pow2;
    Pow2Constants();
  }

  lemma Signed64OfWord(u: nat)
    ensures Signed64(Low(u, 64)) == Signed64(u)
  {
    hide Pow2;
    Pow2Constants();
  }

  method ReadVarInt(buff: seq<Byte>, index: nat) returns (value: Int32, next: nat)
    requires index <= |buff|
    requires Decode(buff[index..]).Got?
    ensures index < next <= |buff| && next <= index + MAX_VAR_INT
    ensures Decode(buff[index..]) == Got(value, buff[next..])
  {
    hide BitOr, Pow2, Shl, Low, ReadGroups, Collected;
    ghost var whole := ReadGroups(buff[index..], MAX_VAR_INT);
    CollectNothing(whole);
    var acc: nat, position := 0, 0;
    next := index;
    while true
      invariant next <= |buff|
      invariant 0 <= position < 32 && position == 7 * (next - index)
      invariant acc < Pow2(position)
      invariant whole == Collected(acc, position, ReadGroups(buff[next..], MAX_VAR_INT - (next - index)))
      decreases 32 - position
    {
      CollectGroup(acc, position, buff[next..], MAX_VAR_INT - (next - index));
      var group, more := SegmentOf(buff[next]);
      assert buff[next..][1..] == buff[next + 1..];
      next := next + 1;
      acc := OrGroup(acc, group, position, 32);
      if !more {
        Signed32OfWord(whole.u);
        return Signed32(acc), next;
      }
      position := position + 7;
      if position >= 32 || next - index > MAX_VAR_INT {
        return INT32_MAX, next;
      }
    }
  }

  method ReadVarLong(buff: seq<Byte>, index: nat) returns (value: int, next: nat)
    requires index <= |buff|
    requires DecodeLong(buff[index..]).Got?
    ensures index < next <= |buff| && next <= index + MAX_VAR_LONG
    ensures DecodeLong(buff[index..]) == Got(value, buff[next..])
  {
    hide BitOr, Pow2, Shl, Low, ReadGroups, Collected;
    ghost var whole := ReadGroups(buff[index..], MAX_VAR_LONG);
    CollectNothing(whole);
    var acc: nat, position := 0, 0;
    next := index;
    while true
      invariant next <= |buff|
      invariant 0 <= position < 64 && position == 7 * (next - index)
      invariant acc < Pow2(position)
      invariant whole == Collected(acc, position, ReadGroups(buff[next..], MAX_VAR_LONG - (next - index)))
      decreases 64 - position
    {
      CollectGroup(acc, position, buff[next..], MAX_VAR_LONG - (next - index));
      var group, more := SegmentOf(buff[next]);
      assert buff[next..][1..] == buff[next + 1..];
      next := next + 1;
      acc := OrGroup(acc, group, position, 64);
      if !more {
        Signed64OfWord(whole.u);
        return Signed64(acc), next;
      }
      position := position + 7;
      if position >= 64 || next - index > MAX_VAR_LONG {
        return 0x7FFF_FFFF_FFFF_FFFF, next;
      }
    }
  }
}
