// Byte buffers: what a store at an offset does, big-endian integers, and the
// result type of the specification-level parsers.
module Bytes {
  import opened Words

  datatype Option<+T> = None | Some(value: T)

  /** What reading a value off the front of a byte string yields: the value and
      the bytes behind it. `Undefined` stands for the inputs on which the C code
      has no meaning (it would read past its buffer). */
  datatype Read<+T> = Got(value: T, rest: seq<Byte>) | Undefined {
    predicate IsFailure() {
      Undefined?
    }

    function PropagateFailure<U>(): Read<U>
      requires Undefined?
    {
      Undefined
    }

    function Extract(): (T, seq<Byte>)
      requires Got?
    {
      (value, rest)
    }
  }

  /** `s` after storing `bytes` from index `at` on. */
  function Splice(s: seq<Byte>, at: nat, bytes: seq<Byte>): (r: seq<Byte>)
    requires at + |bytes| <= |s|
    ensures |r| == |s|
  {
    s[..at] + bytes + s[at + |bytes|..]
  }

  lemma SpliceNothing(s: seq<Byte>, at: nat)
    requires at <= |s|
    ensures Splice(s, at, []) == s
  {
  }

  lemma SpliceAppend(s: seq<Byte>, at: nat, a: seq<Byte>, b: seq<Byte>)
    requires at + |a| + |b| <= |s|
    ensures Splice(Splice(s, at, a), at + |a|, b) == Splice(s, at, a + b)
  {
  }

  lemma Regroup3(h: seq<Byte>, a: seq<Byte>, b: seq<Byte>, c: seq<Byte>)
    ensures h + a + b + c == h + (a + b + c)
  {
  }

  lemma Regroup4(h: seq<Byte>, a: seq<Byte>, b: seq<Byte>, c: seq<Byte>, d: seq<Byte>)
    ensures h + a + b + c + d == h + (a + b + c + d)
  {
  }

  lemma Associate3(a: seq<Byte>, b: seq<Byte>, c: seq<Byte>)
    ensures a + b + c == a + (b + c)
  {
  }

  lemma Associate4(a: seq<Byte>, b: seq<Byte>, c: seq<Byte>, d: seq<Byte>)
    ensures a + b + c + d == a + (b + (c + d))
  {
  }

  lemma SplicePrefix(s: seq<Byte>, at: nat, bytes: seq<Byte>)
    requires at + |bytes| <= |s|
    ensures Splice(s, at, bytes)[..at + |bytes|] == s[..at] + bytes
  {
  }

  method Store(buff: array<Byte>, at: nat, b: Byte)
    requires at < buff.Length
    modifies buff
    ensures buff[..] == Splice(old(buff[..]), at, [b])
    ensures buff[..at + 1] == old(buff[..at]) + [b]
  {
    buff[at] := b;
  }

  method Memcpy(buff: array<Byte>, at: nat, src: seq<Byte>)
    requires at + |src| <= buff.Length
    modifies buff
    ensures buff[..] == Splice(old(buff[..]), at, src)
    ensures buff[..at + |src|] == old(buff[..at]) + src
  {
    forall k | 0 <= k < |src| {
      buff[at + k] := src[k];
    }
  }

  /** A resized copy of a buffer, as `realloc` returns it; `kept` bytes are of interest. */
  method Realloc(buff: array<Byte>, size: nat, ghost kept: nat) returns (r: array<Byte>)
    requires kept <= buff.Length && kept <= size
    ensures fresh(r) && r.Length == size
    ensures r[..kept] == buff[..kept]
  {
    r := new Byte[size];
    forall k | 0 <= k < Min(buff.Length, size) {
      r[k] := buff[k];
    }
  }

  // ------------------------------------------------------------------
  // Big-endian integers
  // ------------------------------------------------------------------

  /** The low `width` bytes of `v`, most significant first. */
  function BigEndian(v: nat, width: nat): (s: seq<Byte>)
    ensures |s| == width
  {
    if width == 0 then [] else BigEndian(v / 256, width - 1) + [v % 256]
  }

  /** Byte i is the one at bit 8 * (width - 1 - i). */
  lemma {:induction false} BigEndianAt(v: nat, width: nat, i: nat)
    requires i < width
    ensures BigEndian(v, width)[i] == Shr(v, 8 * (width - 1 - i)) % 256
  {
    if i < width - 1 {
      BigEndianAt(v / 256, width - 1, i);
      hide Pow2, Shr;
      ShrByte(v, 8 * (width - 2 - i));
    } else {
      assert Pow2(0) == 1;
    }
  }

  lemma ShrByte(v: nat, k: nat)
    ensures v / 256 >= 0 && Shr(v / 256, k) == Shr(v, k + 8)
  {
    hide Pow2;
    Pow2Constants();
    ShrShr(v, 8, k);
  }

  function FromBigEndian(s: seq<Byte>): nat
  {
    if s == [] then 0 else FromBigEndian(s[..|s| - 1]) * 256 + s[|s| - 1]
  }

  lemma {:induction false} BigEndianRoundTrip(v: nat, width: nat)
    ensures FromBigEndian(BigEndian(v, width)) == v % Pow2(8 * width)
  {
    if width != 0 {
      var s := BigEndian(v, width);
      assert s[..|s| - 1] == BigEndian(v / 256, width - 1);
      BigEndianRoundTrip(v / 256, width - 1);
      Pow2Add(8, 8 * (width - 1));
      DivDiv(v, 256, Pow2(8 * (width - 1)));
    }
  }

  function ReadBigEndian(s: seq<Byte>, width: nat): Read<nat>
  {
    if |s| < width then Undefined else Got(FromBigEndian(s[..width]), s[width..])
  }

  lemma ReadBigEndianRoundTrip(v: nat, width: nat, rest: seq<Byte>)
    requires v < Pow2(8 * width)
    ensures ReadBigEndian(BigEndian(v, width) + rest, width) == Got(v, rest)
  {
    var s := BigEndian(v, width);
    assert (s + rest)[..width] == s && (s + rest)[width..] == rest;
    BigEndianRoundTrip(v, width);
    SmallMod(v, Pow2(8 * width));
  }

  method WriteBigEndianShort(buff: array<Byte>, at: nat, num: int) returns (n: nat)
    requires at + 2 <= buff.Length
    modifies buff
    ensures n == 2
    ensures buff[..] == Splice(old(buff[..]), at, BigEndian(num % 0x1_0000, 2))
    ensures buff[..at + 2] == old(buff[..at]) + BigEndian(num % 0x1_0000, 2)
  {
    Memcpy(buff, at, BigEndian(num % 0x1_0000, 2));
    n := 2;
  }

  method WriteBigEndianInt(buff: array<Byte>, at: nat, num: Int32) returns (n: nat)
    requires at + 4 <= buff.Length
    modifies buff
    ensures n == 4
    ensures buff[..] == Splice(old(buff[..]), at, BigEndian(Unsigned32(num), 4))
    ensures buff[..at + 4] == old(buff[..at]) + BigEndian(Unsigned32(num), 4)
  {
    Memcpy(buff, at, BigEndian(Unsigned32(num), 4));
    n := 4;
  }

  method WriteBigEndianLong(buff: array<Byte>, at: nat, num: nat) returns (n: nat)
    requires at + 8 <= buff.Length
    requires num < Pow2(64)
    modifies buff
    ensures n == 8
    ensures buff[..] == Splice(old(buff[..]), at, BigEndian(num, 8))
    ensures buff[..at + 8] == old(buff[..at]) + BigEndian(num, 8)
  {
    Memcpy(buff, at, BigEndian(num, 8));
    n := 8;
  }
}
