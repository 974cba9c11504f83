// Strings on the wire: a VarInt length, then the bytes.
module Strings {
  import opened Words
  import opened Bytes
  import opened VarInt

  /** Byte strings whose length fits an int. */
  type Text = s: seq<Byte> | |s| < 0x8000_0000

  function Nuls(s: seq<Byte>): (n: nat)
    ensures n <= |s|
    ensures n == 0 <==> 0 !in s
  {
    if s == [] then 0
    else
      assert s == [s[0]] + s[1..];
      (if s[0] == 0 then 1 else 0) + Nuls(s[1..])
  }

  /** The writer counts the terminators out of the length and copies that many bytes
      from the front, wherever the terminators were. */
  function EncodeString(s: Text): seq<Byte>
  {
    Encode(|s| - Nuls(s)) + s[..|s| - Nuls(s)]
  }

  function DecodeString(s: seq<Byte>): Read<Text>
  {
    var (n, rest) :- Decode(s);
    if n < 0 || n > |rest| then Undefined else Got(rest[..n], rest[n..])
  }

  /** A string comes back whole exactly when it has no terminator in it. */
  lemma StringRoundTrip(s: Text, rest: seq<Byte>)
    ensures DecodeString(EncodeString(s) + rest) == Got(s[..|s| - Nuls(s)], rest)
    ensures DecodeString(EncodeString(s) + rest) == Got(s, rest) <==> 0 !in s
  {
    hide Encode, DecodeString, Nuls;
    var kept := s[..|s| - Nuls(s)];
    KeptRoundTrip(kept, rest);
    if 0 !in s {
      assert kept == s;
    }
  }

  lemma KeptRoundTrip(kept: Text, rest: seq<Byte>)
    ensures DecodeString(Encode(|kept|) + kept + rest) == Got(kept, rest)
  {
    hide Encode, Decode;
    RoundTrip(|kept|, kept + rest);
    Associate3(Encode(|kept|), kept, rest);
    SplitBack(kept, rest);
  }

  lemma SplitBack(a: seq<Byte>, b: seq<Byte>)
    ensures (a + b)[..|a|] == a && (a + b)[|a|..] == b
  {
  }

  method TrimmedLength(s: seq<Byte>) returns (stringLen: nat)
    ensures stringLen == |s| - Nuls(s)
  {
    stringLen := |s|;
    var i := |s| - 1;
    while i >= 0
      invariant -1 <= i < |s|
      invariant stringLen == |s| - Nuls(s[i + 1..])
      decreases i
    {
      assert s[i..][1..] == s[i + 1..];
      if s[i] == 0 {
        stringLen := stringLen - 1;
      }
      i := i - 1;
    }
    assert s[0..] == s;
  }

  method WriteString(buff: array<Byte>, at: nat, s: Text) returns (n: nat)
    requires at + |EncodeString(s)| <= buff.Length
    modifies buff
    ensures n == |EncodeString(s)|
    ensures buff[..at + n] == old(buff[..at]) + EncodeString(s)
  {
    hide Encode, Splice, Nuls;
    ghost var head := buff[..at];
    var stringLen := TrimmedLength(s);
    var offset := WriteVarInt(buff, at, stringLen);
    Memcpy(buff, at + offset, s[..stringLen]);
    n := offset + stringLen;
    Associate3(head, Encode(stringLen), s[..stringLen]);
  }

  method ReadString(buff: seq<Byte>, index: nat) returns (s: Text, next: nat)
    requires index <= |buff| && DecodeString(buff[index..]).Got?
    ensures next <= |buff| && DecodeString(buff[index..]) == Got(s, buff[next..])
  {
    hide Decode;
    var msgLen;
    msgLen, next := ReadVarInt(buff, index);
    s := buff[next..next + msgLen];
    assert buff[next..][..msgLen] == s && buff[next..][msgLen..] == buff[next + msgLen..];
    next := next + msgLen;
  }
}
