// Packets on a byte stream: a length prefix, then the packet in one of three
// layouts (plain, below the compression threshold, compressed).
module Framing {
  import opened Words
  import opened Bytes
  import opened VarInt

  const NO_COMPRESSION := -1
  const MAX_PACKET_SIZE := 2097151
  const MAX_PACKET_ID := 255

  datatype Packet = Packet(id: Byte, data: seq<Byte>)

  /** zlib: `uncompress` is given the room for its result and fails on bytes that are
      no compressed data. */
  datatype Zlib = Zlib(compress: seq<Byte> -> seq<Byte>, uncompress: (seq<Byte>, nat) -> Option<seq<Byte>>)
  {
    ghost predicate Lawful()
    {
      forall d, room :: room >= |d| ==> uncompress(compress(d), room) == Some(d)
    }

    /** It fails on data that need more room, too. */
    function Inflate(s: seq<Byte>, room: nat): (r: Option<seq<Byte>>)
      ensures r.Some? ==> |r.value| <= room
    {
      match uncompress(s, room)
      case None => None
      case Some(d) => if |d| <= room then Some(d) else None
    }
  }

  // ------------------------------------------------------------------
  // What a sender puts on the wire
  // ------------------------------------------------------------------

  function Body(p: Packet): (s: seq<Byte>)
  {
    Encode(p.id) + p.data
  }

  /** The bytes a frame announces: the body itself or, once compression is on, the
      body's length (0 below the threshold) and the body, compressed above it. */
  function Content(p: Packet, compression: int, z: Zlib): seq<Byte>
    requires |Body(p)| < 0x8000_0000
  {
    if compression <= NO_COMPRESSION then Body(p)
    else if |Body(p)| > compression then Encode(|Body(p)|) + z.compress(Body(p))
    else Encode(0) + Body(p)
  }

  /** The sizes a peer accepts. */
  predicate Fits(p: Packet, compression: int, z: Zlib)
  {
    |Body(p)| < 0x8000_0000 && 1 <= |Content(p, compression, z)| <= MAX_PACKET_SIZE
  }

  function Frame(p: Packet, compression: int, z: Zlib): seq<Byte>
    requires |Body(p)| < 0x8000_0000 && |Content(p, compression, z)| < 0x8000_0000
  {
    Encode(|Content(p, compression, z)|) + Content(p, compression, z)
  }

  // ------------------------------------------------------------------
  // What a receiver makes of it
  // ------------------------------------------------------------------

  /** The content of the frame at the front of the stream; Undefined where readSocket
      returns no bytes or the stream is too short. */
  function Unframe(s: seq<Byte>): Read<seq<Byte>>
  {
    match ReadGroups(s, MAX_VAR_INT)
    case Value(u, rest) =>
      var size := Signed32(u);
      if size <= 0 || size > MAX_PACKET_SIZE || |rest| < size then Undefined
      else Got(rest[..size], rest[size..])
    case _ => Undefined
  }

  /** Overread: the parser would copy bytes from behind the end of its buffer. */
  datatype Parsed = Ok(packet: Packet) | Null | Overread

  /** A body of `size` bytes at the front of a buffer. */
  function ParseBody(b: seq<Byte>, size: nat): Parsed
  {
    match Decode(b)
    case Undefined => Overread
    case Got(packetId, rest) =>
      if packetId > MAX_PACKET_ID then Null
      else if size == 0 || size - 1 > |rest| then Overread
      else Ok(Packet(packetId % 256, rest[..size - 1]))
  }

  /** The buffer for inflated data is as large as announced, and zero behind the data. */
  function Inflated(d: seq<Byte>, room: nat): (b: seq<Byte>)
    requires |d| <= room
    ensures |b| == room
  {
    d + seq(room - |d|, _ => 0)
  }

  function Parse(content: seq<Byte>, compression: int, z: Zlib): Parsed
  {
    if compression <= NO_COMPRESSION then ParseBody(content, |content|)
    else
      match Decode(content)
      case Undefined => Overread
      case Got(dataLength, rest) =>
        if dataLength == 0 then ParseBody(rest, |rest|)
        else if dataLength < 0 then Null // there is no buffer of that size to inflate into
        else
          match z.Inflate(rest, dataLength)
          case None => Null
          case Some(d) => ParseBody(Inflated(d, dataLength), |d|)
  }

  /** The bytes at the front that say another one follows. */
  function Continuing(b: seq<Byte>): (n: nat)
    ensures n <= |b|
  {
    if b == [] || b[0] < 128 then 0 else 1 + Continuing(b[1..])
  }

  lemma {:induction false} GroupsAtFront(b: seq<Byte>, limit: nat)
    requires limit > 0
    ensures var n, r := Continuing(b), ReadGroups(b, limit);
            (r.TooLong? <==> n >= limit)
            && (r.Value? <==> n < limit && n < |b|)
            && (r.Value? ==> |r.rest| == |b| - n - 1)
  {
    if b != [] && b[0] >= 128 && limit > 1 {
      GroupsAtFront(b[1..], limit - 1);
    }
  }

  /** The id is rejected as too large, or the bytes it takes behind its first one fit in
      the room the buffer has behind the body. */
  predicate CopyInside(b: seq<Byte>, size: nat)
    requires size <= |b|
  {
    var n := Continuing(b);
    n >= MAX_VAR_INT
    || (n < |b| && Decode(b).Got? && (Decode(b).value > MAX_PACKET_ID || (0 < size && n <= |b| - size)))
  }

  /** The parser stays inside its buffer exactly then. */
  lemma ParseBodyInside(b: seq<Byte>, size: nat)
    requires size <= |b|
    ensures ParseBody(b, size) != Overread <==> CopyInside(b, size)
  {
    hide ReadGroups, Continuing;
    GroupsAtFront(b, MAX_VAR_INT);
  }

  /** The id is too large for a packet, or takes one byte. */
  predicate ShortId(d: seq<Byte>)
  {
    d != [] && (d[0] < 128 || (Decode(d).Got? && Decode(d).value > MAX_PACKET_ID))
  }

  /** In a buffer without such room, the id has to take one byte. */
  lemma FullBuffer(d: seq<Byte>)
    ensures CopyInside(d, |d|) <==> ShortId(d)
  {
    hide ReadGroups;
    GroupsAtFront(d, MAX_VAR_INT);
  }

  /** What a receiver can check of the content before parsing it. */
  predicate Parsable(content: seq<Byte>, compression: int, z: Zlib)
  {
    if compression <= NO_COMPRESSION then ShortId(content)
    else
      Decode(content).Got?
      && var dataLength := Decode(content).value;
         var rest := Decode(content).rest;
         if dataLength == 0 then ShortId(rest)
         else
           dataLength > 0 && z.Inflate(rest, dataLength).Some? ==>
             var d := z.Inflate(rest, dataLength).value;
             CopyInside(Inflated(d, dataLength), |d|)
  }

  /** In all three layouts the parser stays inside its buffers exactly then. */
  lemma ParseInside(content: seq<Byte>, compression: int, z: Zlib)
    ensures Parse(content, compression, z) != Overread <==> Parsable(content, compression, z)
  {
    hide Decode, ParseBody, ShortId, CopyInside, Inflated, Zlib.Inflate;
    if compression <= NO_COMPRESSION {
      ParseBodyInside(content, |content|);
      FullBuffer(content);
    } else if Decode(content).Got? {
      var dataLength, rest := Decode(content).value, Decode(content).rest;
      ParseBodyInside(rest, |rest|);
      FullBuffer(rest);
      if dataLength > 0 && z.Inflate(rest, dataLength).Some? {
        var d := z.Inflate(rest, dataLength).value;
        ParseBodyInside(Inflated(d, dataLength), |d|);
      }
    }
  }

  lemma ParseBodyRoundTrip(p: Packet)
    ensures ParseBody(Body(p), |Body(p)|) == if p.id <= 127 then Ok(p) else Overread
  {
    hide Decode;
    var d := Body(p);
    EncodeLength(p.id);
    RoundTrip(p.id, p.data);
    assert p.id <= 127 ==> p.data[..|d| - 1] == p.data;
  }

  lemma InflatedExactly(d: seq<Byte>)
    ensures Inflated(d, |d|) == d
  {
  }

  /** In each layout a packet comes back exactly when its id fits one byte of VarInt:
      the parser takes the id for one byte whatever it took to read it, and reads past
      the end of every packet with a longer one. */
  lemma ParseRoundTrip(p: Packet, compression: int, z: Zlib)
    requires z.Lawful()
    requires |Body(p)| < 0x8000_0000
    ensures Parse(Content(p, compression, z), compression, z) == if p.id <= 127 then Ok(p) else Overread
  {
    hide Decode, ParseBody, Inflated;
    ParseBodyRoundTrip(p);
    if compression > NO_COMPRESSION {
      if |Body(p)| > compression {
        assert |Body(p)| > 0;
        InflatedExactly(Body(p));
        RoundTrip(|Body(p)|, z.compress(Body(p)));
      } else {
        RoundTrip(0, Body(p));
      }
    }
  }

  /** Contents the parser reads past, one in each of the three layouts: a frame of two
      bytes, a packet below the threshold, a compressed one. */
  lemma TwoByteIdOverreads(z: Zlib)
    requires z.Lawful()
    ensures Content(Packet(128, []), NO_COMPRESSION, z) == [128, 1] && Unframe([2, 128, 1]) == Got([128, 1], [])
    ensures Parse([128, 1], NO_COMPRESSION, z) == Overread
    ensures Parse([0, 128, 1], 20, z) == Overread
    ensures Parse(Encode(2) + z.compress([128, 1]), 0, z) == Overread
  {
    hide Parse, Content, Body, Encode, Unframe, Zlib.Lawful;
    var p := Packet(128, []);
    LongIdContents(z);
    UnframeRoundTrip([128, 1], []);
    assert [2] + [128, 1] + [] == [2, 128, 1];
    ParseRoundTrip(p, NO_COMPRESSION, z);
    ParseRoundTrip(p, 20, z);
    ParseRoundTrip(p, 0, z);
  }

  /** The last of them is parsed, with the zero behind its data, once the packet
      announces more room than it needs. */
  lemma RoomForLongId(z: Zlib)
    requires z.Lawful()
    ensures Parse(Encode(10) + z.compress([128, 1]), 0, z) == Ok(Packet(128, [0]))
    ensures Parsable(Encode(10) + z.compress([128, 1]), 0, z)
  {
    hide Decode, ParseBody, Encode;
    SmallEncodings();
    RoundTrip(10, z.compress([128, 1]));
    var b := Inflated([128, 1], 10);
    assert b == [128, 1] + seq(8, _ => 0);
    RoundTrip(128, seq(8, _ => 0));
    assert ParseBody(b, 2) == Ok(Packet(128, [0])) by {
      LongIdParsed(b);
    }
    ParseInside(Encode(10) + z.compress([128, 1]), 0, z);
  }

  lemma LongIdParsed(b: seq<Byte>)
    requires Decode(b) == Got(128, seq(8, _ => 0))
    ensures ParseBody(b, 2) == Ok(Packet(128, [0]))
  {
    hide Decode;
    assert seq(8, _ => 0)[..1] == [0];
  }

  lemma SmallEncodings()
    ensures Encode(0) == [0] && Encode(2) == [2] && Encode(128) == [128, 1]
  {
    assert Groups(1) == [1] && Groups(128) == [0 + 128] + Groups(1);
  }

  lemma LongIdContents(z: Zlib)
    ensures var p := Packet(128, []);
            Encode(2) == [2] && |Body(p)| == 2
            && Content(p, NO_COMPRESSION, z) == [128, 1] && Content(p, 20, z) == [0, 128, 1]
            && Content(p, 0, z) == Encode(2) + z.compress([128, 1])
  {
    hide Encode;
    SmallEncodings();
    assert Body(Packet(128, [])) == [128, 1] + [] == [128, 1];
    assert [0] + [128, 1] == [0, 128, 1];
  }

  lemma UnframeRoundTrip(content: seq<Byte>, rest: seq<Byte>)
    requires 1 <= |content| <= MAX_PACKET_SIZE
    ensures Unframe(Encode(|content|) + content + rest) == Got(content, rest)
  {
    hide Groups, ReadGroups;
    EncodeLength(|content|);
    GroupsRoundTrip(Unsigned32(|content|), content + rest, MAX_VAR_INT);
    assert Encode(|content|) + content + rest == Groups(Unsigned32(|content|)) + (content + rest);
    assert (content + rest)[..|content|] == content && (content + rest)[|content|..] == rest;
  }

  // ------------------------------------------------------------------
  // Whole streams
  // ------------------------------------------------------------------

  predicate AllFit(ps: seq<Packet>, compression: int, z: Zlib)
  {
    forall i :: 0 <= i < |ps| ==> Fits(ps[i], compression, z)
  }

  function Stream(ps: seq<Packet>, compression: int, z: Zlib): seq<Byte>
    requires AllFit(ps, compression, z)
  {
    if ps == [] then [] else Frame(ps[0], compression, z) + Stream(ps[1..], compression, z)
  }

  function Receive(s: seq<Byte>, compression: int, z: Zlib): Read<Packet>
  {
    var (content, rest) :- Unframe(s);
    match Parse(content, compression, z)
    case Ok(p) => Got(p, rest)
    case _ => Undefined
  }

  /** n packets read off the stream one after the other. */
  function ReceiveAll(s: seq<Byte>, n: nat, compression: int, z: Zlib): Read<seq<Packet>>
    decreases n
  {
    if n == 0 then Got([], s)
    else
      var (p, rest) :- Receive(s, compression, z);
      var (ps, rest') :- ReceiveAll(rest, n - 1, compression, z);
      Got([p] + ps, rest')
  }

  lemma ReceiveRoundTrip(p: Packet, compression: int, z: Zlib, rest: seq<Byte>)
    requires z.Lawful() && Fits(p, compression, z)
    ensures p.id <= 127 ==> Receive(Frame(p, compression, z) + rest, compression, z) == Got(p, rest)
    ensures p.id > 127 ==> !(Receive(Frame(p, compression, z) + rest, compression, z).Got?
                             && Receive(Frame(p, compression, z) + rest, compression, z).value == p)
  {
    hide Parse, Content, Unframe;
    ParseRoundTrip(p, compression, z);
    UnframeRoundTrip(Content(p, compression, z), rest);
  }

  /** Ids that take one byte as a VarInt. */
  predicate ShortIds(ps: seq<Packet>)
  {
    forall i :: 0 <= i < |ps| ==> ps[i].id <= 127
  }

  lemma StreamStep(ps: seq<Packet>, compression: int, z: Zlib, rest: seq<Byte>)
    requires AllFit(ps, compression, z) && ps != []
    ensures AllFit(ps[1..], compression, z) && Fits(ps[0], compression, z)
    ensures Stream(ps, compression, z) + rest == Frame(ps[0], compression, z) + (Stream(ps[1..], compression, z) + rest)
    ensures ShortIds(ps) ==> ShortIds(ps[1..]) && ps[0].id <= 127
  {
    hide Frame;
  }

  lemma ReceiveAllStep(s: seq<Byte>, n: nat, compression: int, z: Zlib)
    requires n > 0
    ensures ReceiveAll(s, n, compression, z) ==
              if Receive(s, compression, z).Undefined? then Undefined
              else match ReceiveAll(Receive(s, compression, z).rest, n - 1, compression, z)
                   case Undefined => Undefined
                   case Got(ps, rest) => Got([Receive(s, compression, z).value] + ps, rest)
  {
    hide Receive;
  }

  lemma {:induction false} StreamReceived(ps: seq<Packet>, compression: int, z: Zlib, rest: seq<Byte>)
    requires z.Lawful() && AllFit(ps, compression, z)
    requires ShortIds(ps)
    ensures ReceiveAll(Stream(ps, compression, z) + rest, |ps|, compression, z) == Got(ps, rest)
  {
    hide *;
    if ps == [] {
      EmptyStream(compression, z, rest);
    } else {
      StreamStep(ps, compression, z, rest);
      ReceiveAllStep(Stream(ps, compression, z) + rest, |ps|, compression, z);
      ReceiveRoundTrip(ps[0], compression, z, Stream(ps[1..], compression, z) + rest);
      StreamReceived(ps[1..], compression, z, rest);
      assert [ps[0]] + ps[1..] == ps;
    }
  }

  lemma EmptyStream(compression: int, z: Zlib, rest: seq<Byte>)
    ensures AllFit([], compression, z)
    ensures Stream([], compression, z) + rest == rest
    ensures ReceiveAll(rest, 0, compression, z) == Got([], rest)
  {
    assert [] + rest == rest;
  }

  lemma {:induction false} StreamBroken(ps: seq<Packet>, compression: int, z: Zlib, rest: seq<Byte>, i: nat)
    requires z.Lawful() && AllFit(ps, compression, z)
    requires i < |ps| && ps[i].id > 127
    ensures ReceiveAll(Stream(ps, compression, z) + rest, |ps|, compression, z) != Got(ps, rest)
  {
    hide *;
    StreamStep(ps, compression, z, rest);
    var s, tail := Stream(ps, compression, z) + rest, Stream(ps[1..], compression, z) + rest;
    ReceiveAllStep(s, |ps|, compression, z);
    ReceiveRoundTrip(ps[0], compression, z, tail);
    if ReceiveAll(s, |ps|, compression, z) == Got(ps, rest) {
      var first := Receive(s, compression, z);
      var others := ReceiveAll(first.rest, |ps| - 1, compression, z);
      HeadAndTail(ps, first.value, others.value);
      if ps[0].id <= 127 {
        StreamBroken(ps[1..], compression, z, rest, i - 1);
      }
    }
  }

  lemma HeadAndTail(ps: seq<Packet>, p: Packet, others: seq<Packet>)
    requires ps == [p] + others
    ensures ps[0] == p && ps[1..] == others
  {
  }

  /** Packets sent back to back come back as the same packets, in order, with the
      cursor at the end of the last, exactly when all their ids are at most 127. */
  lemma StreamRoundTrip(ps: seq<Packet>, compression: int, z: Zlib, rest: seq<Byte>)
    requires z.Lawful() && AllFit(ps, compression, z)
    ensures ReceiveAll(Stream(ps, compression, z) + rest, |ps|, compression, z) == Got(ps, rest)
            <==> ShortIds(ps)
  {
    hide Receive, ReceiveAll, Frame, Stream, Fits, AllFit;
    if i :| 0 <= i < |ps| && ps[i].id > 127 {
      StreamBroken(ps, compression, z, rest, i);
    } else {
      StreamReceived(ps, compression, z, rest);
    }
  }

  // ------------------------------------------------------------------
  // Sockets
  // ------------------------------------------------------------------

  /** What one call of `read` does: deliver up to k bytes, report that nothing is
      there yet, or end the connection. */
  datatype Outcome = Deliver(k: nat) | Again | Closed

  class Socket {
    var sent: seq<Byte>
    var pending: seq<Byte>
    var schedule: seq<Outcome>

    method Write(bytes: seq<Byte>) returns (n: int)
      modifies this`sent
      ensures sent == old(sent) + bytes && n == |bytes|
    {
      sent := sent + bytes;
      n := |bytes|;
    }

    /** The next outcome decides; a schedule that has run out is a closed connection. */
    method Recv(room: nat) returns (n: int, bytes: seq<Byte>)
      requires room > 0
      modifies this`pending, this`schedule
      ensures old(schedule) == [] ==> n == 0 && schedule == []
      ensures old(schedule) != [] ==> schedule == old(schedule)[1..]
      ensures old(schedule) != [] ==> n == ReadResult(old(schedule)[0], room, |old(pending)|)
      ensures n > 0 ==> bytes == old(pending)[..n] && pending == old(pending)[n..]
      ensures n <= 0 ==> pending == old(pending)
    {
      bytes := [];
      if schedule == [] {
        return 0, [];
      }
      n := ReadResult(schedule[0], room, |pending|);
      if n > 0 {
        bytes := pending[..n];
        pending := pending[n..];
      }
      schedule := schedule[1..];
    }
  }

  /** The count `read` returns: -1 stands for EAGAIN, 0 for the end of the connection. */
  function ReadResult(o: Outcome, room: nat, available: nat): (n: int)
    ensures -1 <= n <= available && n <= room
  {
    match o
    case Deliver(k) => if Min(k, Min(room, available)) == 0 then -1 else Min(k, Min(room, available))
    case Again => -1
    case Closed => 0
  }

  /** The schedule delivers the next n single bytes one after the other. */
  predicate DeliversPrefix(schedule: seq<Outcome>, n: nat)
  {
    n <= |schedule| && forall i :: 0 <= i < n ==> schedule[i].Deliver? && schedule[i].k > 0
  }

  /** What is left of a schedule once it has delivered `need` bytes, however it splits
      them; None if the connection ends before. */
  function AfterBody(schedule: seq<Outcome>, need: nat, available: nat): Option<seq<Outcome>>
    decreases schedule
  {
    if need == 0 then Some(schedule)
    else if schedule == [] || schedule[0] == Closed then None
    else
      var n := ReadResult(schedule[0], need, available);
      AfterBody(schedule[1..], if n > 0 then need - n else need, if n > 0 then available - n else available)
  }

  /** How many bytes the length prefix takes. */
  function PrefixLength(s: seq<Byte>): (n: nat)
    requires ReadGroups(s, MAX_VAR_INT).Value?
    ensures n <= |s|
  {
    ReadGroupsConsumes(s, MAX_VAR_INT);
    |s| - |ReadGroups(s, MAX_VAR_INT).rest|
  }

  /** Before the connection ends the schedule is willing to deliver `need` bytes. */
  ghost predicate Enough(schedule: seq<Outcome>, need: nat)
  {
    exists k :: 0 <= k <= |schedule| && Closed !in schedule[..k] && Total(schedule[..k]) >= need
  }

  /** The bytes a schedule is willing to deliver. */
  function Total(schedule: seq<Outcome>): nat
  {
    if schedule == [] then 0
    else (if schedule[0].Deliver? then schedule[0].k else 0) + Total(schedule[1..])
  }

  /** The body arrives exactly when enough is delivered before the connection ends, in
      whatever pieces and however often the reader has to wait. */
  lemma {:induction false} EnoughReadsDeliver(schedule: seq<Outcome>, need: nat, available: nat)
    requires need <= available
    ensures AfterBody(schedule, need, available).Some? <==> Enough(schedule, need)
    decreases schedule
  {
    if need == 0 {
      assert Closed !in schedule[..0];
    } else if schedule != [] && schedule[0] != Closed {
      var n := ReadResult(schedule[0], need, available);
      var need', available' := if n > 0 then need - n else need, if n > 0 then available - n else available;
      EnoughReadsDeliver(schedule[1..], need', available');
      if Enough(schedule, need) {
        var k :| 0 <= k <= |schedule| && Closed !in schedule[..k] && Total(schedule[..k]) >= need;
        PrefixStep(schedule, k);
        assert k > 0;
      }
      if Enough(schedule[1..], need') {
        var k :| 0 <= k <= |schedule[1..]| && Closed !in schedule[1..][..k] && Total(schedule[1..][..k]) >= need';
        PrefixStep(schedule, k + 1);
      }
    } else {
      forall k | 0 <= k <= |schedule| && Closed !in schedule[..k]
        ensures Total(schedule[..k]) == 0
      {
        PrefixStep(schedule, k);
      }
    }
  }

  lemma PrefixStep(schedule: seq<Outcome>, k: nat)
    requires k <= |schedule|
    ensures k == 0 ==> Total(schedule[..k]) == 0
    ensures k > 0 ==>
              (Closed in schedule[..k] <==> schedule[0] == Closed || Closed in schedule[1..][..k - 1])
    ensures k > 0 ==>
              Total(schedule[..k])
              == (if schedule[0].Deliver? then schedule[0].k else 0) + Total(schedule[1..][..k - 1])
  {
    if k > 0 {
      assert schedule[..k] == [schedule[0]] + schedule[1..][..k - 1];
      assert schedule[..k][1..] == schedule[1..][..k - 1];
    }
  }

  /** What is left of a schedule once the whole frame has arrived: the prefix byte after
      byte, then the body in any pieces. */
  function AfterFrame(schedule: seq<Outcome>, s: seq<Byte>): Option<seq<Outcome>>
    requires Unframe(s).Got?
  {
    if !DeliversPrefix(schedule, PrefixLength(s)) then None
    else AfterBody(schedule[PrefixLength(s)..], |Unframe(s).value|, |s| - PrefixLength(s))
  }

  predicate Delivers(schedule: seq<Outcome>, s: seq<Byte>)
    requires Unframe(s).Got?
  {
    AfterFrame(schedule, s).Some?
  }

  /** The frame arrives exactly when every byte of its prefix arrives at once and enough
      for the body follows before the connection ends. */
  lemma DeliversIff(schedule: seq<Outcome>, s: seq<Byte>)
    requires Unframe(s).Got?
    ensures Delivers(schedule, s)
            <==> DeliversPrefix(schedule, PrefixLength(s))
                 && Enough(schedule[PrefixLength(s)..], |Unframe(s).value|)
  {
    hide AfterBody, Enough, ReadGroups;
    if DeliversPrefix(schedule, PrefixLength(s)) {
      EnoughReadsDeliver(schedule[PrefixLength(s)..], |Unframe(s).value|, |s| - PrefixLength(s));
    }
  }

  /** The schedule lets n frames through. */
  predicate DeliversAll(schedule: seq<Outcome>, s: seq<Byte>, n: nat)
    decreases n
  {
    n == 0
    || (Unframe(s).Got? && Delivers(schedule, s)
        && DeliversAll(AfterFrame(schedule, s).value, Unframe(s).rest, n - 1))
  }

  /** The first loop of readSocket. */
  method ReadSize(sock: Socket) returns (ok: bool, size: Int32)
    requires !ReadGroups(sock.pending, MAX_VAR_INT).TooLong?
    modifies sock`pending, sock`schedule
    ensures ok ==> ReadGroups(old(sock.pending), MAX_VAR_INT).Value?
                   && ReadGroups(old(sock.pending), MAX_VAR_INT).rest == sock.pending
                   && size == Signed32(ReadGroups(old(sock.pending), MAX_VAR_INT).u)
    ensures ReadGroups(old(sock.pending), MAX_VAR_INT).Value? ==>
              var n := PrefixLength(old(sock.pending));
              (ok <==> DeliversPrefix(old(sock.schedule), n))
              && (ok ==> sock.schedule == old(sock.schedule)[n..])
  {
    hide Pow2, BitOr, Shl, Low, ReadGroups, Collected, Signed32;
    ghost var s := sock.pending;
    ghost var whole := ReadGroups(s, MAX_VAR_INT);
    ghost var i := 0;
    CollectNothing(whole);
    ReadGroupsConsumes(s, MAX_VAR_INT);
    var acc: nat, position := 0, 0;
    while true
      invariant i <= |s| && i < MAX_VAR_INT && i <= |old(sock.schedule)|
      invariant sock.pending == s[i..] && sock.schedule == old(sock.schedule)[i..]
      invariant DeliversPrefix(old(sock.schedule), i)
      invariant position == 7 * i && acc < Pow2(position)
      invariant whole == Collected(acc, position, ReadGroups(s[i..], MAX_VAR_INT - i))
      decreases MAX_VAR_INT - i
    {
      CollectGroup(acc, position, s[i..], MAX_VAR_INT - i);
      CollectedShorter(acc, position, s[i..], MAX_VAR_INT - i);
      var r, bytes := sock.Recv(1);
      if r < 1 {
        return false, 0;
      }
      var group, more := SegmentOf(bytes[0]);
      assert s[i..][1..] == s[i + 1..];
      assert old(sock.schedule)[i..][1..] == old(sock.schedule)[i + 1..];
      acc := OrGroup(acc, group, position, 32);
      i := i + 1;
      if !more {
        Signed32OfWord(whole.u);
        return true, Signed32(acc);
      }
      position := position + 7;
    }
  }

  /** Groups still to come lie behind the cursor. */
  lemma CollectedShorter(acc: nat, position: nat, s: seq<Byte>, limit: nat)
    requires limit > 0
    ensures var r := Collected(acc, position, ReadGroups(s, limit));
            r.Value? ==> |r.rest| < |s|
  {
    if ReadGroups(s, limit).Value? {
      ReadGroupsBound(s, limit);
    }
  }

  /** readSocket: the content of one frame. Some result is the frame's own content
      whatever the schedule, and no byte behind the frame is consumed. */
  method ReadSocket(sock: Socket) returns (r: Option<seq<Byte>>)
    requires !ReadGroups(sock.pending, MAX_VAR_INT).TooLong?
    modifies sock`pending, sock`schedule
    ensures r.Some? ==> Unframe(old(sock.pending)) == Got(r.value, sock.pending)
    ensures Unframe(old(sock.pending)).Got? ==> (r.Some? <==> Delivers(old(sock.schedule), old(sock.pending)))
    ensures r.Some? ==> AfterFrame(old(sock.schedule), old(sock.pending)) == Some(sock.schedule)
  {
    hide Pow2, ReadGroups, Signed32, Enough, AfterBody;
    if Unframe(sock.pending).Got? {
      DeliversIff(sock.schedule, sock.pending);
    }
    var ok, size := ReadSize(sock);
    if !ok || size == 0 || size > MAX_PACKET_SIZE {
      return None;
    }
    if size < 0 {
      return None; // the allocation of the buffer fails
    }
    r := ReadBody(sock, size);
  }

  /** The second loop of readSocket. */
  method ReadBody(sock: Socket, size: nat) returns (r: Option<seq<Byte>>)
    requires size > 0
    modifies sock`pending, sock`schedule
    ensures r.Some? ==> size <= |old(sock.pending)|
                        && r.value == old(sock.pending)[..size] && sock.pending == old(sock.pending)[size..]
    ensures size <= |old(sock.pending)| ==>
              (r.Some? <==> Enough(old(sock.schedule), size))
    ensures r.Some? ==> AfterBody(old(sock.schedule), size, |old(sock.pending)|) == Some(sock.schedule)
  {
    hide AfterBody, Enough;
    ghost var rest := sock.pending;
    ghost var start := sock.schedule;
    if size <= |rest| {
      EnoughReadsDeliver(start, size, |rest|);
    }
    var input: seq<Byte> := [];
    var nRead := 0;
    while nRead < size
      invariant 0 <= nRead <= size && nRead == |input| <= |rest|
      invariant input == rest[..nRead] && sock.pending == rest[nRead..]
      invariant AfterBody(start, size, |rest|) == AfterBody(sock.schedule, size - nRead, |rest| - nRead)
      decreases |sock.schedule|
    {
      AfterRead(sock.schedule, size - nRead, |sock.pending|);
      var n, bytes := sock.Recv(size - nRead);
      if n < 1 {
        if n == 0 {
          return None;
        }
      } else {
        assert input + bytes == rest[..nRead + n];
        input := input + bytes;
        nRead := nRead + n;
      }
    }
    AfterNothing(sock.schedule, |rest| - nRead);
    r := Some(input);
  }

  lemma AfterNothing(schedule: seq<Outcome>, available: nat)
    ensures AfterBody(schedule, 0, available) == Some(schedule)
  {
  }

  lemma AfterRead(schedule: seq<Outcome>, need: nat, available: nat)
    requires need > 0
    ensures schedule == [] ==> AfterBody(schedule, need, available) == None
    ensures schedule != [] ==>
              var n := ReadResult(schedule[0], need, available);
              AfterBody(schedule, need, available) ==
                if n == 0 then None
                else if n < 0 then AfterBody(schedule[1..], need, available)
                else AfterBody(schedule[1..], need - n, available - n)
  {
  }

  /** Every read delivers something. */
  predicate NeverWaits(schedule: seq<Outcome>)
  {
    forall i :: 0 <= i < |schedule| ==> schedule[i].Deliver? && schedule[i].k > 0
  }

  lemma {:induction false} ReadsDeliverBody(schedule: seq<Outcome>, need: nat, available: nat)
    requires need <= available && need <= |schedule| && NeverWaits(schedule)
    ensures AfterBody(schedule, need, available).Some?
    ensures var after := AfterBody(schedule, need, available).value;
            NeverWaits(after) && |after| >= |schedule| - need
    decreases schedule
  {
    if need > 0 {
      var n := ReadResult(schedule[0], need, available);
      ReadsDeliverBody(schedule[1..], need - n, available - n);
    }
  }

  lemma ReadsDeliverFrame(schedule: seq<Outcome>, content: seq<Byte>, rest: seq<Byte>)
    requires 1 <= |content| <= MAX_PACKET_SIZE
    requires NeverWaits(schedule) && |schedule| >= |Encode(|content|) + content|
    ensures var s := Encode(|content|) + content + rest;
            Unframe(s) == Got(content, rest) && Delivers(schedule, s)
            && var after := AfterFrame(schedule, s).value;
               NeverWaits(after) && |after| >= |schedule| - |Encode(|content|) + content|
  {
    hide Groups, ReadGroups, AfterBody;
    UnframeRoundTrip(content, rest);
    EncodeLength(|content|);
    GroupsRoundTrip(Unsigned32(|content|), content + rest, MAX_VAR_INT);
    var s := Encode(|content|) + content + rest;
    assert s == Groups(Unsigned32(|content|)) + (content + rest);
    var n := PrefixLength(s);
    assert n == |Encode(|content|)|;
    ReadsDeliverBody(schedule[n..], |content|, |s| - n);
  }

  /** As many reads that deliver something as the stream has bytes let all of it through,
      however much each of them delivers. */
  lemma {:induction false} ReadsDeliverStream(schedule: seq<Outcome>, ps: seq<Packet>, compression: int, z: Zlib,
                                              rest: seq<Byte>)
    requires AllFit(ps, compression, z)
    requires NeverWaits(schedule) && |schedule| >= |Stream(ps, compression, z)|
    ensures DeliversAll(schedule, Stream(ps, compression, z) + rest, |ps|)
    decreases ps
  {
    hide *;
    NothingToDeliver(schedule, Stream(ps, compression, z) + rest);
    if ps != [] {
      StreamStep(ps, compression, z, rest);
      FirstFrameLength(ps, compression, z);
      var tail := Stream(ps[1..], compression, z) + rest;
      FrameArrives(schedule, ps[0], compression, z, tail);
      var s := Stream(ps, compression, z) + rest;
      var after := AfterFrame(schedule, s).value;
      ReadsDeliverStream(after, ps[1..], compression, z, rest);
      DeliversAllStep(schedule, s, |ps|);
    }
  }

  lemma NothingToDeliver(schedule: seq<Outcome>, s: seq<Byte>)
    ensures DeliversAll(schedule, s, 0)
  {
  }

  lemma DeliversAllStep(schedule: seq<Outcome>, s: seq<Byte>, n: nat)
    requires n > 0 && Unframe(s).Got? && AfterFrame(schedule, s).Some?
    ensures DeliversAll(schedule, s, n) <==> DeliversAll(AfterFrame(schedule, s).value, Unframe(s).rest, n - 1)
  {
    hide AfterFrame, Unframe;
  }

  lemma FirstFrameLength(ps: seq<Packet>, compression: int, z: Zlib)
    requires AllFit(ps, compression, z) && ps != []
    ensures AllFit(ps[1..], compression, z) && Fits(ps[0], compression, z)
    ensures |Stream(ps, compression, z)| == |Frame(ps[0], compression, z)| + |Stream(ps[1..], compression, z)|
  {
    hide Frame, Fits;
  }

  lemma FrameArrives(schedule: seq<Outcome>, p: Packet, compression: int, z: Zlib, rest: seq<Byte>)
    requires Fits(p, compression, z)
    requires NeverWaits(schedule) && |schedule| >= |Frame(p, compression, z)|
    ensures var s := Frame(p, compression, z) + rest;
            Unframe(s).Got? && Unframe(s).rest == rest && AfterFrame(schedule, s).Some?
            && NeverWaits(AfterFrame(schedule, s).value)
            && |AfterFrame(schedule, s).value| >= |schedule| - |Frame(p, compression, z)|
  {
    hide Content, Encode, Unframe, AfterFrame, NeverWaits;
    ReadsDeliverFrame(schedule, Content(p, compression, z), rest);
  }

  // ------------------------------------------------------------------
  // Packets on a socket
  // ------------------------------------------------------------------

  method ParsePacket(dataArray: seq<Byte>, compression: int, z: Zlib) returns (result: Parsed)
    requires Parsable(dataArray, compression, z)
    ensures result == Parse(dataArray, compression, z) && result != Overread
  {
    hide Decode, ParseBody, ShortId, CopyInside;
    ParseInside(dataArray, compression, z);
    if compression <= NO_COMPRESSION {
      FullBuffer(dataArray);
      assert dataArray[0..] == dataArray;
      result := ParseId(dataArray, 0, |dataArray|);
    } else {
      result := ParseCompressed(dataArray, compression, z);
    }
  }

  /** The part of parsePacket before the id, with compression on. */
  method ParseCompressed(data: seq<Byte>, compression: int, z: Zlib) returns (result: Parsed)
    requires compression > NO_COMPRESSION && Parsable(data, compression, z)
    ensures result == Parse(data, compression, z)
  {
    hide Decode, ParseBody, ShortId, CopyInside, Inflated, Zlib.Inflate;
    assert data[0..] == data;
    var dataLength, index := ReadVarInt(data, 0);
    var compressedLen := |data| - index;
    if dataLength == 0 {
      FullBuffer(data[index..]);
      result := ParseId(data, index, compressedLen);
      return;
    }
    if dataLength < 0 {
      return Null; // the allocation of the buffer fails
    }
    var uncompressed := z.Inflate(data[index..], dataLength);
    if uncompressed == None {
      return Null;
    }
    var buffer := Inflated(uncompressed.value, dataLength);
    assert buffer[0..] == buffer;
    result := ParseId(buffer, 0, |uncompressed.value|);
  }

  /** The part of parsePacket from the id on, with a body of `size` bytes. */
  method ParseId(data: seq<Byte>, start: nat, size: nat) returns (result: Parsed)
    requires start + size <= |data| && CopyInside(data[start..], size)
    ensures result == ParseBody(data[start..], size)
  {
    hide Decode, CopyInside;
    ParseBodyInside(data[start..], size);
    BodyDecodes(data[start..], size);
    var packetId, index := ReadVarInt(data, start);
    if packetId > MAX_PACKET_ID {
      return Null;
    }
    var left := size - 1;
    result := Ok(Packet(packetId % 256, data[index..index + left]));
  }

  lemma BodyDecodes(b: seq<Byte>, size: nat)
    requires ParseBody(b, size) != Overread
    ensures Decode(b).Got?
    ensures Decode(b).value <= MAX_PACKET_ID ==> 0 < size <= |Decode(b).rest| + 1
  {
    hide Decode;
  }

  /** readPacket: None stands for the null packet. */
  method ReadPacket(sock: Socket, compression: int, z: Zlib) returns (r: Option<Packet>)
    requires !ReadGroups(sock.pending, MAX_VAR_INT).TooLong?
    requires Unframe(sock.pending).Got? ==> Parsable(Unframe(sock.pending).value, compression, z)
    modifies sock`pending, sock`schedule
    ensures r.Some? ==> Receive(old(sock.pending), compression, z) == Got(r.value, sock.pending)
    ensures Receive(old(sock.pending), compression, z).Got? ==>
              (r.Some? <==> Delivers(old(sock.schedule), old(sock.pending)))
    ensures r.Some? ==> AfterFrame(old(sock.schedule), old(sock.pending)) == Some(sock.schedule)
  {
    hide Parse, Unframe, AfterFrame, ReadGroups;
    var data := ReadSocket(sock);
    if data == None {
      return None;
    }
    var result := ParsePacket(data.value, compression, z);
    r := if result.Ok? then Some(result.packet) else None;
  }

  /** A receiver that reads n packets off a stream of such packets: under exactly the
      schedules that let n frames through it gets them all, and then they are the packets
      sent and nothing behind them is consumed. */
  method ReadPackets(sock: Socket, n: nat, compression: int, z: Zlib, ghost sent: seq<Packet>, ghost rest: seq<Byte>)
    returns (ok: bool, ps: seq<Packet>)
    requires z.Lawful() && |sent| == n && AllFit(sent, compression, z) && ShortIds(sent)
    requires sock.pending == Stream(sent, compression, z) + rest
    modifies sock`pending, sock`schedule
    ensures ok <==> DeliversAll(old(sock.schedule), old(sock.pending), n)
    ensures ok ==> ps == sent && sock.pending == rest
  {
    hide Stream, Frame, Fits, Unframe, Parse, AfterFrame, Zlib.Lawful;
    ps := [];
    assert sent[0..] == sent;
    for i := 0 to n
      invariant ps == sent[..i]
      invariant AllFit(sent[i..], compression, z) && sock.pending == Stream(sent[i..], compression, z) + rest
      invariant DeliversAll(old(sock.schedule), old(sock.pending), n)
                <==> DeliversAll(sock.schedule, sock.pending, n - i)
    {
      StreamStep(sent[i..], compression, z, rest);
      assert sent[i..][1..] == sent[i + 1..] && sent[i] == sent[i..][0];
      ReceiveRoundTrip(sent[i], compression, z, Stream(sent[i + 1..], compression, z) + rest);
      UnframedPrefix(sock.pending);
      ParseInside(Unframe(sock.pending).value, compression, z);
      var r := ReadPacket(sock, compression, z);
      if r == None {
        return false, ps;
      }
      ps := ps + [r.value];
    }
    EmptyStream(compression, z, rest);
    ok := true;
  }

  lemma UnframedPrefix(s: seq<Byte>)
    requires Unframe(s).Got?
    ensures !ReadGroups(s, MAX_VAR_INT).TooLong?
  {
  }

  /** sendPacket; no data stands for the NULL pointer, which goes with size 0. */
  method SendPacket(sock: Socket, size: nat, packetId: Byte, data: Option<seq<Byte>>, compression: int, z: Zlib)
    returns (res: int)
    requires size == if data.Some? then |data.value| else 0
    requires size < 0x7000_0000
    requires |Content(Packet(packetId, if data.Some? then data.value else []), compression, z)| < 0x7000_0000
    modifies sock`sent
    ensures sock.sent == old(sock.sent) + Frame(Packet(packetId, if data.Some? then data.value else []), compression, z)
    ensures res == if compression > NO_COMPRESSION then |sock.sent| - |old(sock.sent)|
                   else if data.Some? then size else |Encode(size + |Encode(packetId)|)| + 1
  {
    hide Encode, Body;
    if compression <= NO_COMPRESSION {
      res := SendPlain(sock, size, packetId, data);
    } else {
      res := SendCompressed(sock, packetId, if data.Some? then data.value else [], compression, z);
    }
  }

  /** The uncompressed branch of sendPacket: length, id and data go out in three writes. */
  method SendPlain(sock: Socket, size: nat, packetId: Byte, data: Option<seq<Byte>>) returns (res: int)
    requires size == if data.Some? then |data.value| else 0
    requires size < 0x7000_0000
    modifies sock`sent
    ensures |Body(Packet(packetId, if data.Some? then data.value else []))| < 0x8000_0000
    ensures var body := Body(Packet(packetId, if data.Some? then data.value else []));
            sock.sent == old(sock.sent) + (Encode(|body|) + body)
    ensures res == if data.Some? then size else |Encode(size + |Encode(packetId)|)| + 1
  {
    hide Encode, Splice;
    var p := VarIntBytes(packetId);
    var s := VarIntBytes(size + |p|);
    ghost var wire := sock.sent;
    var n := sock.Write(s);
    n := sock.Write(p);
    if data.Some? {
      res := sock.Write(data.value);
      Concat4(wire, Encode(size + |p|), Encode(packetId), data.value);
    } else {
      res := |s| + 1;
      Concat4(wire, Encode(size + |p|), Encode(packetId), []);
    }
  }

  lemma Concat4(a: seq<Byte>, b: seq<Byte>, c: seq<Byte>, d: seq<Byte>)
    ensures a + b + c + d == a + (b + (c + d))
    ensures d == [] ==> a + b + c == a + (b + (c + d))
  {
  }

  /** The compressed branch of sendPacket. */
  method SendCompressed(sock: Socket, packetId: Byte, data: seq<Byte>, compression: int, z: Zlib)
    returns (res: int)
    requires compression > NO_COMPRESSION && |data| < 0x7000_0000
    requires |Content(Packet(packetId, data), compression, z)| < 0x7000_0000
    modifies sock`sent
    ensures sock.sent == old(sock.sent) + Frame(Packet(packetId, data), compression, z)
    ensures res == |sock.sent| - |old(sock.sent)|
  {
    hide Encode, Body;
    var body := GatherBody(packetId, data);
    EncodeLength(0);
    if |body| > compression {
      EncodeLength(|body|);
      res := SendLengths(sock, |body|, z.compress(body));
    } else {
      res := SendLengths(sock, 0, body);
    }
  }

  method GatherBody(packetId: Byte, data: seq<Byte>) returns (body: seq<Byte>)
    requires |data| < 0x7000_0000
    ensures body == Body(Packet(packetId, data)) && 1 <= |body| < 0x8000_0000
  {
    hide Encode, Splice;
    EncodeLength(packetId);
    var dataToCompress := new Byte[MAX_VAR_INT + |data|];
    var offset := WriteVarInt(dataToCompress, 0, packetId);
    Memcpy(dataToCompress, offset, data);
    body := dataToCompress[..offset + |data|];
  }

  method SendLengths(sock: Socket, dataLength: Int32, payload: seq<Byte>) returns (res: int)
    requires |payload| + |Encode(dataLength)| < 0x7000_0000
    modifies sock`sent
    ensures sock.sent == old(sock.sent)
                         + (Encode(|Encode(dataLength) + payload|) + (Encode(dataLength) + payload))
    ensures res == |sock.sent| - |old(sock.sent)|
  {
    hide Encode, Splice;
    var destLen := |payload|;
    var packet, n := WriteLengths(dataLength, destLen);
    Memcpy(packet, n, payload);
    Associate3(Encode(destLen + |Encode(dataLength)|), Encode(dataLength), payload);
    res := sock.Write(packet[..n + destLen]);
  }

  /** Both lengths at the front of a buffer with room for the rest. */
  method WriteLengths(dataLength: Int32, destLen: nat) returns (packet: array<Byte>, n: nat)
    requires destLen + |Encode(dataLength)| < 0x7000_0000
    ensures fresh(packet) && n + destLen <= packet.Length
    ensures packet[..n] == Encode(destLen + |Encode(dataLength)|) + Encode(dataLength)
  {
    hide Encode, Splice;
    packet := new Byte[destLen + MAX_VAR_INT * 2];
    var l := VarIntBytes(dataLength);
    EncodeLength(destLen + |l|);
    n := WriteVarInt(packet, 0, destLen + |l|);
    Memcpy(packet, n, l);
    n := n + |l|;
  }

  /** A VarInt in a buffer of its own. */
  method VarIntBytes(v: Int32) returns (s: seq<Byte>)
    ensures s == Encode(v) && 1 <= |s| <= MAX_VAR_INT
  {
    hide Encode, Splice;
    EncodeLength(v);
    var buff := new Byte[MAX_VAR_INT];
    var n := WriteVarInt(buff, 0, v);
    s := buff[..n];
  }
}
