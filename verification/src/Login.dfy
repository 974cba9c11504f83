// A connection from handshake to play: what the server answers to each packet, and a
// peer that follows the change of layout the server announces in mid-stream.
module Login {
  import opened Words
  import opened Bytes
  import opened VarInt
  import opened Strings
  import opened Framing

  // states
  const NONE_STATE := 0
  const STATUS_STATE := 1
  const LOGIN_STATE := 2
  const PLAY_STATE := 3
  const CONFIG_STATE := 4

  // packets to the server
  const HANDSHAKE: Byte := 0x00
  const STATUS_REQUEST: Byte := 0x00
  const PING_REQUEST: Byte := 0x01
  const LOGIN_START: Byte := 0x00
  const LOGIN_ACKNOWLEDGED: Byte := 0x03
  const FINISH_CONFIGURATION_2: Byte := 0x02

  // packets to the client
  const STATUS_RESPONSE: Byte := 0x00
  const PING_RESPONSE: Byte := 0x01
  const LOGIN_SUCCESS: Byte := 0x02
  const SET_COMPRESSION: Byte := 0x03
  const FINISH_CONFIGURATION: Byte := 0x02
  const REGISTRY_DATA: Byte := 0x05
  const FEATURE_FLAGS: Byte := 0x08
  const UPDATE_TAGS: Byte := 0x09
  const FEATURE_FLAGS_PLAY: Byte := 0x6B

  const CLIENT_COMPRESSION: Int32 := 20
  const NO_CONFIG: Int32 := 763

  /** "minecraft:vanilla" */
  const VANILLA: seq<Byte> :=
    [109, 105, 110, 101, 99, 114, 97, 102, 116, 58, 118, 97, 110, 105, 108, 108, 97]

  /** What the rest of the server contributes to the answers. `play` is what a player
      created from the client goes on to send on the same connection. */
  datatype Context = Context(
    status: Int32 -> Text,
    offlineId: seq<Byte> -> seq<Byte>,
    codec: seq<Byte>,
    tags: seq<Byte>,
    play: seq<Packet>)

  datatype ClientState = ClientState(state: int, compression: int, protocol: Int32)

  const NEW_CLIENT := ClientState(NONE_STATE, NO_COMPRESSION, 0)

  datatype Sending = Sending(packet: Packet, compression: int)

  datatype Reply = Reply(client: ClientState, sent: seq<Sending>)

  // ------------------------------------------------------------------
  // The requests
  // ------------------------------------------------------------------

  datatype Shake = Shake(protocol: Int32, nextState: Int32)

  function ReadHandshake(data: seq<Byte>): Read<Shake>
  {
    var (protocol, s1) :- Decode(data);
    var (addressLength, s2) :- Decode(s1);
    if addressLength < 0 || addressLength + 2 > |s2| then Undefined
    else
      var (nextState, s3) :- Decode(s2[addressLength + 2..]);
      Got(Shake(protocol, nextState), s3)
  }

  const UUID_SIZE := 16

  datatype Start = Start(username: Text, uuid: seq<Byte>)

  /** The bytes of a C string up to its terminator. */
  function CString(s: seq<Byte>): (r: seq<Byte>)
    ensures |r| <= |s| && 0 !in r
  {
    if s == [] || s[0] == 0 then [] else [s[0]] + CString(s[1..])
  }

  function ReadStart(data: seq<Byte>): Read<Start>
  {
    var (username, rest) :- DecodeString(data);
    if |rest| < UUID_SIZE then Undefined
    else Got(Start(CString(username), rest[..UUID_SIZE]), rest[UUID_SIZE..])
  }

  lemma Concat5(a: seq<Byte>, b: seq<Byte>, c: seq<Byte>, d: seq<Byte>, e: seq<Byte>, f: seq<Byte>)
    ensures a + b + c + d + e + f == a + (b + (c + d + (e + f)))
  {
  }

  /** The handler takes the protocol and the next state from a handshake, past whatever
      address and port stand between them. */
  lemma HandshakeFields(protocol: Int32, address: Text, port: nat, nextState: Int32, rest: seq<Byte>)
    requires port < 0x1_0000
    ensures ReadHandshake(Encode(protocol) + Encode(|address|) + address + BigEndian(port, 2) + Encode(nextState)
                          + rest)
         == Got(Shake(protocol, nextState), rest)
  {
    hide Encode, Decode, BigEndian;
    var tail := address + BigEndian(port, 2) + (Encode(nextState) + rest);
    Concat5(Encode(protocol), Encode(|address|), address, BigEndian(port, 2), Encode(nextState), rest);
    RoundTrip(protocol, Encode(|address|) + tail);
    RoundTrip(|address|, tail);
    assert tail[|address| + 2..] == Encode(nextState) + rest;
    RoundTrip(nextState, rest);
  }

  lemma {:induction false} CStringWhole(s: seq<Byte>)
    requires 0 !in s
    ensures CString(s) == s
  {
    if s != [] {
      CStringWhole(s[1..]);
      assert [s[0]] + s[1..] == s;
    }
  }

  /** And the name and the id from the start of a login. */
  lemma StartFields(name: Text, uuid: seq<Byte>, rest: seq<Byte>)
    requires 0 !in name && |uuid| == 16
    ensures ReadStart(EncodeString(name) + uuid + rest) == Got(Start(name, uuid), rest)
  {
    hide EncodeString, DecodeString, CString;
    StringRoundTrip(name, uuid + rest);
    Associate3(EncodeString(name), uuid, rest);
    CStringWhole(name);
    assert (uuid + rest)[..16] == uuid && (uuid + rest)[16..] == rest;
  }

  /** The request has the fields the handler reads. */
  predicate Readable(c: ClientState, p: Packet)
  {
    if c.state == NONE_STATE then p.id == HANDSHAKE ==> ReadHandshake(p.data).Got?
    else if c.state == STATUS_STATE then p.id == PING_REQUEST ==> |p.data| >= 8
    else if c.state == LOGIN_STATE then
      p.id == LOGIN_START ==> ReadStart(p.data).Got?
    else true
  }

  // ------------------------------------------------------------------
  // The answers
  // ------------------------------------------------------------------

  function SendAll(ps: seq<Packet>, compression: int): (r: seq<Sending>)
    ensures |r| == |ps|
  {
    seq(|ps|, i requires 0 <= i < |ps| => Sending(ps[i], compression))
  }

  predicate AllZero(s: seq<Byte>)
  {
    forall i :: 0 <= i < |s| ==> s[i] == 0
  }

  /** An id of all zeros asks for the offline one. */
  function LoginId(start: Start, ctx: Context): seq<Byte>
  {
    if AllZero(start.uuid) then ctx.offlineId(start.username) else start.uuid
  }

  lemma LoginIdIs(start: Start, ctx: Context)
    ensures LoginId(start, ctx)
         == if forall i :: 0 <= i < |start.uuid| ==> start.uuid[i] == 0 then ctx.offlineId(start.username)
            else start.uuid
  {
  }

  function ConfigPackets(protocol: Int32, ctx: Context): seq<Packet>
  {
    [Packet(REGISTRY_DATA, ctx.codec), Packet(UPDATE_TAGS, ctx.tags),
     Packet(if protocol > NO_CONFIG then FEATURE_FLAGS else FEATURE_FLAGS_PLAY, Encode(1) + EncodeString(VANILLA)),
     Packet(FINISH_CONFIGURATION, [])]
  }

  function Handle(c: ClientState, p: Packet, ctx: Context): Reply
    requires Readable(c, p)
  {
    if c.state == NONE_STATE && p.id == HANDSHAKE then
      var shake := ReadHandshake(p.data).value;
      Reply(c.(protocol := shake.protocol, state := shake.nextState), [])
    else if c.state == STATUS_STATE && p.id == STATUS_REQUEST then
      Reply(c, [Sending(Packet(STATUS_RESPONSE, EncodeString(ctx.status(c.protocol))), c.compression)])
    else if c.state == STATUS_STATE && p.id == PING_REQUEST then
      Reply(c, [Sending(Packet(PING_RESPONSE, p.data[..8]), c.compression)])
    else if c.state == LOGIN_STATE && p.id == LOGIN_START then
      var start := ReadStart(p.data).value;
      var login := [Sending(Packet(SET_COMPRESSION, Encode(CLIENT_COMPRESSION)), c.compression),
                    Sending(Packet(LOGIN_SUCCESS, LoginId(start, ctx) + EncodeString(start.username) + Encode(0)),
                            CLIENT_COMPRESSION)];
      if c.protocol <= NO_CONFIG then
        Reply(c.(compression := CLIENT_COMPRESSION, state := PLAY_STATE), login + SendAll(ctx.play, CLIENT_COMPRESSION))
      else
        Reply(c.(compression := CLIENT_COMPRESSION), login)
    else if c.state == LOGIN_STATE && p.id == LOGIN_ACKNOWLEDGED then
      Reply(c.(state := CONFIG_STATE), SendAll(ConfigPackets(c.protocol, ctx), c.compression))
    else if c.state == CONFIG_STATE && p.id == FINISH_CONFIGURATION_2 then
      Reply(c.(state := PLAY_STATE), SendAll(ctx.play, c.compression))
    else
      Reply(c, [])
  }

  /** A client that shakes hands is in the state and has the protocol it asked for. */
  lemma HandshakeHandled(c: ClientState, protocol: Int32, address: Text, port: nat, nextState: Int32, rest: seq<Byte>,
                         ctx: Context)
    requires c.state == NONE_STATE && port < 0x1_0000
    ensures var p := Packet(HANDSHAKE, Encode(protocol) + Encode(|address|) + address + BigEndian(port, 2)
                                       + Encode(nextState) + rest);
            Readable(c, p) && Handle(c, p, ctx) == Reply(ClientState(nextState, c.compression, protocol), [])
  {
    hide Encode, ReadHandshake, BigEndian;
    HandshakeFields(protocol, address, port, nextState, rest);
  }

  /** A client that starts a login is told the layout in the old one, and then its id and
      its name in the new one; without an id of its own it gets the offline one. */
  lemma StartHandled(c: ClientState, name: Text, uuid: seq<Byte>, rest: seq<Byte>, ctx: Context)
    requires c.state == LOGIN_STATE && 0 !in name && |uuid| == 16
    ensures var p := Packet(LOGIN_START, EncodeString(name) + uuid + rest);
            var id := if forall i :: 0 <= i < 16 ==> uuid[i] == 0 then ctx.offlineId(name) else uuid;
            Readable(c, p) && |Handle(c, p, ctx).sent| >= 2
            && Handle(c, p, ctx).sent[0] == Sending(Packet(SET_COMPRESSION, Encode(20)), c.compression)
            && Handle(c, p, ctx).sent[1] == Sending(Packet(LOGIN_SUCCESS, id + EncodeString(name) + Encode(0)), 20)
  {
    hide Encode, EncodeString, ReadStart;
    StartFields(name, uuid, rest);
    LoginIdIs(Start(name, uuid), ctx);
  }

  // ------------------------------------------------------------------
  // The peer
  // ------------------------------------------------------------------

  /** The other end: the phase it is in, the layout it reads with, and its protocol. */
  datatype Peer = Peer(phase: int, compression: int, protocol: Int32)

  const NEW_PEER := Peer(NONE_STATE, NO_COMPRESSION, 0)

  /** Its own packets move it from phase to phase. */
  function PeerSends(peer: Peer, p: Packet): Peer
  {
    if peer.phase == NONE_STATE && p.id == HANDSHAKE && ReadHandshake(p.data).Got? then
      var shake := ReadHandshake(p.data).value;
      peer.(phase := shake.nextState, protocol := shake.protocol)
    else if peer.phase == LOGIN_STATE && p.id == LOGIN_ACKNOWLEDGED then peer.(phase := CONFIG_STATE)
    else if peer.phase == CONFIG_STATE && p.id == FINISH_CONFIGURATION_2 then peer.(phase := PLAY_STATE)
    else peer
  }

  /** It changes layout only after decoding SET_COMPRESSION while logging in. */
  function PeerReceives(peer: Peer, p: Packet): Peer
  {
    if peer.phase != LOGIN_STATE then peer
    else if p.id == SET_COMPRESSION && Decode(p.data).Got? then peer.(compression := Decode(p.data).value)
    else if p.id == LOGIN_SUCCESS && peer.protocol <= NO_CONFIG then peer.(phase := PLAY_STATE)
    else peer
  }

  datatype View = View(peer: Peer, packets: seq<Packet>)

  lemma ReceiveConsumes(s: seq<Byte>, compression: int, z: Zlib)
    ensures Receive(s, compression, z).Got? ==> |Receive(s, compression, z).rest| < |s|
  {
    hide Parse;
    if Unframe(s).Got? {
      ReadGroupsBound(s, MAX_VAR_INT);
    }
  }

  /** Decodes everything on the wire, each packet in the layout in force when it starts. */
  function PeerDecodes(peer: Peer, wire: seq<Byte>, z: Zlib): Option<View>
    decreases |wire|
  {
    if wire == [] then Some(View(peer, []))
    else
      var r := Receive(wire, peer.compression, z);
      if r.Undefined? then None
      else
        ReceiveConsumes(wire, peer.compression, z);
        match PeerDecodes(PeerReceives(peer, r.value), r.rest, z)
        case None => None
        case Some(v) => Some(View(v.peer, [r.value] + v.packets))
  }

  // ------------------------------------------------------------------
  // Staying in step
  // ------------------------------------------------------------------

  predicate Deliverable(s: Sending, z: Zlib)
  {
    s.packet.id <= 127 && |s.packet.data| < 0x7000_0000 && Fits(s.packet, s.compression, z)
  }

  predicate AllDeliverable(sent: seq<Sending>, z: Zlib)
  {
    forall i :: 0 <= i < |sent| ==> Deliverable(sent[i], z)
  }

  function Wire(sent: seq<Sending>, z: Zlib): seq<Byte>
    requires AllDeliverable(sent, z)
  {
    if sent == [] then [] else Frame(sent[0].packet, sent[0].compression, z) + Wire(sent[1..], z)
  }

  function Packets(sent: seq<Sending>): (r: seq<Packet>)
    ensures |r| == |sent|
  {
    seq(|sent|, i requires 0 <= i < |sent| => sent[i].packet)
  }

  /** The peer after it has seen the packets, provided it reads each in the layout it
      was sent in. */
  function Followed(peer: Peer, sent: seq<Sending>): Option<Peer>
    decreases sent
  {
    if sent == [] then Some(peer)
    else if sent[0].compression != peer.compression then None
    else Followed(PeerReceives(peer, sent[0].packet), sent[1..])
  }

  lemma {:induction false} FollowedDecodes(peer: Peer, sent: seq<Sending>, z: Zlib)
    requires z.Lawful() && AllDeliverable(sent, z) && Followed(peer, sent).Some?
    ensures PeerDecodes(peer, Wire(sent, z), z) == Some(View(Followed(peer, sent).value, Packets(sent)))
    decreases sent
  {
    hide Receive, Frame, Fits, PeerReceives, Wire, AllDeliverable, Zlib.Lawful;
    if sent == [] {
      WireOfNone(z);
      assert Packets(sent) == [];
    } else {
      WireStep(sent, z);
      OneDeliverable(sent, z);
      NothingInFlight(sent, z);
      var first, tail := sent[0], Wire(sent[1..], z);
      ReceiveRoundTrip(first.packet, first.compression, z, tail);
      ReceiveConsumes(Wire(sent, z), first.compression, z);
      FollowedDecodes(PeerReceives(peer, first.packet), sent[1..], z);
      assert Packets(sent) == [first.packet] + Packets(sent[1..]);
    }
  }

  /** Outside the login phase the layout stays. */
  lemma {:induction false} FollowsOutsideLogin(peer: Peer, ps: seq<Packet>)
    requires peer.phase != LOGIN_STATE
    ensures Followed(peer, SendAll(ps, peer.compression)) == Some(peer)
  {
    if ps != [] {
      FollowsOutsideLogin(peer, ps[1..]);
      assert SendAll(ps, peer.compression)[1..] == SendAll(ps[1..], peer.compression);
    }
  }

  predicate InStep(c: ClientState, peer: Peer)
  {
    peer.phase == c.state && peer.compression == c.compression && peer.protocol == c.protocol
  }

  /** One exchange: the peer reads every answer in the layout it was sent in, and both
      ends agree again afterwards. */
  lemma ExchangeFollowed(c: ClientState, peer: Peer, p: Packet, ctx: Context)
    requires InStep(c, peer) && Readable(c, p)
    ensures var r := Handle(c, p, ctx);
            Followed(PeerSends(peer, p), r.sent).Some?
            && InStep(r.client, Followed(PeerSends(peer, p), r.sent).value)
  {
    hide ReadHandshake, ReadStart, Encode, Decode, LoginId, EncodeString, ConfigPackets;
    var r, asked := Handle(c, p, ctx), PeerSends(peer, p);
    if c.state == LOGIN_STATE && p.id == LOGIN_START {
      LoginFollowed(peer, r.sent, ctx);
    } else if c.state == LOGIN_STATE && p.id == LOGIN_ACKNOWLEDGED {
      FollowsOutsideLogin(asked, ConfigPackets(c.protocol, ctx));
    } else if c.state == CONFIG_STATE && p.id == FINISH_CONFIGURATION_2 {
      FollowsOutsideLogin(asked, ctx.play);
    }
  }

  lemma LoginFollowed(peer: Peer, sent: seq<Sending>, ctx: Context)
    requires peer.phase == LOGIN_STATE && |sent| >= 2
    requires sent[0] == Sending(Packet(SET_COMPRESSION, Encode(CLIENT_COMPRESSION)), peer.compression)
    requires sent[1].packet.id == LOGIN_SUCCESS && sent[1].compression == CLIENT_COMPRESSION
    requires sent[2..] == if peer.protocol <= NO_CONFIG then SendAll(ctx.play, CLIENT_COMPRESSION) else []
    ensures Followed(peer, sent)
         == Some(peer.(compression := CLIENT_COMPRESSION,
                       phase := if peer.protocol <= NO_CONFIG then PLAY_STATE else LOGIN_STATE))
  {
    hide Encode, Decode;
    RoundTrip(CLIENT_COMPRESSION, []);
    assert Encode(CLIENT_COMPRESSION) + [] == Encode(CLIENT_COMPRESSION);
    var switched := peer.(compression := CLIENT_COMPRESSION);
    assert PeerReceives(peer, sent[0].packet) == switched;
    var after := PeerReceives(switched, sent[1].packet);
    assert sent[1..][1..] == sent[2..];
    assert Followed(peer, sent) == Followed(switched, sent[1..]) == Followed(after, sent[2..]);
    if peer.protocol <= NO_CONFIG {
      FollowsOutsideLogin(after, ctx.play);
    }
  }

  lemma NothingInFlight(flight: seq<Sending>, z: Zlib)
    requires AllDeliverable(flight, z)
    ensures Wire(flight, z) == [] <==> flight == []
  {
    hide Content, Fits;
    if flight != [] {
      assert Deliverable(flight[0], z);
      FrameNotEmpty(flight[0].packet, flight[0].compression, z);
    }
  }

  lemma FrameNotEmpty(p: Packet, compression: int, z: Zlib)
    requires Fits(p, compression, z)
    ensures Frame(p, compression, z) != []
  {
    EncodeLength(|Content(p, compression, z)|);
  }

  lemma NothingToFollow(peer: Peer)
    ensures Followed(peer, []) == Some(peer)
  {
  }

  lemma OneDeliverable(sent: seq<Sending>, z: Zlib)
    requires sent != [] && AllDeliverable(sent, z)
    ensures sent[0].packet.id <= 127
  {
    hide Fits;
    assert Deliverable(sent[0], z);
  }

  // ------------------------------------------------------------------
  // The handler
  // ------------------------------------------------------------------

  class Client {
    var state: int
    var compression: int
    var protocol: Int32
    var username: Text
    var uuid: seq<Byte>
    const sock: Socket

    constructor (sock: Socket)
      ensures this.sock == sock && View() == NEW_CLIENT
    {
      state, compression, protocol := NONE_STATE, NO_COMPRESSION, 0;
      username, uuid := [], [];
      this.sock := sock;
    }

    function View(): ClientState
      reads this
    {
      ClientState(state, compression, protocol)
    }

    method Send(data: Option<seq<Byte>>, packetId: Byte, z: Zlib)
      requires Deliverable(Sending(Packet(packetId, if data.Some? then data.value else []), compression), z)
      modifies sock`sent
      ensures sock.sent == old(sock.sent) + Wire([Sending(Packet(packetId, if data.Some? then data.value else []),
                                                          compression)], z)
    {
      hide Frame, Content;
      ghost var packet := Packet(packetId, if data.Some? then data.value else []);
      WireOfOne(Sending(packet, compression), z);
      var res := SendPacket(sock, if data.Some? then |data.value| else 0, packetId, data, compression, z);
    }

    method SendPackets(ps: seq<Packet>, z: Zlib)
      requires AllDeliverable(SendAll(ps, compression), z)
      modifies sock`sent
      ensures sock.sent == old(sock.sent) + Wire(SendAll(ps, compression), z)
    {
      hide Frame, Wire, Deliverable;
      ghost var sent := SendAll(ps, compression);
      WireOfNone(z);
      for i := 0 to |ps|
        invariant sock.sent == old(sock.sent) + Wire(sent[..i], z)
      {
        assert Deliverable(sent[i], z);
        Send(Some(ps[i].data), ps[i].id, z);
        WireAppend(sent[..i], [sent[i]], z);
        assert sent[..i] + [sent[i]] == sent[..i + 1];
      }
      assert sent[..|ps|] == sent;
    }

    /** Does what Handle says: the fields become those of the reply, and the reply's
        packets go out, each in the layout in force when it is sent. */
    method HandlePacket(p: Packet, ctx: Context, z: Zlib)
      requires Readable(View(), p)
      requires AllDeliverable(Handle(View(), p, ctx).sent, z)
      modifies this, sock`sent
      ensures View() == Handle(old(View()), p, ctx).client
      ensures sock.sent == old(sock.sent) + Wire(Handle(old(View()), p, ctx).sent, z)
      ensures if old(state) == LOGIN_STATE && p.id == LOGIN_START then
                username == ReadStart(p.data).value.username && uuid == LoginId(ReadStart(p.data).value, ctx)
              else username == old(username) && uuid == old(uuid)
    {
      hide Wire, Deliverable, ReadHandshake, ReadStart, Encode, EncodeString, LoginId;
      WireOfNone(z);
      if state == NONE_STATE {
        if p.id != HANDSHAKE {
          return;
        }
        var shake := ReadHandshake(p.data).value;
        protocol := shake.protocol;
        state := shake.nextState;
      } else if state == STATUS_STATE {
        if p.id == STATUS_REQUEST {
          assert Deliverable(Handle(View(), p, ctx).sent[0], z);
          Send(Some(EncodeString(ctx.status(protocol))), STATUS_RESPONSE, z);
        } else if p.id == PING_REQUEST {
          assert Deliverable(Handle(View(), p, ctx).sent[0], z);
          Send(Some(p.data[..8]), PING_RESPONSE, z);
        }
      } else if state == LOGIN_STATE {
        if p.id == LOGIN_START {
          HandleLoginStart(p, ctx, z);
        } else if p.id == LOGIN_ACKNOWLEDGED {
          state := CONFIG_STATE;
          SendConfig(ctx, z);
        }
      } else if state == CONFIG_STATE {
        if p.id == FINISH_CONFIGURATION_2 {
          state := PLAY_STATE;
          SendPackets(ctx.play, z);
        }
      }
    }

    /** The registry codec, the tags, the feature flags, and the end of it. */
    method SendConfig(ctx: Context, z: Zlib)
      requires AllDeliverable(SendAll(ConfigPackets(protocol, ctx), compression), z)
      modifies sock`sent
      ensures sock.sent == old(sock.sent) + Wire(SendAll(ConfigPackets(protocol, ctx), compression), z)
    {
      hide Wire, Deliverable, Encode, EncodeString;
      ghost var sent := SendAll(ConfigPackets(protocol, ctx), compression);
      assert Deliverable(sent[0], z) && Deliverable(sent[1], z) && Deliverable(sent[2], z) && Deliverable(sent[3], z);
      Send(Some(ctx.codec), REGISTRY_DATA, z);
      Send(Some(ctx.tags), UPDATE_TAGS, z);
      WireAppend([sent[0]], [sent[1]], z);
      var flags := Encode(1) + EncodeString(VANILLA);
      if protocol > NO_CONFIG {
        Send(Some(flags), FEATURE_FLAGS, z);
      } else {
        Send(Some(flags), FEATURE_FLAGS_PLAY, z);
      }
      WireAppend([sent[0]] + [sent[1]], [sent[2]], z);
      Send(None, FINISH_CONFIGURATION, z);
      WireAppend([sent[0]] + [sent[1]] + [sent[2]], [sent[3]], z);
      assert [sent[0]] + [sent[1]] + [sent[2]] + [sent[3]] == sent;
    }

    method HandleLoginStart(p: Packet, ctx: Context, z: Zlib)
      requires state == LOGIN_STATE && p.id == LOGIN_START && Readable(View(), p)
      requires AllDeliverable(Handle(View(), p, ctx).sent, z)
      modifies this, sock`sent
      ensures View() == Handle(old(View()), p, ctx).client
      ensures sock.sent == old(sock.sent) + Wire(Handle(old(View()), p, ctx).sent, z)
      ensures username == ReadStart(p.data).value.username && uuid == LoginId(ReadStart(p.data).value, ctx)
    {
      hide Wire, Deliverable, ReadStart, Encode, EncodeString, LoginId;
      ghost var sent := Handle(View(), p, ctx).sent;
      ghost var wire := sock.sent;
      assert Deliverable(sent[0], z) && Deliverable(sent[1], z);
      Send(Some(Encode(CLIENT_COMPRESSION)), SET_COMPRESSION, z);
      compression := CLIENT_COMPRESSION;
      var start := ReadStart(p.data).value;
      username := start.username;
      uuid := start.uuid;
      if AllZero(uuid) {
        uuid := ctx.offlineId(username);
      }
      LoginIdIs(start, ctx);
      Send(Some(uuid + EncodeString(username) + Encode(0)), LOGIN_SUCCESS, z);
      WireAppend([sent[0]], [sent[1]], z);
      assert [sent[0]] + [sent[1]] == sent[..2];
      if protocol <= NO_CONFIG {
        state := PLAY_STATE;
        assert sent[2..] == SendAll(ctx.play, compression);
        SendPackets(ctx.play, z);
        WireAppend(sent[..2], sent[2..], z);
        assert sent[..2] + sent[2..] == sent;
      } else {
        assert sent[..2] == sent;
      }
    }
  }

  lemma WireOfNone(z: Zlib)
    ensures AllDeliverable([], z) && Wire([], z) == []
  {
  }

  lemma WireOfOne(s: Sending, z: Zlib)
    requires Deliverable(s, z)
    ensures AllDeliverable([s], z) && Wire([s], z) == Frame(s.packet, s.compression, z)
  {
    hide Frame;
    assert [s][1..] == [];
  }

  lemma {:induction false} WireAppend(a: seq<Sending>, b: seq<Sending>, z: Zlib)
    requires AllDeliverable(a, z) && AllDeliverable(b, z)
    ensures AllDeliverable(a + b, z) && Wire(a + b, z) == Wire(a, z) + Wire(b, z)
  {
    hide Frame, Wire, Deliverable;
    if a == [] {
      WireOfNone(z);
      assert [] + b == b && [] + Wire(b, z) == Wire(b, z);
    } else {
      WireAppend(a[1..], b, z);
      assert (a + b)[1..] == a[1..] + b && (a + b)[0] == a[0];
      WireStep(a, z);
      WireStep(a + b, z);
      Associate3(Frame(a[0].packet, a[0].compression, z), Wire(a[1..], z), Wire(b, z));
    }
  }

  lemma WireStep(sent: seq<Sending>, z: Zlib)
    requires sent != [] && AllDeliverable(sent, z)
    ensures Fits(sent[0].packet, sent[0].compression, z) && AllDeliverable(sent[1..], z)
    ensures Wire(sent, z) == Frame(sent[0].packet, sent[0].compression, z) + Wire(sent[1..], z)
  {
    hide Frame;
  }
}
