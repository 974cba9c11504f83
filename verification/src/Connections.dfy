// A connection over time: a byte stream in each direction, requests and answers under
// way on them, and both ends staying in step whatever the order of events.
module Connections {
  import opened Words
  import opened Bytes
  import opened VarInt
  import opened Strings
  import opened Framing
  import opened Login

  // ------------------------------------------------------------------
  // Runs
  // ------------------------------------------------------------------

  /** Every request of the run can be read and every answer fits a frame. */
  predicate GoodRun(c: ClientState, ps: seq<Packet>, ctx: Context, z: Zlib)
    decreases ps
  {
    ps == []
    || (Readable(c, ps[0]) && AllDeliverable(Handle(c, ps[0], ctx).sent, z)
        && GoodRun(Handle(c, ps[0], ctx).client, ps[1..], ctx, z))
  }

  function RunServer(c: ClientState, ps: seq<Packet>, ctx: Context, z: Zlib): Reply
    requires GoodRun(c, ps, ctx, z)
    decreases ps
  {
    if ps == [] then Reply(c, [])
    else
      var first := Handle(c, ps[0], ctx);
      var others := RunServer(first.client, ps[1..], ctx, z);
      Reply(others.client, first.sent + others.sent)
  }

  lemma {:induction false} RunServerAppend(c: ClientState, ps: seq<Packet>, p: Packet, ctx: Context, z: Zlib)
    requires GoodRun(c, ps + [p], ctx, z)
    ensures GoodRun(c, ps, ctx, z)
    ensures var before := RunServer(c, ps, ctx, z);
            Readable(before.client, p) && AllDeliverable(Handle(before.client, p, ctx).sent, z)
            && RunServer(c, ps + [p], ctx, z)
               == Reply(Handle(before.client, p, ctx).client, before.sent + Handle(before.client, p, ctx).sent)
    decreases ps
  {
    hide Handle, AllDeliverable, Readable;
    assert (ps + [p])[0] == if ps == [] then p else ps[0];
    if ps == [] {
      assert (ps + [p])[1..] == [];
    } else {
      assert (ps + [p])[1..] == ps[1..] + [p];
      RunServerAppend(Handle(c, ps[0], ctx).client, ps[1..], p, ctx, z);
    }
  }

  lemma {:induction false} FollowedAppend(peer: Peer, a: seq<Sending>, b: seq<Sending>)
    ensures Followed(peer, a + b) ==
              match Followed(peer, a)
              case None => None
              case Some(q) => Followed(q, b)
    decreases a
  {
    hide PeerReceives;
    if a == [] {
      assert a + b == b;
    } else {
      assert (a + b)[0] == a[0] && (a + b)[1..] == a[1..] + b;
      FollowedAppend(PeerReceives(peer, a[0].packet), a[1..], b);
    }
  }

  /** A request that moves the peer nowhere still moves it nowhere once it has read more. */
  lemma {:induction false} StaysAfterReading(peer: Peer, p: Packet, sent: seq<Sending>)
    requires PeerSends(peer, p) == peer && Followed(peer, sent).Some?
    ensures PeerSends(Followed(peer, sent).value, p) == Followed(peer, sent).value
    decreases sent
  {
    hide ReadHandshake, Decode;
    if sent != [] {
      StaysAfterReading(PeerReceives(peer, sent[0].packet), p, sent[1..]);
    }
  }

  // ------------------------------------------------------------------
  // One direction
  // ------------------------------------------------------------------

  /** A byte stream: what is on it, and the packets put on it and taken off it so far. */
  datatype Way = Way(wire: seq<Byte>, put: seq<Packet>, taken: seq<Packet>)

  const EMPTY_WAY := Way([], [], [])

  function Put(w: Way, sent: seq<Sending>, z: Zlib): Way
    requires AllDeliverable(sent, z)
  {
    w.(wire := w.wire + Wire(sent, z), put := w.put + Packets(sent))
  }

  /** The reader takes one packet off, or cannot make sense of the stream. */
  function Take(w: Way, compression: int, z: Zlib): Option<(Packet, Way)>
  {
    match Receive(w.wire, compression, z)
    case Undefined => None
    case Got(p, rest) => Some((p, w.(wire := rest, taken := w.taken + [p])))
  }

  /** What is under way. */
  function Underway(w: Way): seq<Packet>
  {
    if |w.taken| <= |w.put| then w.put[|w.taken|..] else []
  }

  /** The stream carries exactly these. */
  ghost predicate Carries(w: Way, flight: seq<Sending>, z: Zlib)
  {
    AllDeliverable(flight, z) && w.wire == Wire(flight, z) && w.put == w.taken + Packets(flight)
  }

  lemma CarriesUnderway(w: Way, flight: seq<Sending>, z: Zlib)
    requires Carries(w, flight, z)
    ensures Underway(w) == Packets(flight)
    ensures w.wire == [] <==> flight == []
  {
    hide Wire;
    NothingInFlight(flight, z);
  }

  lemma PutKeeps(w: Way, flight: seq<Sending>, sent: seq<Sending>, z: Zlib)
    requires Carries(w, flight, z) && AllDeliverable(sent, z)
    ensures Carries(Put(w, sent, z), flight + sent, z)
  {
    hide Wire, AllDeliverable;
    WireAppend(flight, sent, z);
    assert Packets(flight + sent) == Packets(flight) + Packets(sent);
    assert w.taken + (Packets(flight) + Packets(sent)) == w.taken + Packets(flight) + Packets(sent);
  }

  /** A packet read in the layout it was sent in is the packet sent. */
  lemma TakeKeeps(w: Way, s: Sending, others: seq<Sending>, z: Zlib)
    requires z.Lawful() && Carries(w, [s] + others, z)
    ensures Take(w, s.compression, z).Some?
    ensures Take(w, s.compression, z).value.0 == s.packet
    ensures Carries(Take(w, s.compression, z).value.1, others, z)
  {
    hide Frame, Fits, Receive, Wire, AllDeliverable, Zlib.Lawful;
    var flight := [s] + others;
    assert flight[1..] == others;
    WireStep(flight, z);
    OneDeliverable(flight, z);
    ReceiveRoundTrip(s.packet, s.compression, z, Wire(others, z));
    assert Packets(flight) == [s.packet] + Packets(others);
    assert w.taken + ([s.packet] + Packets(others)) == w.taken + [s.packet] + Packets(others);
  }

  // ------------------------------------------------------------------
  // Both directions
  // ------------------------------------------------------------------

  datatype Link = Link(client: ClientState, peer: Peer, up: Way, down: Way)

  const NEW_LINK := Link(NEW_CLIENT, NEW_PEER, EMPTY_WAY, EMPTY_WAY)

  /** The peer sends a request, the server reads and handles one, or the peer reads an
      answer, in any order. */
  datatype Event = Ask(p: Packet) | Answer | ReadOne

  /** The state the server will be in once it has handled what is under way to it, and
      what it will have sent. */
  function Later(l: Link, ctx: Context, z: Zlib): Reply
    requires GoodRun(l.client, Underway(l.up), ctx, z)
  {
    RunServer(l.client, Underway(l.up), ctx, z)
  }

  /** No answer on the wire, and none to come for the requests under way. */
  predicate Idle(l: Link, ctx: Context, z: Zlib)
    requires GoodRun(l.client, Underway(l.up), ctx, z)
  {
    l.down.wire == [] && Later(l, ctx, z).sent == []
  }

  /** The layout the peer reads and writes in is the one the server will read in by then. */
  predicate KnowsLayout(l: Link, ctx: Context, z: Zlib)
    requires GoodRun(l.client, Underway(l.up), ctx, z)
  {
    l.peer.compression == Later(l, ctx, z).client.compression
  }

  /** A peer may ask without waiting for answers as long as it knows the layout; before a
      request that moves it to another phase it waits until the link is idle. */
  predicate Allowed(l: Link, e: Event, ctx: Context, z: Zlib)
    requires GoodRun(l.client, Underway(l.up), ctx, z)
  {
    match e
    case Ask(p) =>
      GoodRun(l.client, Underway(l.up) + [p], ctx, z)
      && Deliverable(Sending(p, l.peer.compression), z)
      && (Idle(l, ctx, z) || (KnowsLayout(l, ctx, z) && PeerSends(l.peer, p) == l.peer))
    case Answer => l.up.wire != []
    case ReadOne => l.down.wire != []
  }

  /** None when one end cannot make sense of what it reads. */
  function Happens(l: Link, e: Event, ctx: Context, z: Zlib): Option<Link>
    requires GoodRun(l.client, Underway(l.up), ctx, z) && Allowed(l, e, ctx, z)
  {
    match e
    case Ask(p) =>
      OnlyOne(Sending(p, l.peer.compression), z);
      Some(l.(up := Put(l.up, [Sending(p, l.peer.compression)], z), peer := PeerSends(l.peer, p)))
    case Answer => ServerTakes(l, ctx, z)
    case ReadOne =>
      match Take(l.down, l.peer.compression, z)
      case None => None
      case Some((p, down)) => Some(l.(down := down, peer := PeerReceives(l.peer, p)))
  }

  /** The server reads in its own layout. */
  function ServerTakes(l: Link, ctx: Context, z: Zlib): Option<Link>
  {
    match Take(l.up, l.client.compression, z)
    case None => None
    case Some((p, up)) =>
      if !Readable(l.client, p) then None
      else
        var r := Handle(l.client, p, ctx);
        if !AllDeliverable(r.sent, z) then None
        else Some(l.(client := r.client, up := up, down := Put(l.down, r.sent, z)))
  }

  lemma OnlyOne(s: Sending, z: Zlib)
    ensures AllDeliverable([s], z) <==> Deliverable(s, z)
  {
    hide Deliverable;
    assert [s][0] == s;
  }

  /** Every event is allowed when it happens. */
  predicate AllowedRun(l: Link, es: seq<Event>, ctx: Context, z: Zlib)
    decreases es
  {
    GoodRun(l.client, Underway(l.up), ctx, z)
    && (es == []
        || (Allowed(l, es[0], ctx, z)
            && match Happens(l, es[0], ctx, z)
               case None => true
               case Some(next) => AllowedRun(next, es[1..], ctx, z)))
  }

  function RunLink(l: Link, es: seq<Event>, ctx: Context, z: Zlib): Option<Link>
    requires AllowedRun(l, es, ctx, z)
    decreases es
  {
    if es == [] then Some(l)
    else
      match Happens(l, es[0], ctx, z)
      case None => None
      case Some(next) => RunLink(next, es[1..], ctx, z)
  }

  // ------------------------------------------------------------------
  // The invariant
  // ------------------------------------------------------------------

  /** The server reads every request in the layout it was sent in. */
  predicate ReadAsSent(c: ClientState, requests: seq<Sending>, ctx: Context)
    decreases requests
  {
    requests == []
    || (requests[0].compression == c.compression && Readable(c, requests[0].packet)
        && ReadAsSent(Handle(c, requests[0].packet, ctx).client, requests[1..], ctx))
  }

  /** The peer can follow the answers in flight and all that are still to come, and then
      both ends agree. */
  predicate CanFollow(c: ClientState, peer: Peer, todo: seq<Packet>, flight: seq<Sending>, ctx: Context, z: Zlib)
    requires GoodRun(c, todo, ctx, z)
  {
    var later := RunServer(c, todo, ctx, z);
    Followed(peer, flight + later.sent).Some?
    && InStep(later.client, Followed(peer, flight + later.sent).value)
  }

  /** Once anything was sent compressed, the server stays with that layout. */
  predicate Switched(c: ClientState, flight: seq<Sending>)
  {
    (exists i :: 0 <= i < |flight| && flight[i].compression == CLIENT_COMPRESSION)
    ==> c.compression == CLIENT_COMPRESSION
  }

  ghost predicate CoherentWith(l: Link, requests: seq<Sending>, flight: seq<Sending>, ctx: Context, z: Zlib)
  {
    Carries(l.up, requests, z) && Carries(l.down, flight, z)
    && GoodRun(l.client, Packets(requests), ctx, z)
    && ReadAsSent(l.client, requests, ctx)
    && Switched(l.client, flight)
    && CanFollow(l.client, l.peer, Packets(requests), flight, ctx, z)
  }

  ghost predicate Coherent(l: Link, ctx: Context, z: Zlib)
  {
    exists requests, flight :: CoherentWith(l, requests, flight, ctx, z)
  }

  // ------------------------------------------------------------------
  // What a peer knows of the layout
  // ------------------------------------------------------------------

  lemma NothingToFollow(peer: Peer)
    ensures Followed(peer, []) == Some(peer)
  {
  }

  /** Waiting is enough: on an idle link the peer knows the layout. */
  lemma IdleKnowsLayout(l: Link, ctx: Context, z: Zlib)
    requires Coherent(l, ctx, z)
    ensures GoodRun(l.client, Underway(l.up), ctx, z)
    ensures Idle(l, ctx, z) ==> KnowsLayout(l, ctx, z)
  {
    hide GoodRun, RunServer, Followed, Carries, ReadAsSent, Switched;
    var requests, flight :| CoherentWith(l, requests, flight, ctx, z);
    CarriesUnderway(l.up, requests, z);
    CarriesUnderway(l.down, flight, z);
    if Idle(l, ctx, z) {
      assert flight + Later(l, ctx, z).sent == [];
      NothingToFollow(l.peer);
    }
  }

  lemma HandleSwitches(c: ClientState, p: Packet, ctx: Context)
    requires Readable(c, p)
    ensures var r := Handle(c, p, ctx);
            (c.compression == CLIENT_COMPRESSION ==> r.client.compression == CLIENT_COMPRESSION)
            && Switched(r.client, r.sent)
  {
    hide ReadHandshake, ReadStart, LoginId, ConfigPackets, Encode, EncodeString;
  }

  lemma {:induction false} RunSwitches(c: ClientState, ps: seq<Packet>, ctx: Context, z: Zlib)
    requires GoodRun(c, ps, ctx, z)
    ensures var r := RunServer(c, ps, ctx, z);
            (c.compression == CLIENT_COMPRESSION ==> r.client.compression == CLIENT_COMPRESSION)
            && Switched(r.client, r.sent)
    decreases ps
  {
    hide Handle, Readable, AllDeliverable;
    if ps != [] {
      HandleSwitches(c, ps[0], ctx);
      RunSwitches(Handle(c, ps[0], ctx).client, ps[1..], ctx, z);
    }
  }

  /** And so is having read SET_COMPRESSION: a peer that reads the compressed layout
      knows it for good. */
  lemma SwitchedKnowsLayout(l: Link, ctx: Context, z: Zlib)
    requires Coherent(l, ctx, z) && l.peer.compression == CLIENT_COMPRESSION
    ensures GoodRun(l.client, Underway(l.up), ctx, z)
    ensures KnowsLayout(l, ctx, z)
  {
    hide GoodRun, RunServer, Carries, ReadAsSent;
    var requests, flight :| CoherentWith(l, requests, flight, ctx, z);
    CarriesUnderway(l.up, requests, z);
    RunSwitches(l.client, Underway(l.up), ctx, z);
    var later := Later(l, ctx, z);
    var pending := flight + later.sent;
    if pending != [] {
      assert pending[0].compression == CLIENT_COMPRESSION;
      assert pending[0] == if flight != [] then flight[0] else later.sent[0];
    }
  }

  // ------------------------------------------------------------------
  // Every event keeps the invariant
  // ------------------------------------------------------------------

  lemma {:induction false} ReadAsSentAppend(c: ClientState, requests: seq<Sending>, s: Sending, ctx: Context, z: Zlib)
    requires GoodRun(c, Packets(requests) + [s.packet], ctx, z)
    requires GoodRun(c, Packets(requests), ctx, z) && ReadAsSent(c, requests, ctx)
    requires s.compression == RunServer(c, Packets(requests), ctx, z).client.compression
    ensures Packets(requests + [s]) == Packets(requests) + [s.packet]
    ensures ReadAsSent(c, requests + [s], ctx)
    decreases requests
  {
    hide Handle, AllDeliverable, Readable;
    assert Packets(requests + [s]) == Packets(requests) + [s.packet];
    if requests == [] {
      assert (requests + [s])[1..] == [] && (requests + [s])[0] == s;
    } else {
      var next := Handle(c, requests[0].packet, ctx).client;
      assert Packets(requests)[0] == requests[0].packet && Packets(requests)[1..] == Packets(requests[1..]);
      assert (Packets(requests) + [s.packet])[1..] == Packets(requests[1..]) + [s.packet];
      ReadAsSentAppend(next, requests[1..], s, ctx, z);
      assert (requests + [s])[1..] == requests[1..] + [s] && (requests + [s])[0] == requests[0];
    }
  }

  /** Asking moves the end of what the peer has to follow, and it can follow that, too. */
  lemma AskFollows(c: ClientState, peer: Peer, todo: seq<Packet>, flight: seq<Sending>, p: Packet, ctx: Context,
                   z: Zlib)
    requires GoodRun(c, todo, ctx, z) && CanFollow(c, peer, todo, flight, ctx, z)
    requires GoodRun(c, todo + [p], ctx, z)
    requires PeerSends(peer, p) == peer || flight + RunServer(c, todo, ctx, z).sent == []
    ensures CanFollow(c, PeerSends(peer, p), todo + [p], flight, ctx, z)
  {
    hide Handle, Followed, AllDeliverable, Readable, PeerSends, GoodRun, RunServer, InStep;
    var later := RunServer(c, todo, ctx, z);
    var pending := flight + later.sent;
    var q := Followed(peer, pending).value;
    RunServerAppend(c, todo, p, ctx, z);
    ExchangeFollowed(later.client, q, p, ctx);
    var answer := Handle(later.client, p, ctx).sent;
    assert Followed(PeerSends(peer, p), pending) == Some(PeerSends(q, p)) by {
      if PeerSends(peer, p) == peer {
        StaysAfterReading(peer, p, pending);
      } else {
        NothingToFollow(peer);
        NothingToFollow(PeerSends(peer, p));
      }
    }
    FollowedAppend(PeerSends(peer, p), pending, answer);
    assert pending + answer == flight + (later.sent + answer);
  }

  lemma AskKeeps(l: Link, requests: seq<Sending>, flight: seq<Sending>, p: Packet, ctx: Context, z: Zlib)
    requires CoherentWith(l, requests, flight, ctx, z)
    requires GoodRun(l.client, Underway(l.up), ctx, z) && Allowed(l, Ask(p), ctx, z)
    ensures CoherentWith(Happens(l, Ask(p), ctx, z).value, requests + [Sending(p, l.peer.compression)], flight, ctx, z)
  {
    hide GoodRun, RunServer, Carries, ReadAsSent, Switched, Put, CanFollow, Deliverable, AllDeliverable, PeerSends;
    var s := Sending(p, l.peer.compression);
    CarriesUnderway(l.up, requests, z);
    CarriesUnderway(l.down, flight, z);
    OnlyOne(s, z);
    PutKeeps(l.up, requests, [s], z);
    IdleLayout(l, requests, flight, ctx, z);
    ReadAsSentAppend(l.client, requests, s, ctx, z);
    if PeerSends(l.peer, p) != l.peer {
      assert flight + RunServer(l.client, Packets(requests), ctx, z).sent == [];
    }
    AskFollows(l.client, l.peer, Packets(requests), flight, p, ctx, z);
  }

  lemma IdleLayout(l: Link, requests: seq<Sending>, flight: seq<Sending>, ctx: Context, z: Zlib)
    requires CoherentWith(l, requests, flight, ctx, z) && GoodRun(l.client, Underway(l.up), ctx, z)
    ensures Idle(l, ctx, z) ==> KnowsLayout(l, ctx, z)
  {
    hide CoherentWith, GoodRun, Idle, KnowsLayout;
    assert Coherent(l, ctx, z);
    IdleKnowsLayout(l, ctx, z);
  }

  /** Handling the oldest request turns answers to come into answers in flight. */
  lemma AnswerFollows(c: ClientState, peer: Peer, p: Packet, todo: seq<Packet>, flight: seq<Sending>, ctx: Context,
                      z: Zlib)
    requires GoodRun(c, [p] + todo, ctx, z) && CanFollow(c, peer, [p] + todo, flight, ctx, z)
    requires Switched(c, flight)
    ensures Readable(c, p) && AllDeliverable(Handle(c, p, ctx).sent, z)
    ensures var r := Handle(c, p, ctx);
            GoodRun(r.client, todo, ctx, z) && CanFollow(r.client, peer, todo, flight + r.sent, ctx, z)
            && Switched(r.client, flight + r.sent)
  {
    hide Handle, Followed, AllDeliverable, Readable, InStep;
    assert ([p] + todo)[0] == p && ([p] + todo)[1..] == todo;
    var r := Handle(c, p, ctx);
    HandleSwitches(c, p, ctx);
    var others := RunServer(r.client, todo, ctx, z);
    assert flight + (r.sent + others.sent) == flight + r.sent + others.sent;
    SwitchedAppend(c, r.client, flight, r.sent);
  }

  lemma SwitchedAppend(c: ClientState, next: ClientState, a: seq<Sending>, b: seq<Sending>)
    requires Switched(c, a) && Switched(next, b)
    requires c.compression == CLIENT_COMPRESSION ==> next.compression == CLIENT_COMPRESSION
    ensures Switched(next, a + b)
  {
    if i :| 0 <= i < |a + b| && (a + b)[i].compression == CLIENT_COMPRESSION {
      if i < |a| {
        assert a[i].compression == CLIENT_COMPRESSION;
      } else {
        assert b[i - |a|].compression == CLIENT_COMPRESSION;
      }
    }
  }

  lemma ReadAsSentStep(c: ClientState, s: Sending, others: seq<Sending>, ctx: Context, z: Zlib)
    requires GoodRun(c, Packets([s] + others), ctx, z) && ReadAsSent(c, [s] + others, ctx)
    ensures Packets([s] + others) == [s.packet] + Packets(others)
    ensures s.compression == c.compression && Readable(c, s.packet)
    ensures GoodRun(Handle(c, s.packet, ctx).client, Packets(others), ctx, z)
    ensures ReadAsSent(Handle(c, s.packet, ctx).client, others, ctx)
  {
    hide Handle, AllDeliverable, Readable;
    assert Packets([s] + others) == [s.packet] + Packets(others);
    assert ([s.packet] + Packets(others))[1..] == Packets(others);
    assert ([s] + others)[1..] == others && ([s] + others)[0] == s;
  }

  lemma AnswerKeeps(l: Link, s: Sending, others: seq<Sending>, flight: seq<Sending>, ctx: Context, z: Zlib)
    requires z.Lawful() && CoherentWith(l, [s] + others, flight, ctx, z)
    ensures var next := ServerTakes(l, ctx, z);
            next.Some? && Readable(l.client, s.packet)
            && CoherentWith(next.value, others, flight + Handle(l.client, s.packet, ctx).sent, ctx, z)
  {
    hide Handle, Readable, AllDeliverable, GoodRun, Carries, ReadAsSent, Switched, Put, Take, CanFollow, Zlib.Lawful;
    ReadAsSentStep(l.client, s, others, ctx, z);
    TakeKeeps(l.up, s, others, z);
    AnswerFollows(l.client, l.peer, s.packet, Packets(others), flight, ctx, z);
    PutKeeps(l.down, flight, Handle(l.client, s.packet, ctx).sent, z);
  }

  lemma ReadFollows(c: ClientState, peer: Peer, todo: seq<Packet>, s: Sending, others: seq<Sending>, ctx: Context,
                    z: Zlib)
    requires GoodRun(c, todo, ctx, z) && CanFollow(c, peer, todo, [s] + others, ctx, z)
    ensures s.compression == peer.compression
    ensures CanFollow(c, PeerReceives(peer, s.packet), todo, others, ctx, z)
  {
    hide GoodRun, RunServer, PeerReceives, InStep;
    var later := RunServer(c, todo, ctx, z).sent;
    var pending := [s] + others + later;
    assert pending[0] == s && pending[1..] == others + later;
  }

  lemma ReadKeeps(l: Link, requests: seq<Sending>, s: Sending, others: seq<Sending>, ctx: Context, z: Zlib)
    requires z.Lawful() && CoherentWith(l, requests, [s] + others, ctx, z)
    ensures var r := Take(l.down, l.peer.compression, z);
            r.Some?
            && CoherentWith(l.(down := r.value.1, peer := PeerReceives(l.peer, r.value.0)), requests, others, ctx, z)
  {
    hide GoodRun, Carries, ReadAsSent, Take, CanFollow, PeerReceives, Zlib.Lawful;
    ReadFollows(l.client, l.peer, Packets(requests), s, others, ctx, z);
    TakeKeeps(l.down, s, others, z);
    forall i | 0 <= i < |others| && others[i].compression == CLIENT_COMPRESSION
      ensures l.client.compression == CLIENT_COMPRESSION
    {
      assert ([s] + others)[i + 1] == others[i];
    }
  }

  lemma EventKeeps(l: Link, e: Event, ctx: Context, z: Zlib)
    requires z.Lawful() && Coherent(l, ctx, z)
    requires GoodRun(l.client, Underway(l.up), ctx, z) && Allowed(l, e, ctx, z)
    ensures Happens(l, e, ctx, z).Some? && Coherent(Happens(l, e, ctx, z).value, ctx, z)
  {
    hide CoherentWith, GoodRun, Idle, KnowsLayout, PeerSends, PeerReceives, Put, Take, ServerTakes, Zlib.Lawful;
    var requests, flight :| CoherentWith(l, requests, flight, ctx, z);
    Nonempty(l, requests, flight, ctx, z);
    match e {
      case Ask(p) =>
        AskKeeps(l, requests, flight, p, ctx, z);
      case Answer =>
        assert requests == [requests[0]] + requests[1..];
        AnswerKeeps(l, requests[0], requests[1..], flight, ctx, z);
      case ReadOne =>
        assert flight == [flight[0]] + flight[1..];
        ReadKeeps(l, requests, flight[0], flight[1..], ctx, z);
    }
  }

  lemma Nonempty(l: Link, requests: seq<Sending>, flight: seq<Sending>, ctx: Context, z: Zlib)
    requires CoherentWith(l, requests, flight, ctx, z)
    ensures (l.up.wire == [] <==> requests == []) && (l.down.wire == [] <==> flight == [])
  {
    hide GoodRun, ReadAsSent, Switched, CanFollow, Carries;
    CarriesUnderway(l.up, requests, z);
    CarriesUnderway(l.down, flight, z);
  }

  /** However requests, answers and reads interleave, both ends always understand what
      they read. */
  lemma {:induction false} RunStaysInStep(l: Link, es: seq<Event>, ctx: Context, z: Zlib)
    requires z.Lawful() && Coherent(l, ctx, z) && AllowedRun(l, es, ctx, z)
    ensures RunLink(l, es, ctx, z).Some? && Coherent(RunLink(l, es, ctx, z).value, ctx, z)
    decreases es
  {
    hide Coherent, Allowed, Happens, GoodRun, Zlib.Lawful;
    if es != [] {
      EventKeeps(l, es[0], ctx, z);
      RunStaysInStep(Happens(l, es[0], ctx, z).value, es[1..], ctx, z);
    }
  }

  /** What the server decodes and handles from its wire on. */
  function ServerDecodes(c: ClientState, wire: seq<Byte>, ctx: Context, z: Zlib): Option<seq<Packet>>
    decreases |wire|
  {
    if wire == [] then Some([])
    else
      var r := Receive(wire, c.compression, z);
      if r.Undefined? || !Readable(c, r.value) then None
      else
        ReceiveConsumes(wire, c.compression, z);
        match ServerDecodes(Handle(c, r.value, ctx).client, r.rest, ctx, z)
        case None => None
        case Some(ps) => Some([r.value] + ps)
  }

  lemma {:induction false} ReadAsSentDecodes(c: ClientState, requests: seq<Sending>, ctx: Context, z: Zlib)
    requires z.Lawful() && AllDeliverable(requests, z)
    requires GoodRun(c, Packets(requests), ctx, z) && ReadAsSent(c, requests, ctx)
    ensures ServerDecodes(c, Wire(requests, z), ctx, z) == Some(Packets(requests))
    decreases requests
  {
    hide Receive, Frame, Fits, Wire, AllDeliverable, GoodRun, ReadAsSent, Handle, Readable, Zlib.Lawful;
    if requests == [] {
      WireOfNone(z);
      assert Packets(requests) == [];
    } else {
      var s, others := requests[0], requests[1..];
      assert requests == [s] + others;
      WireStep(requests, z);
      OneDeliverable(requests, z);
      NothingInFlight(requests, z);
      ReadAsSentStep(c, s, others, ctx, z);
      ReceiveRoundTrip(s.packet, s.compression, z, Wire(others, z));
      ReceiveConsumes(Wire(requests, z), s.compression, z);
      ReadAsSentDecodes(Handle(c, s.packet, ctx).client, others, ctx, z);
    }
  }

  /** At every moment of every run of a connection, what an end has taken off its stream
      and what it will decode from the rest of it are together exactly the packets the
      other end put on it, in order: in both directions. */
  lemma ConnectionStaysInStep(es: seq<Event>, ctx: Context, z: Zlib)
    requires z.Lawful() && AllowedRun(NEW_LINK, es, ctx, z)
    ensures var r := RunLink(NEW_LINK, es, ctx, z);
            r.Some?
            && var l := r.value;
               var answers := PeerDecodes(l.peer, l.down.wire, z);
               var requests := ServerDecodes(l.client, l.up.wire, ctx, z);
               answers.Some? && l.down.put == l.down.taken + answers.value.packets
               && requests.Some? && l.up.put == l.up.taken + requests.value
  {
    hide PeerDecodes, ServerDecodes, Wire, RunLink, AllowedRun, AllDeliverable, GoodRun, RunServer, ReadAsSent;
    hide Followed, Zlib.Lawful;
    NewLinkCoherent(ctx, z);
    RunStaysInStep(NEW_LINK, es, ctx, z);
    var l := RunLink(NEW_LINK, es, ctx, z).value;
    var requests, flight :| CoherentWith(l, requests, flight, ctx, z);
    ReadAsSentDecodes(l.client, requests, ctx, z);
    FollowedAppend(l.peer, flight, RunServer(l.client, Packets(requests), ctx, z).sent);
    FollowedDecodes(l.peer, flight, z);
  }

  lemma NewLinkCoherent(ctx: Context, z: Zlib)
    ensures Coherent(NEW_LINK, ctx, z)
  {
    WireOfNone(z);
    assert Packets([]) == [];
    assert CoherentWith(NEW_LINK, [], [], ctx, z);
  }

  // ------------------------------------------------------------------
  // What goes wrong otherwise
  // ------------------------------------------------------------------

  /** A peer that acknowledges the login before it has read the answer to it is lost: it
      no longer takes SET_COMPRESSION for a change of layout. */
  lemma AcknowledgedTooSoon(c: ClientState, peer: Peer, start: Packet, ack: Packet, ctx: Context)
    requires InStep(c, peer) && c.state == LOGIN_STATE && c.compression != CLIENT_COMPRESSION
    requires start.id == LOGIN_START && Readable(c, start) && ack.id == LOGIN_ACKNOWLEDGED
    ensures Followed(PeerSends(peer, ack), Handle(c, start, ctx).sent) == None
  {
    hide ReadStart, Encode, EncodeString, LoginId;
    var sent, gone := Handle(c, start, ctx).sent, PeerSends(peer, ack);
    assert sent[1..][0] == sent[1];
    assert PeerReceives(gone, sent[0].packet) == gone;
    assert sent[0].compression == gone.compression && sent[1].compression != gone.compression;
    assert Followed(gone, sent) == Followed(gone, sent[1..]) == None;
  }

  /** A peer that sends a second LOGIN_START before it has read the answer to the first
      does not know the layout: the server takes the packet's plain form for a compressed
      one and the first byte of its data for the id. */
  lemma SecondStartMisread(c: ClientState, peer: Peer, start: Packet, ctx: Context, z: Zlib)
    requires InStep(c, peer) && c.state == LOGIN_STATE && c.compression <= NO_COMPRESSION
    requires start.id == LOGIN_START && Readable(c, start)
    requires start.data[0] <= 127 && |start.data| < 0x7000_0000
    ensures Handle(c, start, ctx).client.compression != peer.compression
    ensures Parse(Content(start, peer.compression, z), Handle(c, start, ctx).client.compression, z)
         == Ok(Packet(start.data[0], start.data[1..]))
  {
    assert start.data != [];
    hide ReadStart, EncodeString, LoginId, Decode, ParseBody, Encode;
    EncodeLength(start.id);
    assert Content(start, peer.compression, z) == Encode(0) + start.data;
    RoundTrip(0, start.data);
    assert start.data == [start.data[0]] + start.data[1..];
    OneByteBody(Packet(start.data[0], start.data[1..]));
  }

  lemma OneByteBody(p: Packet)
    requires p.id <= 127
    ensures ParseBody([p.id] + p.data, 1 + |p.data|) == Ok(p)
  {
    assert Encode(p.id) == [p.id];
    ParseBodyRoundTrip(p);
  }
}
