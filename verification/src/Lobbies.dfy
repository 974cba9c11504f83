// The lobby with its players, and the server with its clients and lobbies.
module Lobbies {
  import opened Bytes
  import opened Tables

  lemma FullTable(t: Table, fd: int)
    requires t.count >= |t.slots|
    ensures Insert(t, fd) == t
  {
  }

  class Player {
    const fd: int
    var index: int
    var eid: int
    var inLobby: bool  // whether currentLobby is set

    constructor (fd: int)
      ensures this.fd == fd && !inLobby && index == -1
    {
      this.fd, index, eid, inLobby := fd, -1, 0, false;
    }
  }

  class Lobby {
    const maxPlayers: nat
    const players: array<Player?>
    var playerCount: int
    var epoll: set<int>

    ghost predicate Valid()
      reads this, players, players[..]
    {
      players.Length == maxPlayers && Consistent(State())
    }

    /** Every player that started here has its slot for an entity id. */
    ghost predicate IdsAreSlots()
      requires Valid()
      reads this, players, players[..]
    {
      forall i :: 0 <= i < maxPlayers && players[i] != null ==> players[i].inLobby && players[i].eid == i
    }

    /** The table this lobby keeps. */
    ghost function State(): (t: Table)
      reads this, players, players[..]
      ensures |t.slots| == players.Length && t.count == playerCount && t.epoll == epoll
      ensures forall i :: 0 <= i < players.Length ==> t.slots[i] == EntryOf(players[i])
    {
      Table(seq(players.Length,
                i requires 0 <= i < players.Length reads this, players, players[..] => EntryOf(players[i])),
            playerCount, epoll)
    }

    static ghost function EntryOf(p: Player?): Option<Entry>
      reads p
    {
      if p == null then None else Some(Entry(p.fd, p.index))
    }

    constructor (maxPlayers: nat)
      ensures Valid() && IdsAreSlots() && fresh(players)
      ensures this.maxPlayers == maxPlayers && State() == Empty(maxPlayers)
    {
      this.maxPlayers, playerCount, epoll := maxPlayers, 0, {};
      players := new Player?[maxPlayers](_ => null);
      new;
      EmptyConsistent(maxPlayers);
      assert State().slots == Empty(maxPlayers).slots;
    }

    method FindFree() returns (i: nat)
      requires players.Length == maxPlayers
      ensures i == FirstFree(State().slots)
    {
      i := 0;
      while i < maxPlayers
        invariant 0 <= i <= maxPlayers
        invariant forall k :: 0 <= k < i ==> players[k] != null
      {
        if players[i] == null {
          break;
        }
        i := i + 1;
      }
      assert forall k :: 0 <= k < i ==> State().slots[k].Some?;
    }

    /** Puts the player in the first free slot and registers its socket. */
    method Place(p: Player)
      requires Valid() && p !in players[..] && p.fd !in epoll && playerCount < maxPlayers
      modifies this`playerCount, this`epoll, players, p`index
      ensures Valid() && State() == Insert(old(State()), p.fd) && p.fd in epoll
      ensures 0 <= p.index < maxPlayers && p.index == FirstFree(old(State()).slots)
      ensures players[..] == old(players[..])[p.index := p]
    {
      ghost var before := State();
      FreeSlotExists(before);
      InsertConsistent(before, p.fd);
      playerCount := playerCount + 1;
      var i := FindFree();
      players[i] := p;
      p.index := i;
      epoll := epoll + {p.fd};
      assert State().slots == before.slots[i := Some(Entry(p.fd, i))];
    }

    /** Takes the player in and starts it, unless the lobby is full. A player whose start
        fails is taken out again; one that comes from another lobby is not started, and
        keeps its entity id. */
    method AddPlayer(p: Player, starts: bool)
      requires Valid() && p !in players[..] && p.fd !in epoll
      modifies this`playerCount, this`epoll, players, p
      ensures Valid()
      ensures State() == if starts || old(p.inLobby) then Insert(old(State()), p.fd) else old(State())
      ensures old(IdsAreSlots()) && !old(p.inLobby) ==> IdsAreSlots()
      ensures p in players[..] <==> old(playerCount) < maxPlayers && (starts || old(p.inLobby))
      ensures p in players[..] ==> 0 <= p.index < maxPlayers && players[p.index] == p
                                   && p.eid == if old(p.inLobby) then old(p.eid) else p.index
    {
      hide Consistent, Insert, Remove, Occupied;
      ghost var before := State();
      if playerCount >= maxPlayers {
        FullTable(before, p.fd);
        return;
      }
      Place(p);
      ghost var placed := State();
      if !p.inLobby {
        p.inLobby := true;
        p.eid := p.index;
        assert State().slots == placed.slots && State() == placed;
        if !starts {
          RemoveUndoesInsert(before, p.fd);
          var removed := RemovePlayer(p);
        }
      }
    }

    /** False where the source throws: epoll knows no such socket, and nothing has changed. */
    method RemovePlayer(p: Player) returns (removed: bool)
      requires Valid()
      requires p.fd in epoll ==> 0 <= p.index < maxPlayers && players[p.index] == p
      modifies this`playerCount, this`epoll, players
      ensures Valid()
      ensures removed <==> p.fd in old(epoll)
      ensures old(IdsAreSlots()) ==> IdsAreSlots()
      ensures !removed ==> State() == old(State()) && players[..] == old(players[..])
      ensures removed ==> old(State()).slots[p.index] == Some(Entry(p.fd, p.index))
                          && State() == Remove(old(State()), p.index)
                          && players[..] == old(players[..])[p.index := null]
                          && p.fd !in epoll && p !in players[..]
    {
      ghost var before := State();
      if p.fd !in epoll {
        return false;
      }
      RemoveConsistent(before, p.index);
      epoll := epoll - {p.fd};
      players[p.index] := null;
      playerCount := playerCount - 1;
      assert State().slots == before.slots[p.index := None];
      removed := true;
      assert forall k :: 0 <= k < maxPlayers && players[k] != null ==>
                           players[k] == old(players[k]) && before.slots[k].value.index == k;
    }

    /** The count startPlay announces is the number of the entries that follow it: one
        for each player, in the order of their slots. */
    method PlayerList() returns (announced: int, entries: seq<Player>)
      requires Valid()
      ensures announced == |entries|
      ensures |entries| == |Reached(State(), -1, maxPlayers)|
      ensures forall k :: 0 <= k < |entries| ==> entries[k] == players[Reached(State(), -1, maxPlayers)[k]]
    {
      hide Consistent, Reached;
      ghost var t := State();
      announced := playerCount;
      entries := [];
      ReachedNobody(t, -1);
      ReachedIsCount(t);
      for i := 0 to maxPlayers
        invariant |entries| == |Reached(t, -1, i)|
        invariant forall k :: 0 <= k < |entries| ==> entries[k] == players[Reached(t, -1, i)[k]]
      {
        ReachedStep(t, -1, i);
        if players[i] == null {
          assert t.slots[i] == None;
          continue;
        }
        assert t.slots[i].Some?;
        entries := entries + [players[i]];
      }
    }

    /** The count is in range and a player sits in no slot but its own. */
    lemma OwnSlots()
      requires Valid()
      ensures 0 <= playerCount <= maxPlayers
      ensures forall i :: 0 <= i < maxPlayers && players[i] != null ==> players[i].index == i
    {
      assert forall i :: 0 <= i < maxPlayers && players[i] != null ==> State().slots[i].value.index == i;
    }

    /** The loop of spawnPlayer, the position and rotation updates and removePlayer: the
        players a packet about p goes to. */
    method Broadcast(p: Player) returns (reached: seq<Player>)
      requires Valid() && 0 <= p.index < maxPlayers && players[p.index] == p
      ensures 0 <= playerCount <= maxPlayers
      ensures |reached| == |Reached(State(), p.index, playerCount)|
      ensures forall k :: 0 <= k < |reached| ==> reached[k] == players[Reached(State(), p.index, playerCount)[k]]
    {
      hide Consistent, Reached;
      OwnSlots();
      ghost var t := State();
      reached := [];
      ReachedNobody(t, p.index);
      for i := 0 to playerCount
        invariant |reached| == |Reached(t, p.index, i)|
        invariant forall k :: 0 <= k < |reached| ==> reached[k] == players[Reached(t, p.index, i)[k]]
      {
        ReachedStep(t, p.index, i);
        if players[i] == null || players[i] == p {
          continue;
        }
        assert t.slots[i].Some? && i != p.index;
        reached := reached + [players[i]];
      }
    }
  }

  // ------------------------------------------------------------------
  // The server
  // ------------------------------------------------------------------

  class Client {
    const fd: int
    const index: int

    constructor (fd: int, index: int)
      ensures this.fd == fd && this.index == index
    {
      this.fd, this.index := fd, index;
    }
  }

  class Server {
    const maxConnected: nat
    const connected: array<Client?>
    var connectedCount: int
    var epoll: set<int>  // without the master socket

    ghost predicate Valid()
      reads this, connected
    {
      connected.Length == maxConnected && Consistent(State())
    }

    ghost function State(): (t: Table)
      reads this, connected
      ensures |t.slots| == connected.Length && t.count == connectedCount && t.epoll == epoll
      ensures forall i :: 0 <= i < connected.Length ==> t.slots[i] == ClientEntry(connected[i])
    {
      Table(seq(connected.Length,
                i requires 0 <= i < connected.Length reads this, connected => ClientEntry(connected[i])),
            connectedCount, epoll)
    }

    constructor (maxConnected: nat)
      ensures Valid() && fresh(connected)
      ensures this.maxConnected == maxConnected && State() == Empty(maxConnected)
    {
      this.maxConnected, connectedCount, epoll := maxConnected, 0, {};
      connected := new Client?[maxConnected](_ => null);
      new;
      EmptyConsistent(maxConnected);
      assert State().slots == Empty(maxConnected).slots;
    }

    /** A full server closes the new socket. */
    method CreateClient(socket: int)
      requires Valid() && socket !in epoll
      modifies this`connectedCount, this`epoll, connected
      ensures Valid() && State() == Insert(old(State()), socket)
    {
      ghost var before := State();
      if connectedCount >= maxConnected {
        return;
      }
      FreeSlotExists(before);
      InsertConsistent(before, socket);
      var i := 0;
      while i < maxConnected
        invariant 0 <= i <= maxConnected
        invariant forall k :: 0 <= k < i ==> connected[k] != null
        invariant State() == before
      {
        if connected[i] == null {
          assert forall k :: 0 <= k < i ==> before.slots[k].Some?;
          var c := new Client(socket, i);
          connected[i] := c;
          epoll := epoll + {socket};
          break;
        }
        i := i + 1;
      }
      assert i < maxConnected by {
        assert FirstFree(before.slots) < maxConnected && before.slots[FirstFree(before.slots)] == None;
      }
      connectedCount := connectedCount + 1;
      assert State().slots == before.slots[i := Some(Entry(socket, i))];
    }

    /** Removing an empty slot changes nothing. */
    method RemoveClient(n: nat)
      requires Valid() && n < maxConnected
      modifies this`connectedCount, this`epoll, connected
      ensures Valid()
      ensures State() == if old(State()).slots[n].Some? then Remove(old(State()), n) else old(State())
    {
      ghost var before := State();
      var c := connected[n];
      if c != null {
        RemoveConsistent(before, n);
        connected[n] := null;
        connectedCount := connectedCount - 1;
        epoll := epoll - {c.fd};
        assert State().slots == before.slots[n := None];
      }
    }
  }

  ghost function ClientEntry(c: Client?): Option<Entry>
  {
    if c == null then None else Some(Entry(c.fd, c.index))
  }

  ghost predicate Separate(lobbies: seq<Lobby>)
  {
    forall j, k :: 0 <= j < k < |lobbies| ==> lobbies[j] != lobbies[k] && lobbies[j].players != lobbies[k].players
  }

  /** The client, as a player on a duplicate of its socket, joins the first lobby with
      space; the other lobbies stay as they are, and without space so do all. */
  method AddToLobby(lobbies: seq<Lobby>, newFd: int, starts: bool) returns (chosen: nat)
    requires Separate(lobbies)
    requires forall k :: 0 <= k < |lobbies| ==> lobbies[k].Valid() && newFd !in lobbies[k].epoll
    modifies lobbies, set l | l in lobbies :: l.players
    ensures chosen <= |lobbies|
    ensures forall k :: 0 <= k < chosen ==> old(lobbies[k].playerCount) >= lobbies[k].maxPlayers
    ensures chosen < |lobbies| ==> old(lobbies[chosen].playerCount) < lobbies[chosen].maxPlayers
    ensures forall k :: 0 <= k < |lobbies| ==>
              lobbies[k].Valid()
              && lobbies[k].State() == if k == chosen && starts then Insert(old(lobbies[k].State()), newFd)
                                       else old(lobbies[k].State())
  {
    hide Consistent, Insert, Remove, Occupied;
    chosen := 0;
    while chosen < |lobbies|
      invariant chosen <= |lobbies|
      invariant forall k :: 0 <= k < chosen ==> lobbies[k].playerCount >= lobbies[k].maxPlayers
      invariant forall k :: 0 <= k < |lobbies| ==> lobbies[k].Valid() && lobbies[k].State() == old(lobbies[k].State())
    {
      if lobbies[chosen].playerCount < lobbies[chosen].maxPlayers {
        var p := new Player(newFd);
        lobbies[chosen].AddPlayer(p, starts);
        return;
      }
      chosen := chosen + 1;
    }
  }
}
