// Slot tables: a fixed number of slots, a count of the occupied ones, and the set of
// sockets registered with epoll. Both the lobbies and the server keep one.
module Tables {
  import opened Bytes

  datatype Entry = Entry(fd: int, index: int)

  datatype Table = Table(slots: seq<Option<Entry>>, count: int, epoll: set<int>)

  // ------------------------------------------------------------------
  // The invariant
  // ------------------------------------------------------------------

  function Occupied(slots: seq<Option<Entry>>): (n: nat)
    ensures n <= |slots|
  {
    if slots == [] then 0
    else Occupied(slots[..|slots| - 1]) + (if slots[|slots| - 1].Some? then 1 else 0)
  }

  /** The count is the number of occupants, every occupant knows its slot, no two share
      a socket, and exactly their sockets are registered. */
  ghost predicate Consistent(t: Table)
  {
    t.count == Occupied(t.slots)
    && (forall i :: 0 <= i < |t.slots| && t.slots[i].Some? ==> t.slots[i].value.index == i)
    && (forall i, j :: 0 <= i < j < |t.slots| && t.slots[i].Some? && t.slots[j].Some? ==>
          t.slots[i].value.fd != t.slots[j].value.fd)
    && forall fd :: fd in t.epoll <==> HasSocket(t.slots, fd)
  }

  ghost predicate HasSocket(slots: seq<Option<Entry>>, fd: int)
  {
    exists i :: 0 <= i < |slots| && slots[i].Some? && slots[i].value.fd == fd
  }

  function Empty(size: nat): Table
  {
    Table(seq(size, _ => None), 0, {})
  }

  lemma {:induction false} OccupiedUpdate(slots: seq<Option<Entry>>, i: nat, e: Option<Entry>)
    requires i < |slots|
    ensures Occupied(slots[i := e]) + (if slots[i].Some? then 1 else 0) == Occupied(slots) + (if e.Some? then 1 else 0)
  {
    var n := |slots| - 1;
    if i < n {
      OccupiedUpdate(slots[..n], i, e);
      assert slots[i := e][..n] == slots[..n][i := e];
    } else {
      assert slots[i := e][..n] == slots[..n];
    }
  }

  lemma {:induction false} AllOccupied(slots: seq<Option<Entry>>)
    ensures Occupied(slots) == |slots| <==> forall i :: 0 <= i < |slots| ==> slots[i].Some?
  {
    if slots != [] {
      var n := |slots| - 1;
      AllOccupied(slots[..n]);
      assert forall i :: 0 <= i < n ==> slots[i] == slots[..n][i];
    }
  }

  lemma {:induction false} NoneOccupied(slots: seq<Option<Entry>>)
    requires forall i :: 0 <= i < |slots| ==> slots[i] == None
    ensures Occupied(slots) == 0
  {
    if slots != [] {
      NoneOccupied(slots[..|slots| - 1]);
    }
  }

  lemma EmptyConsistent(size: nat)
    ensures Consistent(Empty(size))
  {
    NoneOccupied(Empty(size).slots);
  }

  // ------------------------------------------------------------------
  // Steps
  // ------------------------------------------------------------------

  /** The first free slot, or the number of slots when there is none. */
  function FirstFree(slots: seq<Option<Entry>>): (i: nat)
    ensures i <= |slots|
    ensures forall k :: 0 <= k < i ==> slots[k].Some?
    ensures i < |slots| ==> slots[i] == None
  {
    FirstFreeFrom(slots, 0)
  }

  function FirstFreeFrom(slots: seq<Option<Entry>>, from: nat): (i: nat)
    requires from <= |slots|
    requires forall k :: 0 <= k < from ==> slots[k].Some?
    ensures from <= i <= |slots|
    ensures forall k :: 0 <= k < i ==> slots[k].Some?
    ensures i < |slots| ==> slots[i] == None
    decreases |slots| - from
  {
    if from == |slots| || slots[from] == None then from else FirstFreeFrom(slots, from + 1)
  }

  /** Whenever the check for a full table passes, the search finds a slot. */
  lemma FreeSlotExists(t: Table)
    requires Consistent(t)
    ensures t.count < |t.slots| <==> FirstFree(t.slots) < |t.slots|
  {
    AllOccupied(t.slots);
  }

  /** Takes the first free slot; a full table stays as it is. */
  function Insert(t: Table, fd: int): Table
  {
    if t.count >= |t.slots| then t
    else
      var i := FirstFree(t.slots);
      if i == |t.slots| then t.(count := t.count + 1)
      else Table(t.slots[i := Some(Entry(fd, i))], t.count + 1, t.epoll + {fd})
  }

  function Remove(t: Table, i: nat): Table
    requires i < |t.slots| && t.slots[i].Some?
  {
    Table(t.slots[i := None], t.count - 1, t.epoll - {t.slots[i].value.fd})
  }

  lemma InsertConsistent(t: Table, fd: int)
    requires Consistent(t) && fd !in t.epoll
    ensures Consistent(Insert(t, fd))
    ensures Insert(t, fd).count == if t.count < |t.slots| then t.count + 1 else t.count
  {
    FreeSlotExists(t);
    if t.count < |t.slots| {
      var i := FirstFree(t.slots);
      var r := Insert(t, fd);
      OccupiedUpdate(t.slots, i, Some(Entry(fd, i)));
      forall k | 0 <= k < |t.slots| && t.slots[k].Some?
        ensures t.slots[k].value.fd != fd
      {
        assert HasSocket(t.slots, t.slots[k].value.fd);
      }
      forall f
        ensures f in r.epoll <==> HasSocket(r.slots, f)
      {
        if f == fd {
          assert r.slots[i].value.fd == fd;
        } else if HasSocket(t.slots, f) {
          var k :| 0 <= k < |t.slots| && t.slots[k].Some? && t.slots[k].value.fd == f;
          assert r.slots[k] == t.slots[k];
        }
      }
    }
  }

  lemma RemoveConsistent(t: Table, i: nat)
    requires Consistent(t) && i < |t.slots| && t.slots[i].Some?
    ensures Consistent(Remove(t, i))
    ensures t.slots[i].value.fd in t.epoll && t.slots[i].value.fd !in Remove(t, i).epoll
  {
    var r := Remove(t, i);
    OccupiedUpdate(t.slots, i, None);
    assert HasSocket(t.slots, t.slots[i].value.fd);
    forall f
      ensures f in r.epoll <==> HasSocket(r.slots, f)
    {
      if HasSocket(t.slots, f) && f != t.slots[i].value.fd {
        var k :| 0 <= k < |t.slots| && t.slots[k].Some? && t.slots[k].value.fd == f;
        assert r.slots[k] == t.slots[k];
      }
    }
  }

  /** A join and the leave that undoes it. */
  lemma RemoveUndoesInsert(t: Table, fd: int)
    requires Consistent(t) && fd !in t.epoll && t.count < |t.slots|
    ensures FirstFree(t.slots) < |t.slots|
    ensures Insert(t, fd).slots[FirstFree(t.slots)].Some?
    ensures Remove(Insert(t, fd), FirstFree(t.slots)) == t
  {
    FreeSlotExists(t);
    var i := FirstFree(t.slots);
    assert t.slots[i := Some(Entry(fd, i))][i := None] == t.slots;
  }

  // ------------------------------------------------------------------
  // Runs
  // ------------------------------------------------------------------

  /** A newcomer on a socket not in use, or the occupant of a slot going. */
  datatype Op = Join(fd: int) | Leave(slot: nat)

  function Step(t: Table, op: Op): Table
  {
    match op
    case Join(fd) => if fd in t.epoll then t else Insert(t, fd)
    case Leave(i) => if i < |t.slots| && t.slots[i].Some? then Remove(t, i) else t
  }

  function Run(t: Table, ops: seq<Op>): Table
  {
    if ops == [] then t else Step(Run(t, ops[..|ops| - 1]), ops[|ops| - 1])
  }

  /** Over every run of joins and leaves the table stays consistent and never overfull. */
  lemma {:induction false} RunConsistent(t: Table, ops: seq<Op>)
    requires Consistent(t)
    ensures Consistent(Run(t, ops)) && |Run(t, ops).slots| == |t.slots|
    ensures 0 <= Run(t, ops).count <= |t.slots|
  {
    if ops != [] {
      var n := |ops| - 1;
      RunConsistent(t, ops[..n]);
      var before := Run(t, ops[..n]);
      match ops[n] {
        case Join(fd) =>
          if fd !in before.epoll {
            InsertConsistent(before, fd);
          }
        case Leave(i) =>
          if i < |before.slots| && before.slots[i].Some? {
            RemoveConsistent(before, i);
          }
      }
    }
  }

  // ------------------------------------------------------------------
  // Broadcasts
  // ------------------------------------------------------------------

  /** The slots a broadcast of the occupant of `self` reaches: the source looks at the
      first `count` slots only. */
  function Reached(t: Table, self: int, n: nat): (r: seq<nat>)
    requires n <= |t.slots|
    ensures forall i :: 0 <= i < |r| ==> r[i] < n && r[i] != self && t.slots[r[i]].Some?
    ensures forall i, j :: 0 <= i < j < |r| ==> r[i] < r[j]
    ensures forall k :: 0 <= k < n && k != self && t.slots[k].Some? ==> k in r
  {
    if n == 0 then []
    else if t.slots[n - 1].Some? && n - 1 != self then Reached(t, self, n - 1) + [n - 1]
    else Reached(t, self, n - 1)
  }

  lemma ReachedNobody(t: Table, self: int)
    ensures Reached(t, self, 0) == []
  {
  }

  lemma ReachedStep(t: Table, self: int, n: nat)
    requires n < |t.slots|
    ensures Reached(t, self, n + 1) ==
              if t.slots[n].Some? && n != self then Reached(t, self, n) + [n] else Reached(t, self, n)
  {
  }

  lemma {:induction false} ReachedOccupied(t: Table, n: nat)
    requires n <= |t.slots|
    ensures |Reached(t, -1, n)| == Occupied(t.slots[..n])
  {
    if n > 0 {
      ReachedOccupied(t, n - 1);
      assert t.slots[..n][..n - 1] == t.slots[..n - 1];
    }
  }

  /** There are as many occupants as the count says. */
  lemma ReachedIsCount(t: Table)
    requires Consistent(t)
    ensures |Reached(t, -1, |t.slots|)| == t.count
  {
    ReachedOccupied(t, |t.slots|);
    assert t.slots[..|t.slots|] == t.slots;
  }

  /** Every other occupant is among the recipients. */
  ghost predicate ReachesAll(t: Table, self: int)
    requires 0 <= t.count <= |t.slots|
  {
    forall k :: 0 <= k < |t.slots| && k != self && t.slots[k].Some? ==> k in Reached(t, self, t.count)
  }

  /** The occupied slots are the first ones. */
  predicate Prefix(t: Table)
  {
    forall k :: 0 <= k < |t.slots| ==> (t.slots[k].Some? <==> k < t.count)
  }

  /** A broadcast reaches every other occupant, each exactly once and never the sender,
      exactly when no other occupant sits at or past the count. */
  lemma BroadcastCoverage(t: Table, self: int)
    requires Consistent(t)
    ensures self !in Reached(t, self, t.count)
    ensures ReachesAll(t, self) <==> forall k :: t.count <= k < |t.slots| && t.slots[k].Some? ==> k == self
  {
  }

  /** Every occupant's broadcast reaches all the others. */
  ghost predicate EveryoneReachesAll(t: Table)
    requires 0 <= t.count <= |t.slots|
  {
    forall self :: 0 <= self < |t.slots| && t.slots[self].Some? ==> ReachesAll(t, self)
  }

  lemma {:induction false} OccupiedFront(slots: seq<Option<Entry>>, n: nat)
    requires n <= |slots|
    requires forall k :: n <= k < |slots| ==> slots[k] == None
    ensures Occupied(slots) == Occupied(slots[..n])
  {
    if n < |slots| {
      OccupiedFront(slots[..|slots| - 1], n);
      assert slots[..|slots| - 1][..n] == slots[..n];
    } else {
      assert slots[..n] == slots;
    }
  }

  /** With nobody at or past the count, the occupants are the first ones. */
  lemma NonePastCount(t: Table)
    requires Consistent(t)
    requires forall k :: t.count <= k < |t.slots| ==> t.slots[k] == None
    ensures Prefix(t)
  {
    OccupiedFront(t.slots, t.count);
    AllOccupied(t.slots[..t.count]);
    assert forall k :: 0 <= k < t.count ==> t.slots[k] == t.slots[..t.count][k];
  }

  lemma {:induction false} OccupiedBound(slots: seq<Option<Entry>>, i: nat)
    requires i < |slots| && slots[i].Some?
    ensures Occupied(slots) >= 1
    ensures Occupied(slots) == 1 <==> forall k :: 0 <= k < |slots| && slots[k].Some? ==> k == i
  {
    OccupiedUpdate(slots, i, None);
    var others := slots[i := None];
    if forall k :: 0 <= k < |slots| && slots[k].Some? ==> k == i {
      NoneOccupied(others);
    } else {
      var k :| 0 <= k < |slots| && slots[k].Some? && k != i;
      assert others[k].Some?;
      OccupiedUpdate(others, k, None);
    }
  }

  /** Everybody reaches everybody else exactly when the occupied slots are the first
      ones or there is at most one occupant. */
  lemma EveryoneReachesAllIff(t: Table)
    requires Consistent(t)
    ensures EveryoneReachesAll(t) <==> Prefix(t) || t.count <= 1
  {
    hide Reached, Occupied;
    forall self | 0 <= self < |t.slots| && t.slots[self].Some?
      ensures ReachesAll(t, self) <==> forall k :: t.count <= k < |t.slots| && t.slots[k].Some? ==> k == self
    {
      BroadcastCoverage(t, self);
    }
    if k :| t.count <= k < |t.slots| && t.slots[k].Some? {
      OccupiedBound(t.slots, k);
    } else {
      NonePastCount(t);
    }
  }

  lemma PrefixReachesAll(t: Table, self: int)
    requires Consistent(t) && Prefix(t)
    ensures ReachesAll(t, self)
  {
    BroadcastCoverage(t, self);
  }

  predicate JoinsOnly(ops: seq<Op>)
  {
    forall i :: 0 <= i < |ops| ==> ops[i].Join?
  }

  /** As long as nobody leaves, the occupied slots stay the first ones. */
  lemma {:induction false} JoinsKeepPrefix(t: Table, ops: seq<Op>)
    requires Consistent(t) && Prefix(t) && JoinsOnly(ops)
    ensures Consistent(Run(t, ops)) && Prefix(Run(t, ops))
  {
    RunConsistent(t, ops);
    if ops != [] {
      var n := |ops| - 1;
      JoinsKeepPrefix(t, ops[..n]);
      var before := Run(t, ops[..n]);
      FreeSlotExists(before);
      if before.count < |before.slots| {
        assert ops[n].Join?;
        assert before.slots[before.count] == None;
        assert FirstFree(before.slots) == before.count;
      }
    }
  }

  /** In every run without leaves a broadcast reaches all the others. */
  lemma JoinOnlyRunsReachAll(size: nat, ops: seq<Op>, self: int)
    requires JoinsOnly(ops)
    ensures Consistent(Run(Empty(size), ops)) && ReachesAll(Run(Empty(size), ops), self)
  {
    EmptyConsistent(size);
    JoinsKeepPrefix(Empty(size), ops);
    PrefixReachesAll(Run(Empty(size), ops), self);
  }

  /** Three joins, then the first of the three leaves: the second no longer reaches the third. */
  lemma HoleIsMissed()
    ensures var t := Run(Empty(3), [Join(10), Join(11), Join(12), Leave(0)]);
            Consistent(t) && |t.slots| == 3 && t.slots[1].Some? && t.slots[2].Some? && !ReachesAll(t, 1)
  {
    var a := Step(Empty(3), Join(10));
    var b := Step(a, Join(11));
    var c := Step(b, Join(12));
    assert a.slots == [Some(Entry(10, 0)), None, None];
    assert b.slots == [Some(Entry(10, 0)), Some(Entry(11, 1)), None];
    assert c.slots == [Some(Entry(10, 0)), Some(Entry(11, 1)), Some(Entry(12, 2))];
    var ops := [Join(10), Join(11), Join(12), Leave(0)];
    assert ops[..3][..2][..1][..0] == [];
    assert ops[..3][..2][..1] == [Join(10)] && ops[..3][..2] == [Join(10), Join(11)];
    assert Run(Empty(3), []) == Empty(3);
    assert Run(Empty(3), ops[..3][..2][..1]) == a;
    assert Run(Empty(3), ops[..3][..2]) == b;
    assert Run(Empty(3), ops[..3]) == c;
    EmptyConsistent(3);
    RunConsistent(Empty(3), ops);
  }
}
