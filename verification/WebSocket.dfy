/** The WebSocket room registry: who is in which room, and who gets a copy of a broadcast. */
module WebSocket {
  import opened Wrappers
  import opened GoText

  /** Who a client belongs to. A number stands for each client id; 0 is the empty one. */
  datatype Owner = Owner(zone: string, user: string)

  datatype Registry = Registry(clients: map<int, Owner>, rooms: map<string, set<int>>)

  const EMPTY := Registry(map[], map[])

  function UserRoom(zone: string, user: string): string {
    var z, u := TrimSpace(zone), TrimSpace(user);
    if z == "" || u == "" then "" else "zone:" + z + ":user:" + u
  }

  function RoomOf(o: Owner): string { UserRoom(o.zone, o.user) }

  /** Rooms of this shape are kept for one user of one zone. */
  predicate Private(room: string) { HasPrefix(room, "zone:") && Contains(room, ":user:") }

  function Members(rooms: map<string, set<int>>, room: string): set<int> { if room in rooms then rooms[room] else {} }

  function Add(rooms: map<string, set<int>>, room: string, id: int): map<string, set<int>> {
    rooms[room := Members(rooms, room) + {id}]
  }

  /** Delete a member, and the room with its last one. */
  function Remove(rooms: map<string, set<int>>, room: string, id: int): map<string, set<int>> {
    if room !in rooms then rooms
    else if rooms[room] - {id} == {} then rooms - {room}
    else rooms[room := rooms[room] - {id}]
  }

  function RemoveEverywhere(rooms: map<string, set<int>>, id: int): map<string, set<int>> {
    map room | room in rooms && rooms[room] - {id} != {} :: rooms[room] - {id}
  }

  datatype Step = Register(id: int, owner: Owner) | Unregister(id: int) | Join(room: string, id: int) | Leave(room: string, id: int)

  function Apply(w: Registry, step: Step): Registry {
    match step
    case Register(id, owner) =>
      if id == 0 then w
      else
        Registry(w.clients[id := owner], if RoomOf(owner) == "" then w.rooms else Add(w.rooms, RoomOf(owner), id))
    case Unregister(id) => Registry(w.clients - {id}, RemoveEverywhere(w.rooms, id))
    case Join(room, id) =>
      if id !in w.clients || (Private(room) && room != RoomOf(w.clients[id])) then w
      else w.(rooms := Add(w.rooms, room, id))
    case Leave(room, id) => w.(rooms := Remove(w.rooms, room, id))
  }

  // ---------------------------------------------------------------- rooms and members

  /** A room has members, and they are registered. */
  ghost predicate RoomOk(w: Registry, room: string) {
    room in w.rooms ==> w.rooms[room] != {} && forall id | id in w.rooms[room] :: id in w.clients
  }

  /** Only the user a private room belongs to is in it. */
  ghost predicate Isolated(w: Registry, room: string) {
    Private(room) ==> forall id | id in Members(w.rooms, room) && id in w.clients :: room == RoomOf(w.clients[id])
  }

  ghost predicate Inv(w: Registry) { forall room :: RoomOk(w, room) }
  ghost predicate AllIsolated(w: Registry) { forall room :: Isolated(w, room) }

  lemma StepKeepsRoom(w: Registry, step: Step, room: string)
    requires RoomOk(w, room)
    ensures RoomOk(Apply(w, step), room)
  {
    hide UserRoom, Private;
  }

  /** The source's callers give each connection a fresh id. */
  predicate FreshId(w: Registry, step: Step) { step.Register? ==> step.id !in w.clients }

  lemma StepKeepsIsolation(w: Registry, step: Step, room: string)
    requires RoomOk(w, room) && Isolated(w, room) && FreshId(w, step)
    ensures Isolated(Apply(w, step), room)
  {
    hide UserRoom, Private;
  }

  ghost function Run(w: Registry, steps: seq<Step>): Registry
    decreases |steps|
  {
    if steps == [] then w else Run(Apply(w, steps[0]), steps[1..])
  }

  ghost predicate FreshIds(w: Registry, steps: seq<Step>)
    decreases |steps|
  {
    steps == [] || (FreshId(w, steps[0]) && FreshIds(Apply(w, steps[0]), steps[1..]))
  }

  lemma StepKeepsInv(w: Registry, step: Step)
    requires Inv(w)
    ensures Inv(Apply(w, step))
  {
    hide Apply, RoomOk;
    forall room ensures RoomOk(Apply(w, step), room) { StepKeepsRoom(w, step, room); }
  }

  /** After any calls, no room is empty and every member is a registered client. */
  lemma {:induction false} NoEmptyRooms(w: Registry, steps: seq<Step>)
    requires Inv(w)
    ensures Inv(Run(w, steps))
    decreases |steps|
  {
    hide Apply, Inv;
    if steps != [] {
      StepKeepsInv(w, steps[0]);
      NoEmptyRooms(Apply(w, steps[0]), steps[1..]);
    }
  }

  /** If no live id is registered again, every member of a private room has it as its own. */
  lemma {:induction false} PrivateRoomsStayPrivate(w: Registry, steps: seq<Step>)
    requires Inv(w) && AllIsolated(w) && FreshIds(w, steps)
    ensures AllIsolated(Run(w, steps))
    decreases |steps|
  {
    hide Apply, RoomOk, Isolated;
    if steps != [] {
      forall room ensures RoomOk(Apply(w, steps[0]), room) && Isolated(Apply(w, steps[0]), room) {
        StepKeepsRoom(w, steps[0], room);
        StepKeepsIsolation(w, steps[0], room);
      }
      PrivateRoomsStayPrivate(Apply(w, steps[0]), steps[1..]);
    }
  }

  /** Registering an id, live or not, keeps private rooms private exactly when the id is in no private room but that
      of its new owner: the old client's memberships are kept. */
  lemma RegisterKeepsIsolationExactly(w: Registry, id: int, owner: Owner)
    requires Inv(w) && AllIsolated(w) && id != 0
    ensures AllIsolated(Apply(w, Register(id, owner)))
            <==> forall room | Private(room) && id in Members(w.rooms, room) :: room == RoomOf(owner)
  {
    hide UserRoom, Private, Inv;
    var w' := Apply(w, Register(id, owner));
    if forall room | Private(room) && id in Members(w.rooms, room) :: room == RoomOf(owner) {
      forall room ensures Isolated(w', room) { assert Isolated(w, room); }
    }
    forall room | Private(room) && id in Members(w.rooms, room) && Isolated(w', room)
      ensures room == RoomOf(owner)
    {
      assert id in Members(w'.rooms, room) && w'.clients[id] == owner;
    }
  }

  // ---------------------------------------------------------------- who is in a room

  /** The call puts the client into the room: a Join of a registered client that the room is open to, or the
      registration of its owner. */
  ghost predicate Enters(clients: map<int, Owner>, step: Step, room: string, id: int) {
    || (step == Join(room, id) && id in clients && (HasPrefix(room, "zone:") && Contains(room, ":user:") ==> room == RoomOf(clients[id])))
    || (step.Register? && step.id == id && id != 0 && room != "" && room == RoomOf(step.owner))
  }

  /** The call takes the client out of the room. */
  ghost predicate Exits(step: Step, room: string, id: int) { step == Leave(room, id) || step == Unregister(id) }

  /** After each call a client is in a room exactly when the call puts it there, or it was there before and the call does
      not take it out; and each client is registered with its latest owner until it is unregistered. */
  lemma MemberStep(w: Registry, step: Step, room: string, id: int)
    ensures id in Members(Apply(w, step).rooms, room)
            <==> Enters(w.clients, step, room, id) || (id in Members(w.rooms, room) && !Exits(step, room, id))
    ensures id in Apply(w, step).clients
            <==> (step.Register? && step.id == id && id != 0) || (id in w.clients && step != Unregister(id))
    ensures id in Apply(w, step).clients ==>
              Apply(w, step).clients[id] == if step.Register? && step.id == id && id != 0 then step.owner else w.clients[id]
  {
    hide UserRoom, HasPrefix, Contains;
  }

  lemma {:induction false} RunSnoc(w: Registry, steps: seq<Step>)
    requires steps != []
    ensures Run(w, steps) == Apply(Run(w, steps[..|steps| - 1]), steps[|steps| - 1])
    decreases |steps|
  {
    hide Apply;
    if |steps| == 1 {
      assert steps[1..] == [] && steps[..0] == [];
    } else {
      RunSnoc(Apply(w, steps[0]), steps[1..]);
      assert steps[..|steps| - 1][1..] == steps[1..][..|steps| - 2];
    }
  }

  /** Call k put the client into the room and no later call took it out. */
  ghost predicate EnteredAt(steps: seq<Step>, room: string, id: int, k: nat) {
    && k < |steps| && Enters(Run(EMPTY, steps[..k]).clients, steps[k], room, id)
    && forall j | k < j < |steps| :: !Exits(steps[j], room, id)
  }

  /** After any calls a client is in a room exactly when some call put it there and none after it took it out. */
  lemma {:induction false} MemberExactly(steps: seq<Step>, room: string, id: int)
    ensures id in Members(Run(EMPTY, steps).rooms, room) <==> exists k: nat :: EnteredAt(steps, room, id, k)
    decreases |steps|
  {
    hide Enters, Exits, Apply, Run;
    if steps == [] {
      RunNothing(room, id);
    } else {
      var n := |steps| - 1;
      var front, last := steps[..n], steps[n];
      var w := Run(EMPTY, front);
      MemberExactly(front, room, id);
      RunSnoc(EMPTY, steps);
      MemberStep(w, last, room, id);
      assert forall k | 0 <= k < n :: front[..k] == steps[..k];
      assert Enters(w.clients, last, room, id) ==> EnteredAt(steps, room, id, n);
      forall k: nat ensures EnteredAt(steps, room, id, k)
                            <==> (k < n && EnteredAt(front, room, id, k) && !Exits(last, room, id)) || (k == n && Enters(w.clients, last, room, id))
      {
        if k < n { assert front[k] == steps[k] && front[..k] == steps[..k]; }
      }
    }
  }

  lemma RunNothing(room: string, id: int)
    ensures id !in Members(Run(EMPTY, []).rooms, room)
  {}

  // ---------------------------------------------------------------- whose room it is

  predicate NoColon(s: string) { ':' !in s }

  lemma TrimIsPart(s: string, c: char)
    requires c !in s
    ensures c !in TrimSpace(s)
  {
    TrimLeftPart(s, c);
    TrimRightPart(TrimLeft(s), c);
  }

  lemma {:induction false} TrimLeftPart(s: string, c: char)
    requires c !in s
    ensures c !in TrimLeft(s)
    decreases |s|
  {
    if s != "" && IsSpace(s[0]) { TrimLeftPart(s[1..], c); }
  }

  lemma {:induction false} TrimRightPart(s: string, c: char)
    requires c !in s
    ensures c !in TrimRight(s)
    decreases |s|
  {
    if s != "" && IsSpace(s[|s| - 1]) { TrimRightPart(s[..|s| - 1], c); }
  }

  /** Two owners with colon-free zones share a user room exactly when their trimmed zones and users are equal. */
  lemma UserRoomIsInjective(a: Owner, b: Owner)
    requires RoomOf(a) != "" && RoomOf(b) != "" && NoColon(a.zone) && NoColon(b.zone)
    ensures RoomOf(a) == RoomOf(b) <==> TrimSpace(a.zone) == TrimSpace(b.zone) && TrimSpace(a.user) == TrimSpace(b.user)
  {
    hide TrimSpace;
    TrimIsPart(a.zone, ':');
    TrimIsPart(b.zone, ':');
    if RoomOf(a) == RoomOf(b) {
      RoomSplits(TrimSpace(a.zone), TrimSpace(a.user), TrimSpace(b.zone), TrimSpace(b.user));
    }
  }

  lemma RoomSplits(z1: string, u1: string, z2: string, u2: string)
    requires NoColon(z1) && NoColon(z2) && "zone:" + z1 + ":user:" + u1 == "zone:" + z2 + ":user:" + u2
    ensures z1 == z2 && u1 == u2
  {
    var r1, r2 := "zone:" + z1 + ":user:" + u1, "zone:" + z2 + ":user:" + u2;
    assert r1[5 + |z1|] == ':' && r2[5 + |z2|] == ':';
    assert forall k | 5 <= k < 5 + |z1| :: r1[k] == z1[k - 5];
    assert forall k | 5 <= k < 5 + |z2| :: r2[k] == z2[k - 5];
    assert |z1| == |z2|;
    assert z1 == r1[5..5 + |z1|] && z2 == r2[5..5 + |z2|];
    assert u1 == r1[11 + |z1|..] && u2 == r2[11 + |z2|..];
  }

  lemma {:induction false} TrimLeftFirst(s: string)
    ensures var t := TrimLeft(s); t == "" || !IsSpace(t[0])
    decreases |s|
  {
    if s != "" && IsSpace(s[0]) { TrimLeftFirst(s[1..]); }
  }

  lemma {:induction false} TrimRightEnds(s: string)
    ensures var t := TrimRight(s); |t| <= |s| && (t == "" || (!IsSpace(t[|t| - 1]) && t[0] == s[0]))
    decreases |s|
  {
    if s != "" && IsSpace(s[|s| - 1]) { TrimRightEnds(s[..|s| - 1]); }
  }

  lemma TrimIsTrimmed(s: string)
    ensures Trimmed(TrimSpace(s))
  {
    TrimLeftFirst(s);
    TrimRightEnds(TrimLeft(s));
    hide TrimLeft, TrimRight;
    TrimSpaceId(TrimSpace(s));
  }

  /** What follows "zone:" in a user room. */
  function Tail(zone: string, user: string): string { TrimSpace(zone) + ":user:" + TrimSpace(user) }

  /** The text can be read as a zone and a user that meet at i. */
  predicate CutAt(t: string, i: nat) {
    && i + 6 <= |t| && t[i..i + 6] == ":user:"
    && t[..i] != "" && Trimmed(t[..i]) && t[i + 6..] != "" && Trimmed(t[i + 6..])
  }

  predicate OneCut(t: string) { forall i, j | 0 <= i < |t| && 0 <= j < |t| && CutAt(t, i) && CutAt(t, j) :: i == j }

  lemma OwnerCuts(o: Owner)
    requires RoomOf(o) != ""
    ensures var t, z := Tail(o.zone, o.user), TrimSpace(o.zone);
            RoomOf(o) == "zone:" + t && CutAt(t, |z|) && |z| < |t| && t[..|z|] == z && t[|z| + 6..] == TrimSpace(o.user)
  {
    TrimIsTrimmed(o.zone);
    TrimIsTrimmed(o.user);
    hide TrimSpace;
    var z, u := TrimSpace(o.zone), TrimSpace(o.user);
    var t := Tail(o.zone, o.user);
    assert t == z + (":user:" + u);
    assert t[|z|..] == ":user:" + u;
    assert t[|z|..|z| + 6] == ":user:" && t[|z| + 6..] == u && t[..|z|] == z;
  }

  lemma CutOwns(t: string, i: nat)
    requires CutAt(t, i)
    ensures RoomOf(Owner(t[..i], t[i + 6..])) == "zone:" + t
  {
    hide TrimSpace;
    assert t == t[..i] + t[i..i + 6] + t[i + 6..];
    assert "zone:" + t[..i] + ":user:" + t[i + 6..] == "zone:" + (t[..i] + ":user:" + t[i + 6..]);
  }

  /** Nobody else shares an owner's room exactly when its text can be cut at ":user:" into a zone and a user in one
      place only, which is read off the owner alone. */
  lemma RoomIsUnsharedExactly(o: Owner)
    requires RoomOf(o) != ""
    ensures (forall p: Owner | RoomOf(p) == RoomOf(o) :: TrimSpace(p.zone) == TrimSpace(o.zone) && TrimSpace(p.user) == TrimSpace(o.user))
            <==> OneCut(Tail(o.zone, o.user))
  {
    hide TrimSpace, CutAt, RoomOf, Tail;
    var t := Tail(o.zone, o.user);
    OwnerCuts(o);
    if OneCut(t) {
      forall p: Owner | RoomOf(p) == RoomOf(o)
        ensures TrimSpace(p.zone) == TrimSpace(o.zone) && TrimSpace(p.user) == TrimSpace(o.user)
      {
        OwnerCuts(p);
        SameTail(Tail(p.zone, p.user), t);
      }
    } else {
      var i, j :| 0 <= i < |t| && 0 <= j < |t| && CutAt(t, i) && CutAt(t, j) && i != j;
      var k := if i == |TrimSpace(o.zone)| then j else i;
      OtherOwner(o, t, k);
    }
  }

  lemma SameTail(a: string, b: string)
    requires "zone:" + a == "zone:" + b
    ensures a == b
  {
    assert a == ("zone:" + a)[5..] && b == ("zone:" + b)[5..];
  }

  lemma OtherOwner(o: Owner, t: string, k: nat)
    requires RoomOf(o) == "zone:" + t && CutAt(t, k) && k != |TrimSpace(o.zone)|
    ensures exists p: Owner :: RoomOf(p) == RoomOf(o) && TrimSpace(p.zone) != TrimSpace(o.zone)
  {
    CutOwns(t, k);
    var p := Owner(t[..k], t[k + 6..]);
    assert TrimSpace(p.zone) == t[..k];
    hide TrimSpace, RoomOf;
    assert RoomOf(p) == RoomOf(o) && |TrimSpace(p.zone)| == k;
  }

  /** With a colon in a zone, two users of different zones can share a room. */
  lemma ColonsCollide()
    ensures RoomOf(Owner("a", "user:x")) == RoomOf(Owner("a:user", "x"))
  {
    TrimSpaceId("a"); TrimSpaceId("x"); TrimSpaceId("a:user"); TrimSpaceId("user:x");
    assert "zone:" + "a" + ":user:" + "user:x" == "zone:a:user:user:x" == "zone:" + "a:user" + ":user:" + "x";
  }

  /** White space around the zone and the user does not matter, and the room of a user is named after both. */
  lemma UserRoomIsNamed(zone: string, user: string, a: string, b: string, c: string, d: string)
    requires zone != "" && !IsSpace(zone[0]) && !IsSpace(zone[|zone| - 1])
    requires user != "" && !IsSpace(user[0]) && !IsSpace(user[|user| - 1])
    requires Blank(a) && Blank(b) && Blank(c) && Blank(d)
    ensures UserRoom(a + (zone + b), c + (user + d)) == "zone:" + zone + ":user:" + user
    ensures UserRoom(a, user) == "" && UserRoom(zone, a) == ""
  {
    TrimPadding(a, zone, b);
    TrimPadding(c, user, d);
    TrimBlank(a);
    hide TrimSpace;
  }

  lemma UserRoomIsPrivate(o: Owner)
    requires RoomOf(o) != ""
    ensures Private(RoomOf(o))
  {
    var z := TrimSpace(o.zone);
    var room := RoomOf(o);
    assert room == "zone:" + z + ":user:" + TrimSpace(o.user);
    assert room[5 + |z|..] == ":user:" + TrimSpace(o.user);
    assert ":user:" <= room[5 + |z|..];
    assert room[..5] == "zone:";
  }

  /** Whatever happened, with fresh ids a user's room holds clients of that user and zone only, if the room can be cut in
      one place only or the zones hold no colon. */
  lemma UserRoomHoldsItsUser(steps: seq<Step>, o: Owner, id: int)
    requires FreshIds(EMPTY, steps) && RoomOf(o) != ""
    requires var w := Run(EMPTY, steps); id in Members(w.rooms, RoomOf(o)) && id in w.clients
    requires OneCut(Tail(o.zone, o.user)) || (NoColon(o.zone) && NoColon(Run(EMPTY, steps).clients[id].zone))
    ensures var client := Run(EMPTY, steps).clients[id];
            TrimSpace(client.zone) == TrimSpace(o.zone) && TrimSpace(client.user) == TrimSpace(o.user)
  {
    hide Run, FreshIds, TrimSpace, OneCut;
    PrivateRoomsStayPrivate(EMPTY, steps);
    UserRoomIsPrivate(o);
    var w := Run(EMPTY, steps);
    assert Isolated(w, RoomOf(o));
    if OneCut(Tail(o.zone, o.user)) { RoomIsUnsharedExactly(o); } else { UserRoomIsInjective(o, w.clients[id]); }
  }

  // ---------------------------------------------------------------- the manager object

  /** `at` is None for the zero time. */
  datatype Message = Message(room: string, body: string, at: Option<int>)

  /** A connection: `capacity` is its channel's buffer size, None while there is no channel. */
  class Client {
    const id: int
    const owner: Owner
    var capacity: Option<nat>
    var queue: seq<Message>
    var closed: bool

    constructor (id: int, owner: Owner, capacity: Option<nat>)
      ensures this.id == id && this.owner == owner && this.capacity == capacity && queue == [] && !closed
    {
      this.id, this.owner := id, owner;
      this.capacity, queue, closed := capacity, [], false;
    }

    predicate HasSpace()
      reads this
    {
      capacity.Some? && |queue| < capacity.value
    }
  }

  /** The rooms after the loop of Unregister has visited the rooms in `done`. */
  function RemovedIn(rooms: map<string, set<int>>, done: set<string>, id: int): map<string, set<int>> {
    map room | room in rooms && (room in done ==> rooms[room] - {id} != {}) :: if room in done then rooms[room] - {id} else rooms[room]
  }

  lemma RemovedInMore(rooms: map<string, set<int>>, done: set<string>, room: string, id: int)
    requires room in rooms && room !in done
    ensures Remove(RemovedIn(rooms, done, id), room, id) == RemovedIn(rooms, done + {room}, id)
  {}

  lemma SomeMember(s: set<int>)
    requires s != {}
    ensures exists id: int :: id in s
  {
    assert (forall id: int :: id !in s) ==> s == {};
  }

  lemma RegisterMembers(w: Registry, id: int, owner: Owner)
    ensures forall r, i :: i in Members(Apply(w, Register(id, owner)).rooms, r)
                           <==> i in Members(w.rooms, r) || (id != 0 && i == id && r != "" && r == RoomOf(owner))
  {
    forall r, i { MemberStep(w, Register(id, owner), r, i); }
  }

  lemma UnregisterMembers(w: Registry, id: int)
    ensures forall r, i :: i in Members(Apply(w, Unregister(id)).rooms, r) <==> i in Members(w.rooms, r) && i != id
  {
    forall r, i { MemberStep(w, Unregister(id), r, i); }
  }

  lemma JoinMembers(w: Registry, room: string, id: int)
    ensures forall r, i :: i in Members(Apply(w, Join(room, id)).rooms, r)
                           <==> i in Members(w.rooms, r)
                                || (r == room && i == id && id in w.clients
                                    && (HasPrefix(room, "zone:") && Contains(room, ":user:") ==> room == RoomOf(w.clients[id])))
  {
    forall r, i { MemberStep(w, Join(room, id), r, i); }
  }

  lemma LeaveMembers(w: Registry, room: string, id: int)
    ensures forall r, i :: i in Members(Apply(w, Leave(room, id)).rooms, r) <==> i in Members(w.rooms, r) && !(r == room && i == id)
  {
    forall r, i { MemberStep(w, Leave(room, id), r, i); }
  }

  class Manager {
    var clients: map<int, Client>
    var rooms: map<string, set<int>>

    ghost function State(): Registry
      reads this
    {
      Registry(map id | id in clients :: clients[id].owner, rooms)
    }

    /** Registered clients are stored under their own id, and their channels are open. */
    ghost predicate Valid()
      reads this, clients.Values
    {
      && Inv(State())
      && forall id | id in clients :: clients[id].id == id && clients[id].capacity.Some? && !clients[id].closed
    }

    constructor ()
      ensures Valid() && State() == EMPTY
    {
      clients, rooms := map[], map[];
    }

    /** A room is created with its first member. */
    method AddMember(room: string, id: int)
      modifies this`rooms
      ensures rooms == Add(old(rooms), room, id)
    {
      if room !in rooms {
        rooms := rooms[room := {}];
      }
      rooms := rooms[room := rooms[room] + {id}];
    }

    /** A room is deleted with its last member. */
    method RemoveMember(room: string, id: int)
      requires room in rooms
      modifies this`rooms
      ensures rooms == Remove(old(rooms), room, id)
    {
      var members := rooms[room] - {id};
      rooms := rooms[room := members];
      if |members| == 0 {
        rooms := rooms - {room};
      }
    }

    method Register(client: Client) returns (ok: bool)
      requires Valid() && !client.closed
      modifies this, client`capacity
      ensures Valid() && ok == (client.id != 0)
      ensures State() == Apply(old(State()), Step.Register(client.id, client.owner))
      ensures client.capacity == if ok && old(client.capacity).None? then Some(32) else old(client.capacity)
      ensures ok ==> clients == old(clients)[client.id := client]
      ensures !ok ==> clients == old(clients)
      ensures forall r, i ::
                i in Members(rooms, r) <==> i in Members(old(rooms), r) || (ok && i == client.id && r != "" && r == RoomOf(client.owner))
    {
      hide UserRoom, Private, Inv, Add;
      StepKeepsInv(State(), Step.Register(client.id, client.owner));
      RegisterMembers(State(), client.id, client.owner);
      if client.id == 0 {
        return false;
      }
      if client.capacity.None? {
        client.capacity := Some(32);
      }
      clients := clients[client.id := client];
      var room := RoomOf(client.owner);
      if room != "" {
        AddMember(room, client.id);
      }
      ok := true;
      assert State().clients == old(State()).clients[client.id := client.owner];
    }

    method Unregister(id: int)
      requires Valid()
      modifies this, if id in clients then {clients[id]} else {}
      ensures Valid() && State() == Apply(old(State()), Step.Unregister(id))
      ensures clients == old(clients) - {id}
      ensures forall r, i :: i in Members(rooms, r) <==> i in Members(old(rooms), r) && i != id
      ensures id in old(clients) ==> old(clients)[id].closed && old(clients)[id].queue == old(clients[id].queue)
    {
      hide UserRoom, Private, Inv, RemoveEverywhere;
      StepKeepsInv(State(), Step.Unregister(id));
      UnregisterMembers(State(), id);
      if id in clients {
        clients[id].closed := true;
        clients := clients - {id};
      }
      assert State().clients == old(State()).clients - {id};
      LeaveAll(id);
    }

    method LeaveAll(id: int)
      modifies this`rooms
      ensures rooms == RemoveEverywhere(old(rooms), id)
    {
      hide Remove;
      var todo := rooms.Keys;
      assert rooms == RemovedIn(rooms, {}, id);
      while todo != {}
        invariant todo <= old(rooms).Keys
        invariant rooms == RemovedIn(old(rooms), old(rooms).Keys - todo, id)
      {
        var room: string :| room in todo;
        RemovedInMore(old(rooms), old(rooms).Keys - todo, room, id);
        assert old(rooms).Keys - todo + {room} == old(rooms).Keys - (todo - {room});
        RemoveMember(room, id);
        todo := todo - {room};
      }
    }

    method Join(room: string, id: int)
      requires Valid()
      modifies this`rooms
      ensures Valid() && State() == Apply(old(State()), Step.Join(room, id))
      ensures forall r, i ::
                i in Members(rooms, r)
                <==> i in Members(old(rooms), r)
                     || (r == room && i == id && id in clients
                         && (HasPrefix(room, "zone:") && Contains(room, ":user:") ==> room == RoomOf(clients[id].owner)))
    {
      hide UserRoom, Private, Inv, Add;
      StepKeepsInv(State(), Step.Join(room, id));
      JoinMembers(State(), room, id);
      if id !in clients {
        return;
      }
      if Private(room) && room != RoomOf(clients[id].owner) {
        return;
      }
      AddMember(room, id);
      assert State().clients == old(State()).clients;
    }

    method Leave(room: string, id: int)
      requires Valid()
      modifies this`rooms
      ensures Valid() && State() == Apply(old(State()), Step.Leave(room, id))
      ensures forall r, i :: i in Members(rooms, r) <==> i in Members(old(rooms), r) && !(r == room && i == id)
    {
      hide UserRoom, Private, Inv;
      StepKeepsInv(State(), Step.Leave(room, id));
      LeaveMembers(State(), room, id);
      if room in rooms {
        RemoveMember(room, id);
      }
      assert State().clients == old(State()).clients;
    }

    method IsMember(room: string, id: int) returns (r: bool)
      requires Valid()
      ensures r <==> room in rooms && id in rooms[room]
      ensures r ==> id in clients
    {
      assert RoomOk(State(), room);
      r := room in rooms && id in rooms[room];
    }

    method IsUserMember(room: string, user: string) returns (r: bool)
      requires Valid()
      ensures r <==> room in rooms && exists id :: id in rooms[room] && id in clients && clients[id].owner.user == user
    {
      if room !in rooms {
        return false;
      }
      var todo := rooms[room];
      while todo != {}
        invariant todo <= rooms[room]
        invariant forall id | id in rooms[room] && id !in todo && id in clients :: clients[id].owner.user != user
      {
        SomeMember(todo);
        var id: int :| id in todo;
        if id in clients && clients[id].owner.user == user {
          return true;
        }
        todo := todo - {id};
      }
      return false;
    }

    /** Each member with room in its buffer gets exactly one copy, and nobody else gets anything. */
    method Broadcast(room: string, message: Message, now: int)
      requires Valid()
      modifies clients.Values
      ensures Valid()
      ensures forall id | id in clients ::
                var copy := Message(if message.room == "" then room else message.room, message.body,
                                    if message.at == None then Some(now) else message.at);
                clients[id].queue == if id in Members(rooms, room) && old(clients[id].HasSpace())
                                     then old(clients[id].queue) + [copy] else old(clients[id].queue)
    {
      hide UserRoom, Private, Inv;
      var sent := message;
      if sent.at.None? {
        sent := sent.(at := Some(now));
      }
      if sent.room == "" {
        sent := sent.(room := room);
      }
      var todo := Members(rooms, room);
      while todo != {}
        invariant todo <= Members(rooms, room)
        invariant forall id | id in clients ::
                    && clients[id].capacity == old(clients[id].capacity) && clients[id].closed == old(clients[id].closed)
                    && clients[id].queue == if id in Members(rooms, room) && id !in todo && old(clients[id].HasSpace())
                                            then old(clients[id].queue) + [sent] else old(clients[id].queue)
      {
        SomeMember(todo);
        var id: int :| id in todo;
        if id in clients && clients[id].HasSpace() {
          clients[id].queue := clients[id].queue + [sent];
        }
        todo := todo - {id};
      }
    }
  }
}
