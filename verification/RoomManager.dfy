/**
  RoomManager (Manager/RoomManager.cpp) over the rooms and players, each
  operation against the step of RoomWorld it performs.
 */
module RoomManagers {
  import opened Wire
  import opened RoomWorld
  import opened VitalSigns
  import opened Rooms
  import M = MapDatas

  // How a handler ends: the code may go on to use the null pointer of a room or
  // an attacker that is not there, or loading the map may throw.
  datatype Outcome = Finished | NullRoom | NullAttacker | MapError

  // -------------------------------------------- objects and the abstract state

  function ToId(j: Job<Player>): Job<Id> {
    match j
    case LeaveJob(p) => LeaveJob(p.id)
    case RespawnJob(p) => RespawnJob(p.id)
  }

  function ToIds(jobs: seq<Job<Player>>): (ids: seq<Job<Id>>)
    ensures |ids| == |jobs| && forall i :: 0 <= i < |jobs| ==> ids[i] == ToId(jobs[i])
  {
    seq(|jobs|, i requires 0 <= i < |jobs| => ToId(jobs[i]))
  }

  ghost predicate RoomMatches(people: set<Player>, players: map<Id, Player>, jobs: seq<Job<Player>>, s: RoomState) {
    && (forall i :: i in players ==> players[i].id == i != 0 && players[i] in people)
    && (forall j | j in jobs :: j.p in people)
    && Names(players) == s.players && ToIds(jobs) == s.jobs
  }

  ghost predicate PlayerMatches(rooms: map<string, Room>, w: World, p: Player, room: Room?, inbox: seq<Notice>) {
    && p.id != 0 && p.id in w.names && w.names[p.id] == p.name
    && (room == null <==> p.id !in w.at)
    && (p.id in w.at ==> w.at[p.id] in rooms && rooms[w.at[p.id]] == room)
    && View(inbox) == ViewOf(w.views, p.id)
  }

  lemma {:induction false} RoomNew(people: set<Player>)
    ensures RoomMatches(people, map[], [], RoomState(map[], []))
  {
  }

  lemma {:induction false} RoomPush(people: set<Player>, players: map<Id, Player>, jobs: seq<Job<Player>>,
      s: RoomState, j: Job<Player>)
    requires RoomMatches(people, players, jobs, s) && j.p in people
    ensures RoomMatches(people, players, jobs + [j], s.(jobs := s.jobs + [ToId(j)]))
  {
  }

  lemma {:induction false} RoomEnter(people: set<Player>, players: map<Id, Player>, jobs: seq<Job<Player>>,
      s: RoomState, p: Player)
    requires RoomMatches(people, players, jobs, s) && p in people && p.id != 0
    ensures p.id in players <==> p.id in s.players
    ensures RoomMatches(people, if p.id in players then players else players[p.id := p], jobs, Entered(s, p.id, p.name))
  {
  }

  lemma {:induction false} RoomLeave(people: set<Player>, players: map<Id, Player>, jobs: seq<Job<Player>>,
      s: RoomState, id: Id)
    requires RoomMatches(people, players, jobs, s)
    ensures id in players <==> id in s.players
    ensures RoomMatches(people, players - {id}, jobs, s.(players := s.players - {id}))
  {
    assert id !in players ==> s.players - {id} == s.players;
  }

  lemma {:induction false} RoomPop(people: set<Player>, players: map<Id, Player>, jobs: seq<Job<Player>>, s: RoomState)
    requires RoomMatches(people, players, jobs, s) && jobs != []
    ensures jobs[0].p in people && s.jobs != [] && s.jobs[0] == ToId(jobs[0])
    ensures RoomMatches(people, players, jobs[1..], s.(jobs := s.jobs[1..]))
  {
    assert ToIds(jobs[1..]) == ToIds(jobs)[1..];
  }

  // The same player under a change of the world elsewhere.
  lemma {:induction false} PlayerKept(rooms: map<string, Room>, rooms': map<string, Room>, w: World, v: World,
      p: Player, room: Room?, inbox: seq<Notice>)
    requires PlayerMatches(rooms, w, p, room, inbox)
    requires v.names == w.names && ViewOf(v.views, p.id) == ViewOf(w.views, p.id)
    requires (p.id in v.at <==> p.id in w.at) && (p.id in w.at ==> v.at[p.id] == w.at[p.id])
    requires forall n :: n in rooms ==> n in rooms' && rooms'[n] == rooms[n]
    ensures PlayerMatches(rooms', v, p, room, inbox)
  {
  }

  lemma {:induction false} PlayerCreated(rooms: map<string, Room>, rooms': map<string, Room>, w: World, name: string,
      p: Player, room: Room?, inbox: seq<Notice>)
    requires PlayerMatches(rooms, w, p, room, inbox) && forall n :: n in rooms ==> n in rooms' && rooms'[n] == rooms[n]
    ensures PlayerMatches(rooms', Created(w, name), p, room, inbox)
  {
  }

  lemma {:induction false} PlayerPlaced(rooms: map<string, Room>, w: World, p: Player, room: Room?, inbox: seq<Notice>)
    requires PlayerMatches(rooms, w, p, room, inbox)
    ensures p.id != 0 && NameOf(w, p.id) == p.name
    ensures room == null <==> p.id !in w.at
    ensures p.id in w.at ==> w.at[p.id] in rooms && rooms[w.at[p.id]] == room
  {
  }

  lemma {:induction false} PlayerLeft(rooms: map<string, Room>, w: World, p: Player, room: Room?, inbox: seq<Notice>)
    requires Placed(w) && PlayerMatches(rooms, w, p, room, inbox)
    ensures PlayerMatches(rooms, Left(w, p.id), p, null, inbox)
  {
  }

  lemma {:induction false} PlayerMoved(rooms: map<string, Room>, w: World, p: Player, room: Room?, name: string,
      inbox: seq<Notice>)
    requires Placed(w) && PlayerMatches(rooms, w, p, room, inbox) && name in rooms && name in w.rooms
    ensures PlayerMatches(rooms, Moved(w, p.id, name), p, rooms[name], inbox)
  {
  }

  lemma {:induction false} PlayerTold(rooms: map<string, Room>, w: World, v: World, p: Player, room: Room?,
      inbox: seq<Notice>, n: Notice)
    requires PlayerMatches(rooms, w, p, room, inbox)
    requires v.names == w.names && v.at == w.at
    requires ViewOf(v.views, p.id) == Shown(ViewOf(w.views, p.id), n)
    ensures PlayerMatches(rooms, v, p, room, inbox + [n])
  {
    ViewAppend(inbox, n);
  }

  lemma {:induction false} RoomRoster(people: set<Player>, players: map<Id, Player>, jobs: seq<Job<Player>>,
      s: RoomState)
    requires RoomMatches(people, players, jobs, s)
    ensures Names(players) == s.players && players.Keys == s.players.Keys
    ensures forall i :: i in players ==> players[i].id == i != 0 && players[i] in people
  {
    assert Names(players).Keys == players.Keys;
  }

  lemma {:induction false} LeftFacts(w: World, p: Id)
    requires Placed(w)
    ensures p in w.at ==> w.at[p] in w.rooms
    ensures p !in w.at ==> Left(w, p) == w
    ensures var v := Left(w, p);
            && v.names == w.names && v.views == w.views && v.at == w.at - {p} && v.rooms.Keys == w.rooms.Keys
            && (forall n :: n in w.rooms ==>
                  v.rooms[n] == LeftRoom(w, p, n))
  {
  }

  lemma {:induction false} RemovedFacts(w: World, room: string, p: Id)
    requires Placed(w) && room in w.rooms
    ensures p !in w.rooms[room].players ==> Removed(w, room, p) == w
    ensures var v, s := Removed(w, room, p), w.rooms[room];
            && v.names == w.names && v.at == w.at && v.rooms == w.rooms[room := s.(players := s.players - {p})]
            && v.rooms.Keys == w.rooms.Keys && Placed(v)
            && forall q :: ViewOf(v.views, q) ==
                 if p in s.players && q in s.players.Keys - {p} then Shown(ViewOf(w.views, q), LeaveNotice(p))
                 else ViewOf(w.views, q)
  {
    assert p !in w.rooms[room].players ==> w.rooms[room].players - {p} == w.rooms[room].players;
    assert w.rooms[room := w.rooms[room]] == w.rooms;
  }

  // A player's roster after those who remain in a room have been told.
  lemma {:induction false} PlayerAfterLeave(rooms: map<string, Room>, w: World, name: string, id: Id, p: Player,
      room: Room?, inbox: seq<Notice>)
    requires Placed(w) && name in w.rooms && PlayerMatches(rooms, w, p, room, inbox)
    ensures var players := w.rooms[name].players;
            PlayerMatches(rooms, Removed(w, name, id), p, room,
                          Sent(inbox, id in players && p.id in players && p.id != id, LeaveNotice(id)))
  {
    hide PlayerMatches, Removed;
    RemovedFacts(w, name, id);
    if id in w.rooms[name].players && p.id in w.rooms[name].players.Keys - {id} {
      PlayerTold(rooms, w, Removed(w, name, id), p, room, inbox, LeaveNotice(id));
    } else {
      PlayerKept(rooms, rooms, w, Removed(w, name, id), p, room, inbox);
    }
  }

  // A hit that leaves hp is the death step, or none.
  function Struck(w: World, id: Id, attacker: Option<Id>, hp: U32): World
    requires Placed(w)
  {
    if hp == 0 && id in w.at && attacker.Some? then Do(w, Die(id)) else w
  }

  // How it ends: a death needs the attacker, any hit the room.
  function StruckOutcome(w: World, id: Id, attacker: Option<Id>, hp: U32): Outcome {
    if id !in w.at then NullRoom else if hp == 0 && attacker.None? then NullAttacker else Finished
  }

  lemma {:induction false} NotifiedFacts(w: World, p: Id, name: string)
    requires name in w.rooms
    ensures var v := Notified(w, p, name);
            && v.names == w.names && v.at == w.at && v.rooms == w.rooms
            && forall q :: ViewOf(v.views, q) ==
                 if q in w.rooms[name].players.Keys - {p} then Shown(ViewOf(w.views, q), JoinNotice(p, NameOf(w, p)))
                 else ViewOf(w.views, q)
  {
  }

  lemma {:induction false} PlayerAfterJoin(rooms: map<string, Room>, w: World, name: string, id: Id, p: Player,
      room: Room?, inbox: seq<Notice>)
    requires name in w.rooms && PlayerMatches(rooms, w, p, room, inbox)
    ensures PlayerMatches(rooms, Notified(w, id, name), p, room,
                          Sent(inbox, p.id in w.rooms[name].players && p.id != id, JoinNotice(id, NameOf(w, id))))
  {
    hide PlayerMatches, Notified;
    NotifiedFacts(w, id, name);
    if p.id in w.rooms[name].players.Keys - {id} {
      PlayerTold(rooms, w, Notified(w, id, name), p, room, inbox, JoinNotice(id, NameOf(w, id)));
    } else {
      PlayerKept(rooms, rooms, w, Notified(w, id, name), p, room, inbox);
    }
  }

  lemma {:induction false} MovedFacts(w: World, p: Id, name: string)
    requires Placed(w) && name in w.rooms
    ensures var v := Moved(w, p, name);
            && v.names == w.names && v.views == w.views && v.at == w.at[p := name] && v.rooms.Keys == w.rooms.Keys
            && (forall n :: n in w.rooms ==> v.rooms[n] == MovedRoom(w, p, name, n))
  {
    LeftFacts(w, p);
  }

  lemma {:induction false} MovedRooms(w: World, p: Id, name: string)
    requires Placed(w) && name in w.rooms
    ensures Placed(Moved(w, p, name)) && Moved(w, p, name).rooms.Keys == w.rooms.Keys
    ensures forall n :: n in w.rooms ==> Moved(w, p, name).rooms[n] == MovedRoom(w, p, name, n)
  {
    hide Moved, MovedRoom, Placed;
    MovedFacts(w, p, name);
  }

  lemma {:induction false} RoomMoved(people: set<Player>, players: map<Id, Player>, jobs: seq<Job<Player>>, w: World,
      p: Player, name: string, n: string)
    requires n in w.rooms && RoomMatches(people, players, jobs, w.rooms[n])
    requires p in people && p.id != 0 && NameOf(w, p.id) == p.name
    ensures RoomMatches(people, if n == name && p.id !in players then players[p.id := p] else players,
                        if In(w, p.id, n) then jobs + [LeaveJob(p)] else jobs, MovedRoom(w, p.id, name, n))
  {
    hide RoomMatches, Entered, LeftRoom;
    RoomLeft(people, players, jobs, w, p, n);
    RoomEnter(people, players, if In(w, p.id, n) then jobs + [LeaveJob(p)] else jobs, LeftRoom(w, p.id, n), p);
  }

  lemma {:induction false} LeftRooms(w: World, p: Id)
    requires Placed(w)
    ensures Placed(Left(w, p)) && Left(w, p).rooms.Keys == w.rooms.Keys
    ensures forall n :: n in w.rooms ==> Left(w, p).rooms[n] == LeftRoom(w, p, n)
  {
    hide Left, Placed;
    LeftFacts(w, p);
  }

  // What leaving does to one room.
  function LeftRoom(w: World, p: Id, n: string): RoomState
    requires n in w.rooms
  {
    if In(w, p, n) then w.rooms[n].(jobs := w.rooms[n].jobs + [LeaveJob(p)]) else w.rooms[n]
  }

  lemma {:induction false} RoomLeft(people: set<Player>, players: map<Id, Player>, jobs: seq<Job<Player>>, w: World,
      p: Player, n: string)
    requires n in w.rooms && RoomMatches(people, players, jobs, w.rooms[n]) && p in people
    ensures RoomMatches(people, players, if In(w, p.id, n) then jobs + [LeaveJob(p)] else jobs, LeftRoom(w, p.id, n))
  {
    hide RoomMatches;
    RoomPush(people, players, jobs, w.rooms[n], LeaveJob(p));
  }

  // What a move does to one room: the leave job, then the entry.
  function MovedRoom(w: World, p: Id, name: string, n: string): RoomState
    requires n in w.rooms
  {
    var s := LeftRoom(w, p, n);
    if n == name then Entered(s, p, NameOf(w, p)) else s
  }

  lemma {:induction false} PlayerNotMoved(rooms: map<string, Room>, w: World, id: Id, name: string, p: Player,
      room: Room?, inbox: seq<Notice>)
    requires Placed(w) && name in w.rooms && PlayerMatches(rooms, w, p, room, inbox) && p.id != id
    ensures PlayerMatches(rooms, Moved(w, id, name), p, room, inbox)
  {
    hide PlayerMatches, Moved;
    MovedFacts(w, id, name);
    PlayerKept(rooms, rooms, w, Moved(w, id, name), p, room, inbox);
  }

  lemma {:induction false} PlayerNotLeft(rooms: map<string, Room>, w: World, id: Id, p: Player, room: Room?,
      inbox: seq<Notice>)
    requires Placed(w) && PlayerMatches(rooms, w, p, room, inbox) && p.id != id
    ensures PlayerMatches(rooms, Left(w, id), p, room, inbox)
  {
    hide PlayerMatches, Left;
    LeftFacts(w, id);
    PlayerKept(rooms, rooms, w, Left(w, id), p, room, inbox);
  }

  lemma {:induction false} StartInv(names: Roster)
    ensures Inv(Start(names))
  {
  }

  lemma {:induction false} PlayerStarts(p: Player, names: Roster)
    requires p.id != 0 && p.id in names && names[p.id] == p.name
    ensures PlayerMatches(map[], Start(names), p, null, [])
  {
  }

  // One more load of the map; a file that cannot be opened adds nothing.
  ghost predicate MapLoaded(map0: seq<M.Row>, index0: seq<M.Cell>, map1: seq<M.Row>, index1: seq<M.Cell>,
                            file: Option<string>) {
    var l := if file.Some? then M.LoadText(file.value) else M.Load([], [], [], true);
    map1 == map0 + l.rows && index1 == index0 + l.index
  }

  // What a create request does to the walkable index.
  lemma {:induction false} CreateKeepsIndex(map0: seq<M.Row>, index0: seq<M.Cell>, map1: seq<M.Row>,
      index1: seq<M.Cell>, text: string)
    requires M.Exact(map0, index0) && MapLoaded(map0, index0, map1, index1, Some(text))
    ensures var l := M.LoadText(text);
            M.Exact(map1, index1)
            <==> (map0 == [] || forall x, z :: !M.Walkable(l.rows, x, z)) && 1 !in l.partial
  {
    M.LoadKeepsExact(map0, index0, text);
  }

  class RoomManager {
    var rooms: map<string, Room>
    ghost var places: set<Room>     // the rooms
    ghost const people: set<Player> // all players
    ghost const byId: map<Id, Player>
    ghost const byVitals: map<Vitals, Player>
    const mapData: M.MapData        // GMapData, loaded again by every new room
    ghost var world: World          // the state they stand for

    constructor (ghost people: set<Player>, mapData: M.MapData)
      requires forall p | p in people :: p.id != 0 && p.room == null && p.inbox == []
      requires forall p, q | p in people && q in people && (p.id == q.id || p.vitals == q.vitals) :: p == q
      ensures Valid() && this.people == people && this.mapData == mapData && rooms == map[]
      ensures world == Start(world.names) && Inv(world) && OwnVitals()
    {
      this.mapData := mapData;
      rooms, places := map[], {};
      this.people := people;
      byId := map p | p in people :: p.id := p;
      byVitals := map p | p in people :: p.vitals := p;
      world := Start(map p | p in people :: p.id := p.name);
      new;
      hide PlayerMatches, Inv;
      StartInv(world.names);
      forall p | p in people ensures PlayerOk(p) {
        PlayerStarts(p, world.names);
      }
    }

    ghost predicate RoomOk(n: string)
      requires n in rooms
      reads this, rooms[n]
    {
      n in world.rooms && RoomMatches(people, rooms[n].players, rooms[n].jobs, world.rooms[n])
    }

    ghost predicate PlayerOk(p: Player)
      reads this, p
    {
      PlayerMatches(rooms, world, p, p.room, p.inbox)
    }

    ghost predicate Valid()
      reads this, places, people
    {
      && Placed(world)
      && rooms.Keys == world.rooms.Keys
      && (forall n :: n in rooms ==> rooms[n] in places && rooms[n].name == n && RoomOk(n))
      && (forall p | p in people :: PlayerOk(p))
      && (forall p | p in people :: p.id in byId && byId[p.id] == p)
    }

    // A session of the room.
    ghost predicate Hears(p: Player, room: Room?)
      reads room
    {
      room != null && p.id in room.players
    }

    // No two players share their health.
    ghost predicate OwnVitals() {
      forall p | p in people :: p.vitals in byVitals && byVitals[p.vitals] == p
    }

    // A player that a room still holds although the player points elsewhere has
    // its leave job in that room's queue.
    lemma {:induction false} StalePlayersLeave(n: string, i: Id)
      requires Valid() && Inv(world) && n in rooms && i in rooms[n].players && rooms[n].players[i].room != rooms[n]
      ensures LeaveJob(rooms[n].players[i]) in rooms[n].jobs
    {
      hide Names, View;
      var r, p := rooms[n], rooms[n].players[i];
      RoomRoster(people, r.players, r.jobs, world.rooms[n]);
      PlayerPlaced(rooms, world, p, p.room, p.inbox);
      assert Present(world.rooms[n], i) && !In(world, i, n);
      var k :| 0 <= k < |world.rooms[n].jobs| && world.rooms[n].jobs[k] == LeaveJob(i);
      assert ToIds(r.jobs)[k] == ToId(r.jobs[k]);
      assert r.jobs[k] in r.jobs && r.jobs[k].p in people && byId[i] == r.jobs[k].p == p;
    }

    lemma {:induction false} Numbered()
      requires Valid()
      ensures forall p | p in people :: p.id != 0
    {
      forall p | p in people ensures p.id != 0 {
        assert PlayerOk(p);
      }
    }

    lemma {:induction false} Known()
      requires Valid()
      ensures Placed(world) && rooms.Keys == world.rooms.Keys
    {
    }

    // file is what the map file holds, if it can be opened: constructing the
    // room loads it, even for a name that is taken.
    method HandleCreateRoom(roomName: string, file: Option<string>) returns (r: Outcome)
      requires Valid()
      modifies `rooms, `places, `world, mapData
      ensures Valid()
      ensures r == if file.Some? && !M.LoadText(file.value).complete then MapError else Finished
      ensures r == MapError ==> world == old(world) && rooms == old(rooms)
      ensures r == Finished ==> world == Created(old(world), roomName) && roomName in rooms
      ensures roomName in old(rooms) ==> rooms == old(rooms)
      ensures roomName !in old(rooms) && r == Finished ==>
                fresh(rooms[roomName]) && rooms == old(rooms)[roomName := rooms[roomName]]
      ensures fresh(places - old(places))
      ensures MapLoaded(old(mapData.walkableMap), old(mapData.walkablePosition),
                        mapData.walkableMap, mapData.walkablePosition, file)
    {
      hide Valid, M.LoadText, Created;
      Known();
      var loaded := mapData.LoadMapFromTxt(file);
      if loaded == M.Thrown {
        return MapError;
      }
      r := Finished;
      Insert(roomName);
    }

    // m_rooms.insert of a new room
    method Insert(roomName: string)
      requires Valid()
      modifies `rooms, `places, `world
      ensures Valid() && roomName in rooms
      ensures world == Created(old(world), roomName)
      ensures roomName in old(rooms) ==> rooms == old(rooms)
      ensures roomName !in old(rooms) ==> fresh(rooms[roomName]) && rooms == old(rooms)[roomName := rooms[roomName]]
      ensures fresh(places - old(places))
    {
      hide PlayerMatches, RoomMatches, Names, ToIds;
      var room := new Room(roomName);
      RoomNew(people);
      if roomName !in rooms {
        rooms, places := rooms[roomName := room], places + {room};
        world := Created(world, roomName);
        forall p | p in people ensures PlayerOk(p) {
          PlayerCreated(old(rooms), rooms, old(world), roomName, p, p.room, p.inbox);
        }
      }
    }

    method HandleLeaveGameRoom(myPlayer: Player)
      requires Valid() && myPlayer in people
      modifies `world, places`jobs, myPlayer`room
      ensures Valid()
      ensures world == Do(old(world), Leave(myPlayer.id))
      ensures Inv(old(world)) ==> Inv(world)
    {
      hide Valid, Left, Inv;
      Known();
      LeaveRoom(myPlayer, false);
      if Inv(old(world)) {
        StepInv(old(world), Leave(myPlayer.id));
      }
    }

    // myPlayer->LeaveRoom(), or EnterRoom of no room, which comes to the same
    method LeaveRoom(myPlayer: Player, entering: bool)
      requires Valid() && myPlayer in people
      modifies `world, places`jobs, myPlayer`room
      ensures Valid()
      ensures world == Left(old(world), myPlayer.id)
    {
      hide RoomMatches, PlayerMatches, Left, LeftRoom, Placed, In;
      ghost var id := myPlayer.id;
      LeftRooms(world, id);
      PlayerLeft(rooms, world, myPlayer, myPlayer.room, myPlayer.inbox);
      LeaveObjects(myPlayer, entering);
      world := Left(world, id);
      forall n | n in rooms ensures RoomOk(n) {
        RoomLeft(people, rooms[n].players, old(rooms[n].jobs), old(world), myPlayer, n);
      }
      forall p | p in people ensures PlayerOk(p) {
        if p != myPlayer {
          PlayerNotLeft(rooms, old(world), id, p, p.room, p.inbox);
        }
      }
    }

    // What that does to the objects.
    method LeaveObjects(myPlayer: Player, entering: bool)
      requires Valid() && myPlayer in people
      modifies places`jobs, myPlayer`room
      ensures myPlayer.room == null
      ensures forall n :: n in rooms ==>
                rooms[n].jobs == if In(world, myPlayer.id, n) then old(rooms[n].jobs) + [LeaveJob(myPlayer)]
                                 else old(rooms[n].jobs)
    {
      hide RoomMatches, PlayerMatches, Placed;
      PlayerPlaced(rooms, world, myPlayer, myPlayer.room, myPlayer.inbox);
      if entering {
        myPlayer.EnterRoom(null);
      } else {
        myPlayer.LeaveRoom();
      }
    }

    // For a name that is neither there nor created, a null room is stored,
    // entered and used.
    method HandleJoinGameRoom(myPlayer: Player, name: string, isCreate: bool, file: Option<string>)
      returns (r: Outcome)
      requires Valid() && myPlayer in people
      modifies `rooms, `places, `world, places, people`room, people`inbox, mapData
      ensures Valid() && fresh(places - old(places))
      ensures r == (if isCreate && file.Some? && !M.LoadText(file.value).complete then MapError
                    else if isCreate || name in old(rooms) then Finished
                    else NullRoom)
      ensures r == MapError ==> world == old(world)
      ensures r == NullRoom ==> world == Do(old(world), Leave(myPlayer.id))
      ensures r == Finished ==> world == Do(old(world), Join(myPlayer.id, name, isCreate))
      ensures r == Finished ==> name in rooms && Replies(myPlayer, old(myPlayer.inbox), rooms[name], isCreate)
      ensures forall p | p in people && (p != myPlayer || r != Finished) ::
                p.inbox == Sent(old(p.inbox), r == Finished && Hears(p, rooms[name]),
                                JoinNotice(myPlayer.id, myPlayer.name))
      ensures Inv(old(world)) ==> Inv(world)
      ensures isCreate ==> MapLoaded(old(mapData.walkableMap), old(mapData.walkablePosition),
                                     mapData.walkableMap, mapData.walkablePosition, file)
      ensures !isCreate ==> unchanged(mapData)
    {
      hide Valid, RoomMatches, PlayerMatches, Moved, Replied, Notified, Placed, Left, Inv, MapLoaded, M.LoadText;
      Known();
      if isCreate {
        r := HandleCreateRoom(name, file);
        if r == MapError {
          return;
        }
      }
      if name !in rooms {
        LeaveRoom(myPlayer, true);
        r := NullRoom;
        if Inv(old(world)) {
          StepInv(old(world), Leave(myPlayer.id));
        }
        return;
      }
      JoinRoom(myPlayer, name, isCreate);
      r := Finished;
      if Inv(old(world)) {
        StepInv(old(world), Join(myPlayer.id, name, isCreate));
      }
    }

    // The rest, with the room there.
    method JoinRoom(myPlayer: Player, name: string, isCreate: bool)
      requires Valid() && myPlayer in people && name in rooms
      modifies `world, places`players, places`monsters, places`jobs, myPlayer`room, people`inbox
      ensures Valid() && Placed(old(world)) && name in old(world).rooms
      ensures world == Joined(old(world), myPlayer.id, name)
      ensures Replies(myPlayer, old(myPlayer.inbox), rooms[name], isCreate)
      ensures forall p | p in people && p != myPlayer ::
                p.inbox == Sent(old(p.inbox), Hears(p, rooms[name]), JoinNotice(myPlayer.id, myPlayer.name))
    {
      hide Valid, Replies, Moved, Replied, Notified;
      Known();
      EnterRoom(myPlayer, name);
      Reply(myPlayer, name, isCreate);
      ghost var before := myPlayer.inbox;
      Announce(myPlayer, name);
      assert myPlayer.inbox == before;
    }

    // myPlayer->EnterRoom(room)
    method EnterRoom(myPlayer: Player, name: string)
      requires Valid() && myPlayer in people && name in rooms
      modifies `world, places`players, places`monsters, places`jobs, myPlayer`room
      ensures Valid() && myPlayer in people && name in rooms
      ensures world == Moved(old(world), myPlayer.id, name)
    {
      hide RoomMatches, PlayerMatches, Moved, MovedRoom, Placed, In;
      ghost var id := myPlayer.id;
      PlayerPlaced(rooms, world, myPlayer, myPlayer.room, myPlayer.inbox);
      MovedRooms(world, id, name);
      PlayerMoved(rooms, world, myPlayer, myPlayer.room, name, myPlayer.inbox);
      MoveObjects(myPlayer, name);
      world := Moved(world, id, name);
      forall n | n in rooms ensures RoomOk(n) {
        RoomMoved(people, old(rooms[n].players), old(rooms[n].jobs), old(world), myPlayer, name, n);
      }
      forall p | p in people ensures PlayerOk(p) {
        if p != myPlayer {
          PlayerNotMoved(rooms, old(world), id, name, p, p.room, p.inbox);
        }
      }
    }

    // What that does to the objects.
    method MoveObjects(myPlayer: Player, name: string)
      requires Valid() && myPlayer in people && name in rooms
      modifies places`players, places`monsters, places`jobs, myPlayer`room
      ensures myPlayer.room == rooms[name]
      ensures forall n :: n in rooms ==>
                && rooms[n].players == (if n == name && myPlayer.id !in old(rooms[n].players)
                                        then old(rooms[n].players)[myPlayer.id := myPlayer] else old(rooms[n].players))
                && rooms[n].jobs == (if In(world, myPlayer.id, n) then old(rooms[n].jobs) + [LeaveJob(myPlayer)]
                                     else old(rooms[n].jobs))
    {
      hide RoomMatches, PlayerMatches, Placed;
      PlayerPlaced(rooms, world, myPlayer, myPlayer.room, myPlayer.inbox);
      myPlayer.EnterRoom(rooms[name]);
    }

    // The last message to a player: each player of the room once, in any order.
    ghost predicate Replies(player: Player, before: seq<Notice>, room: Room, isCreate: bool)
      reads player, room
    {
      && |player.inbox| == |before| + 1 && player.inbox[..|before|] == before && player.inbox[|before|].RosterNotice?
      && player.inbox[|before|].isCreate == isCreate
      && var list := player.inbox[|before|].players;
         && |list| == |room.players|
         && (forall j, k :: 0 <= j < k < |list| ==> list[j].0 != list[k].0)
         && (forall k :: 0 <= k < |list| ==> list[k].0 in room.players && list[k].1 == room.players[list[k].0].name)
    }

    // RES_ENTER_GAMEROOM to the one who joined
    method Reply(myPlayer: Player, name: string, isCreate: bool)
      requires Valid() && myPlayer in people && name in rooms
      modifies `world, myPlayer`inbox
      ensures Valid()
      ensures world == Replied(old(world), myPlayer.id, name)
      ensures Replies(myPlayer, old(myPlayer.inbox), rooms[name], isCreate)
    {
      hide RoomMatches, PlayerMatches, ToIds, Names, AsRoster;
      var list := rooms[name].ListPlayers();
      RoomRoster(people, rooms[name].players, rooms[name].jobs, world.rooms[name]);
      myPlayer.inbox := myPlayer.inbox + [RosterNotice(list, isCreate)];
      world := Replied(world, myPlayer.id, name);
      forall p | p in people ensures PlayerOk(p) {
        if p == myPlayer {
          PlayerTold(rooms, old(world), world, p, p.room, old(p.inbox), RosterNotice(list, isCreate));
        } else {
          PlayerKept(rooms, rooms, old(world), world, p, p.room, p.inbox);
        }
      }
    }

    // RES_ENTER_GAMEROOM_ALL to the others in the room
    method Announce(myPlayer: Player, name: string)
      requires Valid() && myPlayer in people && name in rooms
      modifies `world, people`inbox
      ensures Valid()
      ensures world == Notified(old(world), myPlayer.id, name)
      ensures forall p | p in people ::
                p.inbox == Sent(old(p.inbox), Hears(p, rooms[name]) && p != myPlayer,
                                JoinNotice(myPlayer.id, myPlayer.name))
    {
      hide RoomMatches, PlayerMatches, Names, Notified;
      var id := myPlayer.id;
      PlayerPlaced(rooms, world, myPlayer, myPlayer.room, myPlayer.inbox);
      RoomRoster(people, rooms[name].players, rooms[name].jobs, world.rooms[name]);
      NotifiedFacts(world, id, name);
      BroadCast(name, JoinNotice(id, myPlayer.name), id);
      world := Notified(world, id, name);
      forall p | p in people ensures PlayerOk(p) {
        PlayerAfterJoin(rooms, old(world), name, id, p, p.room, old(p.inbox));
      }
    }

    // room->BroadCast, as it concerns all the players.
    method BroadCast(name: string, n: Notice, exceptId: Id)
      requires Valid() && name in rooms && name in world.rooms
      modifies people`inbox
      ensures forall p | p in people ::
                p.inbox == Sent(old(p.inbox), Hears(p, rooms[name]) && p.id != exceptId, n)
    {
      hide RoomMatches, PlayerMatches, Placed;
      var room := rooms[name];
      RoomRoster(people, room.players, room.jobs, world.rooms[name]);
      ghost var players := room.players;
      room.BroadCast(n, exceptId);
      forall p | p in people
        ensures p.inbox == Sent(old(p.inbox), p.id in players && p.id != exceptId, n)
      {
        if p.id in players {
          assert p == players[p.id];
        } else {
          assert p !in players.Values;
        }
      }
    }

    // ------------------------------------------------------- jobs of a room

    // Handle_REQ_RESPAWN
    method RequestRespawn(myPlayer: Player)
      requires Valid() && myPlayer in people
      modifies `world, places`jobs
      ensures Valid()
      ensures world == Do(old(world), RoomWorld.RequestRespawn(myPlayer.id))
      ensures Inv(old(world)) ==> Inv(world)
    {
      hide RoomMatches, PlayerMatches, Names, ToIds, Inv;
      PlayerPlaced(rooms, world, myPlayer, myPlayer.room, myPlayer.inbox);
      if myPlayer.room != null {
        ghost var here := world.at[myPlayer.id];
        RoomPush(people, rooms[here].players, rooms[here].jobs, world.rooms[here], RespawnJob(myPlayer));
        myPlayer.room.PushJob(RespawnJob(myPlayer));
        world := Pushed(world, here, RespawnJob(myPlayer.id));
        forall p | p in people ensures PlayerOk(p) {
          PlayerKept(rooms, rooms, old(world), world, p, p.room, p.inbox);
        }
      }
      if Inv(old(world)) {
        StepInv(old(world), RoomWorld.RequestRespawn(myPlayer.id));
      }
    }

    // JobSerializer: the job at the front of the queue of a room.
    method RunJob(name: string) returns (r: Outcome)
      requires Valid() && OwnVitals() && Enabled(world, RoomWorld.RunJob(name))
      modifies `world, places`players, places`monsters, places`jobs, people`inbox, byVitals.Keys
      ensures Valid()
      ensures world == Do(old(world), RoomWorld.RunJob(name))
      ensures Inv(old(world)) ==> Inv(world)
      ensures var job := old(world).rooms[name].jobs[0];
              r == if job.RespawnJob? && job.p !in old(world).at then NullRoom else Finished
      ensures var job := old(rooms[name].jobs[0]);
              forall p | p in people ::
                p.inbox == if job.RespawnJob?
                           then Sent(Sent(old(p.inbox), p == job.p, SpawnNotice(job.p.id, true)),
                                     Hears(p, job.p.room) && p != job.p, SpawnNotice(job.p.id, false))
                           else Sent(old(p.inbox),
                                     old(Hears(p, rooms[name]) && Hears(job.p, rooms[name])) && p != job.p,
                                     LeaveNotice(job.p.id))
    {
      hide Valid, Placed, Removed, Sent, Inv;
      JobsThere(name);
      var job := Pop(name);
      r := Perform(job, name);
      if Inv(old(world)) {
        StepInv(old(world), RoomWorld.RunJob(name));
      }
    }

    method Perform(job: Job<Player>, name: string) returns (r: Outcome)
      requires Valid() && OwnVitals() && job.p in people && name in rooms
      modifies `world, places`players, places`monsters, people`inbox, byVitals.Keys
      ensures Valid() && name in old(world).rooms && Placed(old(world))
      ensures world == if job.LeaveJob? then Removed(old(world), name, job.p.id)
                       else Respawned(old(world), name, job.p.id)
      ensures r == if job.RespawnJob? && job.p.id !in old(world).at then NullRoom else Finished
      ensures forall p | p in people ::
                p.inbox == if job.RespawnJob?
                           then Sent(Sent(old(p.inbox), p == job.p, SpawnNotice(job.p.id, true)),
                                     Hears(p, job.p.room) && p != job.p, SpawnNotice(job.p.id, false))
                           else Sent(old(p.inbox),
                                     old(Hears(p, rooms[name]) && Hears(job.p, rooms[name])) && p != job.p,
                                     LeaveNotice(job.p.id))
    {
      hide Valid, Placed, Removed, Sent;
      Known();
      match job {
        case LeaveJob(p) =>
          LeaveObject(p, name);
          r := Finished;
        case RespawnJob(p) => r := HandleRespawnPlayer(p, name);
      }
    }

    lemma {:induction false} JobsThere(name: string)
      requires Valid() && Enabled(world, RoomWorld.RunJob(name))
      ensures name in rooms && rooms[name].jobs != []
    {
      assert |ToIds(rooms[name].jobs)| == |rooms[name].jobs|;
    }

    method Pop(name: string) returns (job: Job<Player>)
      requires Valid() && name in rooms && rooms[name].jobs != []
      modifies `world, places`jobs
      ensures Valid() && name in rooms && job == old(rooms[name].jobs[0]) && job.p in people
      ensures name in old(world).rooms && old(world).rooms[name].jobs != []
      ensures ToId(job) == old(world).rooms[name].jobs[0]
      ensures world == Popped(old(world), name)
    {
      hide RoomMatches, PlayerMatches;
      var room := rooms[name];
      RoomPop(people, room.players, room.jobs, world.rooms[name]);
      job := room.jobs[0];
      room.jobs := room.jobs[1..];
      world := Popped(world, name);
      forall p | p in people ensures PlayerOk(p) {
        PlayerKept(rooms, rooms, old(world), world, p, p.room, p.inbox);
      }
    }

    // Room::LeaveObject
    method LeaveObject(player: Player, name: string)
      requires Valid() && player in people && name in rooms
      modifies `world, places`players, places`monsters, people`inbox
      ensures Valid() && name in old(world).rooms
      ensures world == Removed(old(world), name, player.id)
      ensures forall p | p in people ::
                p.inbox == Sent(old(p.inbox), old(Hears(p, rooms[name]) && Hears(player, rooms[name])) && p != player,
                                LeaveNotice(player.id))
    {
      hide RoomMatches, PlayerMatches, Names, Removed, Placed, ViewOf, View, Shown, ToIds, Sent;
      HeldBy(name, player);
      ghost var id := player.id;
      RoomRoster(people, rooms[name].players, rooms[name].jobs, world.rooms[name]);
      RemovedFacts(world, name, id);
      RoomLeave(people, rooms[name].players, rooms[name].jobs, world.rooms[name], id);
      EraseAndTell(player, name);
      world := Removed(world, name, id);
      forall n | n in rooms ensures RoomOk(n) {
        if n != name {
          assert world.rooms[n] == old(world).rooms[n];
        }
      }
      forall p | p in people ensures PlayerOk(p) {
        PlayerAfterLeave(rooms, old(world), name, id, p, p.room, old(p.inbox));
      }
    }

    // What that does to the objects.
    method EraseAndTell(player: Player, name: string)
      requires Valid() && player in people && name in rooms && name in world.rooms
      modifies places`players, places`monsters, people`inbox
      ensures rooms[name].players == old(rooms[name].players) - {player.id}
      ensures forall n :: n in rooms && n != name ==> rooms[n].players == old(rooms[n].players)
      ensures var players := world.rooms[name].players;
              forall p | p in people ::
                p.inbox == Sent(old(p.inbox), player.id in players && p.id in players && p.id != player.id,
                                LeaveNotice(player.id))
    {
      hide RoomMatches, PlayerMatches, Placed;
      var room := rooms[name];
      RoomRoster(people, room.players, room.jobs, world.rooms[name]);
      ghost var players := room.players;
      var _ := room.LeaveObject(PlayerObject(player));
      forall p | p in people
        ensures p.inbox == Sent(old(p.inbox), player.id in players && p.id in players && p.id != player.id,
                                LeaveNotice(player.id))
      {
        if p.id in players {
          assert p == players[p.id];
        } else {
          assert p !in players.Values;
        }
      }
    }

    // Whom a room holds, and who is who.
    lemma {:induction false} HeldBy(name: string, player: Player)
      requires Valid() && player in people && name in rooms
      ensures name in world.rooms
      ensures forall p | p in people :: Hears(p, rooms[name]) <==> p.id in world.rooms[name].players
      ensures forall p | p in people :: p.id == player.id <==> p == player
    {
      hide PlayerMatches, Names;
      RoomRoster(people, rooms[name].players, rooms[name].jobs, world.rooms[name]);
    }

    // Room::HandleRespawnPlayer, in the room the request was queued on; the
    // notice to the others goes through the player's room.
    method HandleRespawnPlayer(player: Player, name: string) returns (r: Outcome)
      requires Valid() && player in people && name in rooms
      modifies `world, places`players, places`monsters, people`inbox, player.vitals
      ensures Valid() && name in old(world).rooms
      ensures world == Respawned(old(world), name, player.id)
      ensures player.vitals.State() == Refilled(old(player.vitals.State())) && player.vitals.hp == 100
      ensures r == if player.id in world.at then Finished else NullRoom
      ensures forall p | p in people ::
                p.inbox == Sent(Sent(old(p.inbox), p == player, SpawnNotice(player.id, true)),
                                Hears(p, player.room) && p != player, SpawnNotice(player.id, false))
    {
      hide Valid, Respawned;
      Reenter(player, name);
      player.vitals.SetHp(MAX_HP);
      Known();
      r := TellSpawn(player);
    }

    method TellSpawn(player: Player) returns (r: Outcome)
      requires Valid() && player in people
      modifies people`inbox
      ensures Valid()
      ensures r == if player.id in world.at then Finished else NullRoom
      ensures forall p | p in people ::
                p.inbox == Sent(Sent(old(p.inbox), p == player, SpawnNotice(player.id, true)),
                                Hears(p, player.room) && p != player, SpawnNotice(player.id, false))
    {
      hide RoomMatches, PlayerMatches;
      PlayerPlaced(rooms, world, player, player.room, player.inbox);
      Tell(player, SpawnNotice(player.id, true));
      assert forall p | p in people :: p.id == player.id ==> p == player;
      if player.room == null {
        return NullRoom;
      }
      TellRoom(player.room.name, SpawnNotice(player.id, false), player.id);
      r := Finished;
    }

    method Reenter(player: Player, name: string)
      requires Valid() && player in people && name in rooms
      modifies `world, places`players, places`monsters
      ensures Valid() && name in old(world).rooms
      ensures world == Respawned(old(world), name, player.id)
    {
      hide RoomMatches, PlayerMatches, Entered;
      PlayerPlaced(rooms, world, player, player.room, player.inbox);
      var room := rooms[name];
      RoomEnter(people, room.players, room.jobs, world.rooms[name], player);
      var _ := room.EnterObject(PlayerObject(player));
      world := world.(rooms := world.rooms[name := Entered(world.rooms[name], player.id, NameOf(world, player.id))]);
      forall n | n in rooms ensures RoomOk(n) {
        if n != name {
          assert world.rooms[n] == old(world).rooms[n];
        }
      }
      forall p | p in people ensures PlayerOk(p) {
        PlayerKept(rooms, rooms, old(world), world, p, p.room, p.inbox);
      }
    }

    // Messages that do not concern the roster, to one session or to a room.
    method Tell(player: Player, n: Notice)
      requires Valid() && player in people && !n.RosterNotice? && !n.JoinNotice? && !n.LeaveNotice?
      modifies player`inbox
      ensures Valid() && player.inbox == old(player.inbox) + [n]
    {
      hide RoomMatches, PlayerMatches, View;
      player.inbox := player.inbox + [n];
      PlayerTold(rooms, world, world, player, player.room, old(player.inbox), n);
    }

    method TellRoom(name: string, n: Notice, exceptId: Id)
      requires Valid() && name in rooms && !n.RosterNotice? && !n.JoinNotice? && !n.LeaveNotice?
      modifies people`inbox
      ensures Valid()
      ensures forall p | p in people ::
                p.inbox == Sent(old(p.inbox), Hears(p, rooms[name]) && p.id != exceptId, n)
    {
      hide RoomMatches, PlayerMatches, View, Names;
      BroadCast(name, n, exceptId);
      forall p | p in people ensures PlayerOk(p) {
        if p.inbox != old(p.inbox) {
          PlayerTold(rooms, world, world, p, p.room, old(p.inbox), n);
        }
      }
    }

    // ---------------------------------------------------------------- attacks

    // Room::HandleAttack on a player, or on nothing.  The damage of the request,
    // an unsigned number, is passed on as a signed one; the attacker may be
    // unknown, which shows when it is asked for its id.
    method HandleAttack(name: string, attacker: Option<Id>, target: Player?, damage: U32, now: U64)
      returns (r: Outcome)
      requires Valid() && name in rooms && (target != null ==> target in people)
      modifies `world, places`players, places`monsters, people`inbox, if target == null then {} else {target.vitals}
      ensures Valid() && Placed(old(world))
      ensures target == null ==> r == Finished && world == old(world) && unchanged(people`inbox)
      ensures target != null ==>
                && target.vitals.State() == Hit(old(target.vitals.State()), TruncateToI32(damage), now)
                && target.vitals.hp == (old(target.vitals.hp) - damage) % 4294967296
                && world == Struck(old(world), target.id, attacker, target.vitals.hp)
                && r == (if target.id !in old(world).at then NullRoom
                         else if attacker.None? then NullAttacker else Finished)
      ensures Inv(old(world)) ==> Inv(world)
      ensures target != null ==>
                forall p | p in people ::
                  p.inbox ==
                  Sent(Sent(Sent(Sent(old(p.inbox),
                                      old(Hears(p, target.room)), HpNotice(target.id, target.vitals.hp)),
                                 old(Hears(p, target.room)) && target.vitals.hp == 0 && attacker.Some?,
                                 DieNotice(target.id, attacker.GetOr(0))),
                            old(Hears(p, target.room) && Hears(target, target.room)) && p != target
                            && target.vitals.hp == 0 && attacker.Some?,
                            LeaveNotice(target.id)),
                       r == Finished && Hears(p, rooms[name]),
                       AttackNotice(target.id, attacker.GetOr(0), target.vitals.hp))
    {
      hide Valid, Struck;
      Known();
      Numbered();
      if target == null {
        return Finished;
      }
      r := TakeDamage(target, attacker, TruncateToI32(damage), now);
      if r == Finished {
        if attacker.None? {
          return NullAttacker;
        }
        TellRoom(name, AttackNotice(target.id, attacker.value, target.vitals.hp), 0);
      }
    }

    // GameObject::TakeDamage
    method TakeDamage(target: Player, attacker: Option<Id>, amount: I32, now: U64) returns (r: Outcome)
      requires Valid() && target in people
      modifies `world, places`players, places`monsters, people`inbox, target.vitals
      ensures Valid() && Placed(old(world))
      ensures target.vitals.State() == Hit(old(target.vitals.State()), amount, now)
      ensures target.vitals.hp == (old(target.vitals.hp) - amount) % 4294967296
      ensures r == StruckOutcome(old(world), target.id, attacker, target.vitals.hp)
      ensures world == Struck(old(world), target.id, attacker, target.vitals.hp)
      ensures Inv(old(world)) ==> Inv(world)
      ensures forall p | p in people ::
                p.inbox ==
                Sent(Sent(Sent(old(p.inbox), old(Hears(p, target.room)), HpNotice(target.id, target.vitals.hp)),
                          old(Hears(p, target.room)) && target.vitals.hp == 0 && attacker.Some?,
                          DieNotice(target.id, attacker.GetOr(0))),
                     old(Hears(p, target.room) && Hears(target, target.room)) && p != target
                     && target.vitals.hp == 0 && attacker.Some?,
                     LeaveNotice(target.id))
    {
      hide RoomMatches, PlayerMatches, Placed, RoomOk, Removed, Inv;
      Numbered();
      PlayerPlaced(rooms, world, target, target.room, target.inbox);
      var died := target.vitals.TakeDamage(amount, now);
      if target.room == null {
        return NullRoom;
      }
      TellRoom(target.room.name, HpNotice(target.id, target.vitals.hp), 0);
      r := Finished;
      if died {
        r := OnDead(target, attacker);
      }
    }

    // GameObject::OnDead
    method OnDead(target: Player, attacker: Option<Id>) returns (r: Outcome)
      requires Valid() && target in people
      modifies `world, places`players, places`monsters, people`inbox
      ensures Valid()
      ensures r == if attacker.None? then NullAttacker else if target.id in old(world).at then Finished else NullRoom
      ensures world == if r == Finished then Do(old(world), Die(target.id)) else old(world)
      ensures Inv(old(world)) ==> Inv(world)
      ensures forall p | p in people ::
                p.inbox ==
                Sent(Sent(old(p.inbox), r == Finished && old(Hears(p, target.room)),
                          DieNotice(target.id, attacker.GetOr(0))),
                     r == Finished && p != target && old(Hears(p, target.room) && Hears(target, target.room)),
                     LeaveNotice(target.id))
    {
      hide RoomMatches, PlayerMatches, Removed, Placed;
      Numbered();
      PlayerPlaced(rooms, world, target, target.room, target.inbox);
      if attacker.None? {
        return NullAttacker;
      }
      if target.room == null {
        return NullRoom;
      }
      TellRoom(target.room.name, DieNotice(target.id, attacker.value), 0);
      LeaveObject(target, target.room.name);
      r := Finished;
      if Inv(old(world)) {
        StepInv(old(world), Die(target.id));
      }
    }

    // ------------------------------------------------------------------ ticks

    // Player::Tick
    method TickPlayer(player: Player, now: U64) returns (r: Outcome)
      requires Valid() && player in people
      modifies people`inbox, player.vitals
      ensures Valid()
      ensures player.vitals.State() == Ticked(old(player.vitals.State()), now)
      ensures r == if Regenerates(old(player.vitals.State()), now) && player.room == null then NullRoom else Finished
      ensures forall p | p in people ::
                p.inbox == Sent(old(p.inbox), Regenerates(old(player.vitals.State()), now) && Hears(p, player.room),
                                HpNotice(player.id, player.vitals.hp))
    {
      hide RoomMatches, PlayerMatches;
      Numbered();
      PlayerPlaced(rooms, world, player, player.room, player.inbox);
      var changed := player.vitals.Tick(now);
      if changed {
        if player.room == null {
          return NullRoom;
        }
        TellRoom(player.room.name, HpNotice(player.id, player.vitals.hp), 0);
      }
      r := Finished;
    }

    // Room::Tick: every player the room holds.
    method TickRoom(name: string, now: U64) returns (r: Outcome)
      requires Valid() && OwnVitals() && name in rooms
      modifies people`inbox, byVitals.Keys
      ensures Valid()
      ensures r == Finished <==> forall i :: i in rooms[name].players ==> old(CanTick(rooms[name].players[i], now))
      ensures r == Finished ==>
                forall i :: i in rooms[name].players ==>
                  rooms[name].players[i].vitals.State() == Ticked(old(rooms[name].players[i].vitals.State()), now)
      ensures forall i :: i in rooms[name].players ==>
                var before := old(rooms[name].players[i].vitals.State());
                rooms[name].players[i].vitals.State() in {before, Ticked(before, now)}
    {
      hide Valid, CanTick, Ticked, Vitals.State;
      Held(name);
      r := TickPlayers(rooms[name].players, now);
    }

    method TickPlayers(players: map<Id, Player>, now: U64) returns (r: Outcome)
      requires Valid() && OwnVitals()
      requires forall i :: i in players ==> players[i] in people && players[i].id == i
      modifies people`inbox, byVitals.Keys
      ensures Valid()
      ensures r == Finished <==> forall i :: i in players ==> old(CanTick(players[i], now))
      ensures r == Finished ==>
                forall i :: i in players ==> players[i].vitals.State() == Ticked(old(players[i].vitals.State()), now)
      ensures forall i :: i in players ==>
                var before := old(players[i].vitals.State());
                players[i].vitals.State() in {before, Ticked(before, now)}
    {
      hide Valid, Ticked, Regenerates, Vitals.State;
      var ids := players.Keys;
      while ids != {}
        invariant ids <= players.Keys && Valid()
        invariant forall i :: i in ids ==> players[i].vitals.State() == old(players[i].vitals.State())
        invariant forall i :: i in players && i !in ids ==>
                    && players[i].vitals.State() == Ticked(old(players[i].vitals.State()), now)
                    && old(CanTick(players[i], now))
      {
        var i :| i in ids;
        r := TickOne(players, i, now);
        if r == NullRoom {
          return;
        }
        ids := ids - {i};
      }
      r := Finished;
    }

    // One round: the others keep their health.
    method TickOne(players: map<Id, Player>, i: Id, now: U64) returns (r: Outcome)
      requires Valid() && OwnVitals() && i in players
      requires forall i :: i in players ==> players[i] in people && players[i].id == i
      modifies people`inbox, byVitals.Keys
      ensures Valid()
      ensures r == if old(CanTick(players[i], now)) then Finished else NullRoom
      ensures players[i].vitals.State() == Ticked(old(players[i].vitals.State()), now)
      ensures forall j :: j in players && j != i ==> players[j].vitals.State() == old(players[j].vitals.State())
    {
      hide Valid, Ticked, Regenerates, Vitals.State;
      var p := players[i];
      assert byVitals[p.vitals] == p;
      forall j | j in players && j != i ensures players[j].vitals != p.vitals {
        assert byVitals[players[j].vitals] == players[j];
      }
      r := TickPlayer(p, now);
    }

    // A tick only needs the player's room to announce a new health.
    ghost predicate CanTick(player: Player, now: U64)
      reads player, player.vitals
    {
      Regenerates(player.vitals.State(), now) ==> player.room != null
    }

    // A player that has left, and that its room still holds, cannot.
    lemma {:induction false} LeaverCannotTick(n: string, i: Id, now: U64)
      requires Valid() && n in rooms && i in rooms[n].players && i !in world.at
      ensures CanTick(rooms[n].players[i], now) <==> !Regenerates(rooms[n].players[i].vitals.State(), now)
    {
      hide PlayerMatches, Names, View;
      var p := rooms[n].players[i];
      Held(n);
      PlayerPlaced(rooms, world, p, p.room, p.inbox);
    }

    lemma {:induction false} Held(name: string)
      requires Valid() && name in rooms
      ensures forall i :: i in rooms[name].players ==>
                rooms[name].players[i] in people && rooms[name].players[i].id == i
    {
      hide PlayerMatches, Names;
      RoomRoster(people, rooms[name].players, rooms[name].jobs, world.rooms[name]);
    }

    // A room without queued leave jobs can be ticked: whoever it holds is in it.
    lemma {:induction false} DrainedRoomTicks(n: string, i: Id)
      requires Valid() && Inv(world) && n in rooms && i in rooms[n].players
      requires LeaveJob(rooms[n].players[i]) !in rooms[n].jobs
      ensures rooms[n].players[i].room == rooms[n]
    {
      if rooms[n].players[i].room != rooms[n] {
        StalePlayersLeave(n, i);
      }
    }
  }
}
