/**
  Player, Room and RoomManager (Object/Player.cpp, Session/Room.cpp,
  Manager/RoomManager.cpp) as objects, each operation of the manager against
  the step of RoomWorld it performs.

  Rooms run one job at a time from the front of their queue (JobSerializer is
  not part of this model), and a session keeps what was sent to it.
 */
module Rooms {
  import opened Wire
  import opened RoomWorld
  import opened VitalSigns

  // What a client is sent, as far as rosters and health are concerned.
  datatype Notice =
    | RosterNotice(players: seq<(Id, string)>, isCreate: bool) // RES_ENTER_GAMEROOM
    | JoinNotice(id: Id, name: string)             // RES_ENTER_GAMEROOM_ALL
    | LeaveNotice(id: Id)                          // RES_LEAVE
    | HpNotice(id: Id, hp: U32)                    // RES_CHANGE_HP
    | DieNotice(id: Id, attacker: Id)              // RES_DIE
    | AttackNotice(id: Id, attacker: Id, remain: U32) // RES_ATTACK_OBJECT
    | SpawnNotice(id: Id, mine: bool)              // RES_SPAWN

  function AsRoster(players: seq<(Id, string)>): Roster {
    if players == [] then map[]
    else AsRoster(players[..|players| - 1])[players[|players| - 1].0 := players[|players| - 1].1]
  }

  function Shown(before: Roster, n: Notice): Roster {
    match n
    case RosterNotice(players, _) => AsRoster(players)
    case JoinNotice(id, name) => before[id := name]
    case LeaveNotice(id) => before - {id}
    case _ => before
  }

  // The roster a client ends up with.
  function View(inbox: seq<Notice>): Roster {
    if inbox == [] then map[] else Shown(View(inbox[..|inbox| - 1]), inbox[|inbox| - 1])
  }

  lemma {:induction false} ViewAppend(inbox: seq<Notice>, n: Notice)
    ensures View(inbox + [n]) == Shown(View(inbox), n)
  {
    assert (inbox + [n])[..|inbox|] == inbox;
  }

  // A message on top of the others, or none.
  function Sent(inbox: seq<Notice>, when: bool, n: Notice): seq<Notice> {
    if when then inbox + [n] else inbox
  }

  class Player {
    const id: Id
    const name: string
    const vitals: Vitals
    var room: Room?
    var inbox: seq<Notice>  // of the player's session

    constructor (id: Id, name: string)
      ensures this.id == id && this.name == name && room == null && inbox == []
      ensures fresh(vitals) && vitals.State() == Hp(MAX_HP, 0, 0)
    {
      this.id, this.name := id, name;
      room, inbox := null, [];
      vitals := new Vitals();
      new;
      vitals.SetHp(MAX_HP);
    }

    method EnterRoom(gameRoom: Room?)
      modifies `room, if room == null then {} else {room}`jobs
      modifies if gameRoom == null then {} else {gameRoom}`players
      modifies if gameRoom == null then {} else {gameRoom}`monsters
      ensures room == gameRoom
      ensures gameRoom != null ==>
                && gameRoom.players == (if id in old(gameRoom.players) then old(gameRoom.players)
                                        else old(gameRoom.players)[id := this])
                && gameRoom.monsters == old(gameRoom.monsters)
      ensures old(room) != null ==> old(room).jobs == old(room.jobs) + [LeaveJob(this)]
    {
      if room != null {
        LeaveRoom();
      }
      room := gameRoom;
      if room != null {
        var _ := gameRoom.EnterObject(PlayerObject(this));
      }
    }

    method LeaveRoom()
      modifies `room, if room == null then {} else {room}`jobs
      ensures room == null
      ensures old(room) != null ==> old(room).jobs == old(room.jobs) + [LeaveJob(this)]
    {
      if room != null {
        room.PushJob(LeaveJob(this));
        room := null;
      }
    }
  }

  class Monster {
    const id: Id

    constructor (id: Id)
      ensures this.id == id
    {
      this.id := id;
    }
  }

  // GameObject, by its type.
  datatype GameObject = PlayerObject(player: Player) | MonsterObject(monster: Monster) {
    function GetId(): Id {
      match this
      case PlayerObject(p) => p.id
      case MonsterObject(m) => m.id
    }
  }

  class Room {
    const name: string
    var players: map<Id, Player>
    var monsters: map<Id, Monster>
    var jobs: seq<Job<Player>>

    constructor (name: string)
      ensures this.name == name && players == map[] && monsters == map[] && jobs == []
    {
      this.name := name;
      players, monsters, jobs := map[], map[], [];
    }

    // Players are kept under their own ids, which start at 1.
    ghost predicate Keyed()
      reads this
    {
      forall i :: i in players ==> players[i].id == i != 0
    }

    method PushJob(job: Job<Player>)
      modifies `jobs
      ensures jobs == old(jobs) + [job]
    {
      jobs := jobs + [job];
    }

    // Whether an object of this type is in the room.
    predicate Holds(gameObject: GameObject)
      reads this
    {
      match gameObject
      case PlayerObject(p) => p.id in players
      case MonsterObject(m) => m.id in monsters
    }

    method EnterObject(gameObject: GameObject) returns (ok: bool)
      modifies `players, `monsters
      ensures ok <==> !old(Holds(gameObject))
      ensures players == if ok && gameObject.PlayerObject? then old(players)[gameObject.GetId() := gameObject.player]
                         else old(players)
      ensures monsters == if ok && gameObject.MonsterObject?
                          then old(monsters)[gameObject.GetId() := gameObject.monster]
                          else old(monsters)
    {
      match gameObject {
        case PlayerObject(p) =>
          if p.id in players {
            return false;
          }
          players := players[p.id := p];
        case MonsterObject(m) =>
          if m.id in monsters {
            return false;
          }
          monsters := monsters[m.id := m];
      }
      ok := true;
    }

    // Those who remain are told, of a monster too.
    method LeaveObject(gameObject: GameObject) returns (ok: bool)
      requires Keyed()
      modifies `players, `monsters, players.Values`inbox
      ensures Keyed() && (ok <==> old(Holds(gameObject)))
      ensures players == if gameObject.PlayerObject? then old(players) - {gameObject.GetId()} else old(players)
      ensures monsters == if gameObject.MonsterObject? then old(monsters) - {gameObject.GetId()} else old(monsters)
      ensures forall i :: i in old(players) ==>
                old(players)[i].inbox ==
                if ok && i in players then old(players[i].inbox) + [LeaveNotice(gameObject.GetId())]
                else old(players[i].inbox)
    {
      match gameObject {
        case PlayerObject(p) =>
          if p.id !in players {
            assert players == players - {p.id};
            return false;
          }
          ghost var gone := players[p.id];
          players := players - {p.id};
          assert gone !in players.Values;
        case MonsterObject(m) =>
          if m.id !in monsters {
            assert monsters == monsters - {m.id};
            return false;
          }
          monsters := monsters - {m.id};
      }
      assert forall i :: i in players ==> i in old(players) && players[i] == old(players)[i];
      BroadCast(LeaveNotice(gameObject.GetId()), 0);
      ok := true;
    }

    // To every session of the room but one; no player has the id 0.
    method BroadCast(n: Notice, exceptId: Id)
      requires Keyed()
      modifies players.Values`inbox
      ensures forall i :: i in players ==>
                players[i].inbox == if i == exceptId then old(players[i].inbox) else old(players[i].inbox) + [n]
    {
      var ids := players.Keys;
      while ids != {}
        invariant ids <= players.Keys
        invariant forall i :: i in players ==>
                    players[i].inbox ==
                    if i in ids || i == exceptId then old(players[i].inbox) else old(players[i].inbox) + [n]
      {
        var i :| i in ids;
        ids := ids - {i};
        if i != exceptId {
          players[i].inbox := players[i].inbox + [n];
        }
      }
    }

    // The list of a join reply, in the order of the iteration.
    method ListPlayers() returns (list: seq<(Id, string)>)
      ensures AsRoster(list) == Names(players)
      ensures |list| == |players| && forall j, k :: 0 <= j < k < |list| ==> list[j].0 != list[k].0
      ensures forall k :: 0 <= k < |list| ==> list[k].0 in players && list[k].1 == players[list[k].0].name
    {
      hide AsRoster, Names;
      list := [];
      var ids := players.Keys;
      ListStart(players);
      while ids != {}
        invariant ids <= players.Keys && |list| + |ids| == |players.Keys|
        invariant AsRoster(list) == Names(players - ids)
        invariant forall j, k :: 0 <= j < k < |list| ==> list[j].0 != list[k].0
        invariant forall k :: 0 <= k < |list| ==>
                    list[k].0 in players && list[k].0 !in ids && list[k].1 == players[list[k].0].name
      {
        var i :| i in ids;
        NamesAdd(players - ids, i, players[i]);
        assert players - (ids - {i}) == (players - ids)[i := players[i]];
        ids := ids - {i};
        RosterAdd(list, i, players[i].name);
        list := list + [(i, players[i].name)];
      }
      assert players - {} == players && |players.Keys| == |players|;
    }
  }

  lemma {:induction false} ListStart(players: map<Id, Player>)
    ensures AsRoster([]) == Names(players - players.Keys)
  {
  }

  lemma {:induction false} RosterAdd(list: seq<(Id, string)>, i: Id, name: string)
    ensures AsRoster(list + [(i, name)]) == AsRoster(list)[i := name]
  {
    assert (list + [(i, name)])[..|list|] == list;
  }

  function Names(players: map<Id, Player>): Roster {
    map i | i in players :: players[i].name
  }

  lemma {:induction false} NamesAdd(players: map<Id, Player>, i: Id, p: Player)
    ensures Names(players[i := p]) == Names(players)[i := p.name]
  {
  }
}
