/**
  Room membership as a state machine (Manager/RoomManager.cpp:9-59,
  Object/Player.cpp:77-94, Session/Room.cpp:32-90, 136-180): entering a room
  takes effect at once, leaving is a job on the room's queue, and every room
  runs its queue in order.  Steps of different players and rooms interleave
  freely.
 */
module RoomWorld {
  import opened Wire

  type Id = U64
  type Roster = map<Id, string>  // names by object id

  // Jobs that change membership; P is a player or its id.
  datatype Job<P> = LeaveJob(p: P) | RespawnJob(p: P)

  datatype RoomState = RoomState(players: Roster, jobs: seq<Job<Id>>)

  // The players' names, the rooms by name, the room each player is in, and the
  // roster each player's client has put together from the messages sent to it.
  datatype World = World(names: Roster, rooms: map<string, RoomState>, at: map<Id, string>, views: map<Id, Roster>)

  function Start(names: Roster): World {
    World(names, map[], map[], map[])
  }

  datatype Step =
    | Join(p: Id, room: string, isCreate: bool)
    | Leave(p: Id)
    | RequestRespawn(p: Id)
    | Die(p: Id)
    | RunJob(room: string)

  // ------------------------------------------------------------------- views

  function ViewOf(views: map<Id, Roster>, q: Id): Roster {
    if q in views then views[q] else map[]
  }

  // A join notice, or a leave notice, to some members.
  function TellJoined(views: map<Id, Roster>, members: set<Id>, p: Id, name: string): (v: map<Id, Roster>)
    ensures forall q :: ViewOf(v, q) == if q in members then ViewOf(views, q)[p := name] else ViewOf(views, q)
  {
    map q | q in views.Keys + members :: if q in members then ViewOf(views, q)[p := name] else ViewOf(views, q)
  }

  function TellLeft(views: map<Id, Roster>, members: set<Id>, p: Id): (v: map<Id, Roster>)
    ensures forall q :: ViewOf(v, q) == if q in members then ViewOf(views, q) - {p} else ViewOf(views, q)
  {
    map q | q in views.Keys + members :: if q in members then ViewOf(views, q) - {p} else ViewOf(views, q)
  }

  // ------------------------------------------------------------------- steps

  predicate In(w: World, p: Id, room: string) {
    p in w.at && w.at[p] == room
  }

  function NameOf(w: World, p: Id): string {
    if p in w.names then w.names[p] else ""
  }

  // Every player is in an existing room, if in any.
  predicate Placed(w: World) {
    forall p :: p in w.at ==> w.at[p] in w.rooms
  }

  // A join names an existing room or creates it, a death happens in a room, a
  // job is there to be run.
  predicate Enabled(w: World, s: Step) {
    match s
    case Join(_, room, isCreate) => isCreate || room in w.rooms
    case Leave(_) => true
    case RequestRespawn(_) => true
    case Die(p) => p in w.at
    case RunJob(room) => room in w.rooms && w.rooms[room].jobs != []
  }

  // HandleCreateRoom: a room of that name that exists already is kept.
  function Created(w: World, room: string): World {
    if room in w.rooms then w else w.(rooms := w.rooms[room := RoomState(map[], [])])
  }

  function Pushed(w: World, room: string, job: Job<Id>): World
    requires room in w.rooms
  {
    var r := w.rooms[room];
    w.(rooms := w.rooms[room := r.(jobs := r.jobs + [job])])
  }

  // Player::LeaveRoom
  function Left(w: World, p: Id): (v: World)
    requires Placed(w)
    ensures Placed(v) && v.rooms.Keys == w.rooms.Keys && p !in v.at && v.names == w.names
  {
    if p in w.at then Pushed(w, w.at[p], LeaveJob(p)).(at := w.at - {p}) else w
  }

  // Room::EnterObject
  function Entered(r: RoomState, p: Id, name: string): RoomState {
    if p in r.players then r else r.(players := r.players[p := name])
  }

  // Player::EnterRoom
  function Moved(w: World, p: Id, room: string): (v: World)
    requires Placed(w) && room in w.rooms
    ensures Placed(v) && v.rooms.Keys == w.rooms.Keys
  {
    var u := Left(w, p);
    u.(rooms := u.rooms[room := Entered(u.rooms[room], p, NameOf(w, p))], at := u.at[p := room])
  }

  // The reply with all the players of the room, and the notice to the others.
  function Replied(w: World, p: Id, room: string): World
    requires room in w.rooms
  {
    w.(views := w.views[p := w.rooms[room].players])
  }

  function Notified(w: World, p: Id, room: string): World
    requires room in w.rooms
  {
    w.(views := TellJoined(w.views, w.rooms[room].players.Keys - {p}, p, NameOf(w, p)))
  }

  // HandleJoinGameRoom
  function Joined(w: World, p: Id, room: string): (v: World)
    requires Placed(w) && room in w.rooms
    ensures Placed(v)
  {
    Notified(Replied(Moved(w, p, room), p, room), p, room)
  }

  // Room::LeaveObject
  function Removed(w: World, room: string, p: Id): (v: World)
    requires Placed(w) && room in w.rooms
    ensures Placed(v)
  {
    var r := w.rooms[room];
    if p !in r.players then w
    else
      var players := r.players - {p};
      w.(rooms := w.rooms[room := r.(players := players)], views := TellLeft(w.views, players.Keys, p))
  }

  function Popped(w: World, room: string): (v: World)
    requires Placed(w) && room in w.rooms && w.rooms[room].jobs != []
    ensures Placed(v)
  {
    w.(rooms := w.rooms[room := w.rooms[room].(jobs := w.rooms[room].jobs[1..])])
  }

  function Do(w: World, s: Step): (v: World)
    requires Placed(w) && Enabled(w, s)
    ensures Placed(v)
  {
    match s
    case Join(p, room, isCreate) => Joined(if isCreate then Created(w, room) else w, p, room)
    case Leave(p) => Left(w, p)
    case RequestRespawn(p) => if p in w.at then Pushed(w, w.at[p], RespawnJob(p)) else w
    case Die(p) => Removed(w, w.at[p], p)
    case RunJob(room) =>
      var u := Popped(w, room);
      match w.rooms[room].jobs[0]
      case LeaveJob(p) => Removed(u, room, p)
      case RespawnJob(p) => u.(rooms := u.rooms[room := Entered(u.rooms[room], p, NameOf(w, p))])
  }

  predicate EnabledRun(w: World, ss: seq<Step>)
    requires Placed(w)
    decreases |ss|
  {
    ss == [] || (Enabled(w, ss[0]) && EnabledRun(Do(w, ss[0]), ss[1..]))
  }

  function Run(w: World, ss: seq<Step>): (v: World)
    requires Placed(w) && EnabledRun(w, ss)
    ensures Placed(v)
    decreases |ss|
  {
    if ss == [] then w else Run(Do(w, ss[0]), ss[1..])
  }

  // ------------------------------------------------------- stale membership

  // The last job about p in a queue.
  function LastJob(jobs: seq<Job<Id>>, p: Id): (j: Option<Job<Id>>)
    ensures j.Some? ==> j.value in jobs && j.value.p == p
    ensures j.None? ==> forall k | k in jobs :: k.p != p
  {
    if jobs == [] then None
    else
      var last := jobs[|jobs| - 1];
      if last.p == p then Some(last) else LastJob(jobs[..|jobs| - 1], p)
  }

  lemma {:induction false} LastJobPush(jobs: seq<Job<Id>>, job: Job<Id>, p: Id)
    ensures LastJob(jobs + [job], p) == if job.p == p then Some(job) else LastJob(jobs, p)
  {
    assert (jobs + [job])[..|jobs|] == jobs;
  }

  lemma {:induction false} LastJobPop(jobs: seq<Job<Id>>, p: Id)
    requires jobs != []
    ensures LastJob(jobs, p) ==
            if LastJob(jobs[1..], p).Some? then LastJob(jobs[1..], p)
            else if jobs[0].p == p then Some(jobs[0]) else None
    decreases |jobs|
  {
    var n := |jobs| - 1;
    if n == 0 {
      assert jobs[..0] == [] && jobs[1..] == [];
    } else {
      assert jobs[1..][..n - 1] == jobs[..n][1..];
      assert jobs[1..][n - 1] == jobs[n];
      LastJobPop(jobs[..n], p);
    }
  }

  // p is a member of a room, or will be put back into it.
  predicate Present(r: RoomState, p: Id) {
    p in r.players || RespawnJob(p) in r.jobs
  }

  // Whoever is present in a room that is not its current one has left it, and
  // nothing about it is queued behind that.
  ghost predicate Inv(w: World) {
    && Placed(w)
    && forall room: string, p: Id | room in w.rooms && Present(w.rooms[room], p) && !In(w, p, room)
         :: LastJob(w.rooms[room].jobs, p) == Some(LeaveJob(p))
  }

  lemma {:induction false} LeftInv(w: World, p: Id)
    requires Inv(w)
    ensures Inv(Left(w, p))
  {
    if p in w.at {
      var v, here := Left(w, p), w.at[p];
      forall room: string, q: Id | room in v.rooms && Present(v.rooms[room], q) && !In(v, q, room)
        ensures LastJob(v.rooms[room].jobs, q) == Some(LeaveJob(q))
      {
        assert Present(w.rooms[room], q);
        if room == here {
          LastJobPush(w.rooms[here].jobs, LeaveJob(p), q);
        }
      }
    }
  }

  lemma {:induction false} JoinedInv(w: World, p: Id, room: string)
    requires Inv(w) && room in w.rooms
    ensures Inv(Joined(w, p, room))
  {
    LeftInv(w, p);
    var u, v := Left(w, p), Joined(w, p, room);
    forall r: string, q: Id | r in v.rooms && Present(v.rooms[r], q) && !In(v, q, r)
      ensures LastJob(v.rooms[r].jobs, q) == Some(LeaveJob(q))
    {
      assert Present(u.rooms[r], q) && !In(u, q, r);
    }
  }

  lemma {:induction false} RunJobInv(w: World, room: string)
    requires Inv(w) && Enabled(w, RunJob(room))
    ensures Inv(Do(w, RunJob(room)))
  {
    var v, jobs := Do(w, RunJob(room)), w.rooms[room].jobs;
    forall r: string, q: Id | r in v.rooms && Present(v.rooms[r], q) && !In(v, q, r)
      ensures LastJob(v.rooms[r].jobs, q) == Some(LeaveJob(q))
    {
      if r == room {
        LastJobPop(jobs, q);
        assert jobs == [jobs[0]] + jobs[1..];
        assert Present(w.rooms[r], q) && !In(w, q, r);
      } else {
        assert Present(w.rooms[r], q) && !In(w, q, r);
      }
    }
  }

  // Every step keeps the invariant.
  lemma {:induction false} StepInv(w: World, s: Step)
    requires Inv(w) && Enabled(w, s)
    ensures Inv(Do(w, s))
  {
    match s {
      case Join(p, room, isCreate) => JoinedInv(if isCreate then Created(w, room) else w, p, room);
      case Leave(p) => LeftInv(w, p);
      case RunJob(room) => RunJobInv(w, room);
      case RequestRespawn(p) =>
        if p in w.at {
          var v := Do(w, s);
          forall r: string, q: Id | r in v.rooms && Present(v.rooms[r], q) && !In(v, q, r)
            ensures LastJob(v.rooms[r].jobs, q) == Some(LeaveJob(q))
          {
            LastJobPush(w.rooms[w.at[p]].jobs, RespawnJob(p), q);
            assert Present(w.rooms[r], q) && !In(w, q, r);
          }
        }
      case Die(p) =>
        var v := Do(w, s);
        forall r: string, q: Id | r in v.rooms && Present(v.rooms[r], q) && !In(v, q, r)
          ensures LastJob(v.rooms[r].jobs, q) == Some(LeaveJob(q))
        {
          assert Present(w.rooms[r], q) && !In(w, q, r);
        }
    }
  }

  lemma {:induction false} RunInv(w: World, ss: seq<Step>)
    requires Inv(w) && EnabledRun(w, ss)
    ensures Inv(Run(w, ss))
    decreases |ss|
  {
    if ss != [] {
      StepInv(w, ss[0]);
      RunInv(Do(w, ss[0]), ss[1..]);
    }
  }

  // Over every run from the start: a member of a room that is not its current
  // one has its leave job queued there, so a room without jobs has none.
  lemma {:induction false} StaleMembersLeave(names: Roster, ss: seq<Step>, room: string, p: Id)
    requires EnabledRun(Start(names), ss)
    ensures var w := Run(Start(names), ss);
            room in w.rooms && p in w.rooms[room].players && !In(w, p, room) ==>
              && LeaveJob(p) in w.rooms[room].jobs
              && LastJob(w.rooms[room].jobs, p) == Some(LeaveJob(p))
    ensures var w := Run(Start(names), ss);
            room in w.rooms && w.rooms[room].jobs == [] && p in w.rooms[room].players ==> In(w, p, room)
  {
    RunInv(Start(names), ss);
    var w := Run(Start(names), ss);
    if room in w.rooms && p in w.rooms[room].players && !In(w, p, room) {
      assert Present(w.rooms[room], p);
    }
  }

  // A respawn job that finds its player in no room (the code then uses a null
  // room) has that player's leave job behind it.
  lemma {:induction false} RespawnOfLeaver(names: Roster, ss: seq<Step>, room: string, p: Id)
    requires EnabledRun(Start(names), ss)
    ensures var w := Run(Start(names), ss);
            room in w.rooms && w.rooms[room].jobs != [] && w.rooms[room].jobs[0] == RespawnJob(p) && p !in w.at
            ==> LeaveJob(p) in w.rooms[room].jobs[1..]
  {
    RunInv(Start(names), ss);
    var w := Run(Start(names), ss);
    if room in w.rooms && w.rooms[room].jobs != [] && w.rooms[room].jobs[0] == RespawnJob(p) && p !in w.at {
      assert Present(w.rooms[room], p) && !In(w, p, room);
      LastJobPop(w.rooms[room].jobs, p);
    }
  }

  // ------------------------------------------------------ lasting membership

  // A run in which p does nothing and does not die.
  predicate WithoutPlayer(ss: seq<Step>, p: Id) {
    forall s | s in ss :: s.RunJob? || s.p != p
  }

  ghost predicate StaysIn(w: World, p: Id, room: string)
    requires Placed(w)
  {
    forall ss | EnabledRun(w, ss) && WithoutPlayer(ss, p) :: IsMember(Run(w, ss), p, room)
  }

  predicate IsMember(w: World, p: Id, room: string) {
    room in w.rooms && p in w.rooms[room].players
  }

  lemma {:induction false} MemberStays(w: World, ss: seq<Step>, p: Id, room: string)
    requires Placed(w) && EnabledRun(w, ss) && WithoutPlayer(ss, p)
    requires Settled(w, p, room)
    ensures IsMember(Run(w, ss), p, room)
    decreases |ss|
  {
    if ss != [] {
      var v := Do(w, ss[0]);
      assert ss[0] in ss;
      OtherStep(w, ss[0], p, room);
      MemberStays(v, ss[1..], p, room);
    }
  }

  // A member of a room with no leave job there.
  predicate Settled(w: World, p: Id, room: string) {
    IsMember(w, p, room) && LeaveJob(p) !in w.rooms[room].jobs
  }

  lemma {:induction false} OtherStep(w: World, s: Step, p: Id, room: string)
    requires Placed(w) && Enabled(w, s) && (s.RunJob? || s.p != p) && Settled(w, p, room)
    ensures Settled(Do(w, s), p, room)
  {
    match s {
      case Join(q, there, isCreate) => OtherJoin(if isCreate then Created(w, there) else w, q, there, p, room);
      case RunJob(there) => AnyJob(w, there, p, room);
      case _ =>
    }
  }

  lemma {:induction false} OtherJoin(w: World, q: Id, there: string, p: Id, room: string)
    requires Placed(w) && there in w.rooms && q != p && Settled(w, p, room)
    ensures Settled(Joined(w, q, there), p, room)
  {
    assert Settled(Left(w, q), p, room);
  }

  lemma {:induction false} AnyJob(w: World, there: string, p: Id, room: string)
    requires Placed(w) && Enabled(w, RunJob(there)) && Settled(w, p, room)
    ensures Settled(Do(w, RunJob(there)), p, room)
  {
    var jobs := w.rooms[there].jobs;
    assert jobs == [jobs[0]] + jobs[1..];
    assert jobs[0] in jobs;
    assert Settled(Popped(w, there), p, room);
  }

  function Drain(room: string, k: nat): (ss: seq<Step>)
    ensures |ss| == k && forall s | s in ss :: s == RunJob(room)
  {
    if k == 0 then [] else [RunJob(room)] + Drain(room, k - 1)
  }

  // Running the jobs up to a leave job of p ends p's membership.
  lemma {:induction false} DrainRemoves(w: World, room: string, k: nat, p: Id)
    requires Placed(w) && room in w.rooms && k < |w.rooms[room].jobs| && w.rooms[room].jobs[k] == LeaveJob(p)
    ensures EnabledRun(w, Drain(room, k + 1)) && !IsMember(Run(w, Drain(room, k + 1)), p, room)
    decreases k
  {
    var v := Do(w, RunJob(room));
    assert Drain(room, k + 1)[1..] == Drain(room, k);
    if k > 0 {
      DrainRemoves(v, room, k - 1, p);
    }
  }

  lemma {:induction false} JoinedRoom(w: World, p: Id, room: string)
    requires Placed(w) && room in w.rooms
    ensures var v := Joined(w, p, room);
            && IsMember(v, p, room) && In(v, p, room)
            && (LeaveJob(p) in v.rooms[room].jobs <==> LeaveJob(p) in w.rooms[room].jobs || In(w, p, room))
  {
  }

  // A join lasts, whatever the others do, until the player leaves or dies --
  // exactly when the player was not in that room already and no leave job of
  // it is waiting there.
  lemma {:induction false} JoinLasts(w: World, p: Id, room: string, isCreate: bool)
    requires Placed(w) && Enabled(w, Join(p, room, isCreate))
    ensures StaysIn(Do(w, Join(p, room, isCreate)), p, room) <==>
            !In(w, p, room) && (room in w.rooms ==> LeaveJob(p) !in w.rooms[room].jobs)
  {
    var u := if isCreate then Created(w, room) else w;
    var v := Do(w, Join(p, room, isCreate));
    JoinedRoom(u, p, room);
    if LeaveJob(p) in v.rooms[room].jobs {
      var k :| 0 <= k < |v.rooms[room].jobs| && v.rooms[room].jobs[k] == LeaveJob(p);
      DrainRemoves(v, room, k, p);
      assert WithoutPlayer(Drain(room, k + 1), p);
    } else {
      forall ss | EnabledRun(v, ss) && WithoutPlayer(ss, p) ensures IsMember(Run(v, ss), p, room) {
        MemberStays(v, ss, p, room);
      }
    }
  }

  // Joining the room one is in: the old membership's leave job ends the new.
  lemma {:induction false} RejoinExample(p: Id, room: string)
    ensures var ss := [Join(p, room, true), Join(p, room, false), RunJob(room)];
            && EnabledRun(Start(map[]), ss)
            && In(Run(Start(map[]), ss), p, room) && !IsMember(Run(Start(map[]), ss), p, room)
  {
    var w1 := Do(Start(map[]), Join(p, room, true));
    var w2 := Do(w1, Join(p, room, false));
    assert w2.rooms[room].jobs == [LeaveJob(p)];
    var w3 := Do(w2, RunJob(room));
    var s1, s2, s3 := Join(p, room, true), Join(p, room, false), RunJob(room);
    assert [s1, s2, s3][1..] == [s2, s3] && [s2, s3][1..] == [s3] && [s3][1..] == [];
    assert Run(w2, [s3]) == w3;
    assert Run(w1, [s2, s3]) == w3;
  }

  // --------------------------------------------------------------- rosters

  // No player is a member of two rooms, and every member's client shows
  // exactly the players of its room.
  ghost predicate RostersAgree(w: World) {
    && (forall r1: string, r2: string, p: Id | IsMember(w, p, r1) && IsMember(w, p, r2) :: r1 == r2)
    && (forall r: string, p: Id | IsMember(w, p, r) :: ViewOf(w.views, p) == w.rooms[r].players)
    && (forall r: string, p: Id | IsMember(w, p, r) :: w.rooms[r].players[p] == NameOf(w, p))
  }

  // A player joins only when it is no member of another room any more, and a
  // respawn job is run only when it is harmless.
  ghost predicate Orderly(w: World, s: Step)
    requires Enabled(w, s)
  {
    match s
    case Join(p, room, _) => forall r: string | IsMember(w, p, r) :: r == room
    case RunJob(room) =>
      var job := w.rooms[room].jobs[0];
      job.RespawnJob? ==> HarmlessRespawn(w, room, job.p)
    case _ => true
  }

  // Nobody is sent a roster or a join notice for a respawn: the player must be
  // in the room still, or come back alone to an empty one and know it.
  ghost predicate HarmlessRespawn(w: World, room: string, p: Id)
    requires room in w.rooms
  {
    || p in w.rooms[room].players
    || (&& w.rooms[room].players == map[] && ViewOf(w.views, p) == map[p := NameOf(w, p)]
        && forall r: string :: !IsMember(w, p, r))
  }

  lemma {:induction false} LeftAgrees(w: World, p: Id)
    requires Placed(w) && RostersAgree(w)
    ensures RostersAgree(Left(w, p))
    ensures forall r: string, q: Id :: IsMember(Left(w, p), q, r) <==> IsMember(w, q, r)
  {
    var v := Left(w, p);
    assert forall r: string, q: Id :: IsMember(v, q, r) <==> IsMember(w, q, r);
  }

  lemma {:induction false} JoinAgrees(w: World, p: Id, room: string)
    requires Placed(w) && RostersAgree(w) && room in w.rooms
    requires forall r: string | IsMember(w, p, r) :: r == room
    ensures RostersAgree(Joined(w, p, room))
  {
    hide Left;
    LeftAgrees(w, p);
    var u, v := Left(w, p), Joined(w, p, room);
    var players, name := u.rooms[room].players, NameOf(w, p);
    assert players[p := name] == Entered(u.rooms[room], p, name).players by {
      assert p in players ==> IsMember(u, p, room);
    }
    JoinEffect(u, v, p, room, name);
  }

  // A player enters, gets the roster, and the others are told.
  lemma {:induction false} JoinEffect(u: World, v: World, p: Id, room: string, name: string)
    requires RostersAgree(u) && room in u.rooms && (forall r: string | IsMember(u, p, r) :: r == room)
    requires var players := u.rooms[room].players[p := name];
             && v.names == u.names && name == NameOf(u, p)
             && v.rooms == u.rooms[room := u.rooms[room].(players := players)]
             && v.views == TellJoined(u.views[p := players], players.Keys - {p}, p, name)
    ensures RostersAgree(v)
  {
    assert forall r: string, q: Id :: IsMember(v, q, r) <==> IsMember(u, q, r) || (q == p && r == room);
    forall r: string, q: Id | IsMember(v, q, r) ensures ViewOf(v.views, q) == v.rooms[r].players {
      if q != p && r != room {
        assert !IsMember(u, q, room);
      }
    }
  }

  lemma {:induction false} RemovedAgrees(w: World, room: string, p: Id)
    requires Placed(w) && RostersAgree(w) && room in w.rooms
    ensures RostersAgree(Removed(w, room, p))
  {
    var v := Removed(w, room, p);
    assert forall r: string, q: Id :: IsMember(v, q, r) ==> IsMember(w, q, r);
    forall r: string, q: Id | IsMember(v, q, r) ensures ViewOf(v.views, q) == v.rooms[r].players {
      assert IsMember(w, q, r);
      if r != room {
        assert !IsMember(w, q, room);
      }
    }
  }

  lemma {:induction false} PoppedAgrees(w: World, room: string)
    requires Placed(w) && room in w.rooms && w.rooms[room].jobs != []
    ensures RostersAgree(Popped(w, room)) <==> RostersAgree(w)
    ensures forall r: string, q: Id :: IsMember(Popped(w, room), q, r) <==> IsMember(w, q, r)
  {
    var u := Popped(w, room);
    assert forall r: string, q: Id :: IsMember(u, q, r) <==> IsMember(w, q, r);
    assert forall r: string, q: Id | IsMember(w, q, r) :: u.rooms[r].players == w.rooms[r].players;
  }

  // Room::EnterObject on its own.
  function Respawned(w: World, room: string, p: Id): World
    requires room in w.rooms
  {
    w.(rooms := w.rooms[room := Entered(w.rooms[room], p, NameOf(w, p))])
  }

  lemma {:induction false} RespawnExactly(w: World, room: string, p: Id)
    requires Placed(w) && RostersAgree(w) && room in w.rooms
    ensures RostersAgree(Respawned(w, room, p)) <==> HarmlessRespawn(w, room, p)
  {
    var v, players := Respawned(w, room, p), w.rooms[room].players;
    if p in players {
      assert v.rooms == w.rooms && v == w;
    } else {
      assert forall r: string, q: Id :: IsMember(v, q, r) <==> IsMember(w, q, r) || (q == p && r == room);
      assert IsMember(v, p, room) && v.rooms[room].players == players[p := NameOf(w, p)];
      if players != map[] {
        var q :| q in players;
        assert IsMember(w, q, room) && p !in ViewOf(w.views, q);
        assert IsMember(v, q, room);
      } else if exists r: string :: IsMember(w, p, r) {
        var r: string :| IsMember(w, p, r);
        assert IsMember(v, p, r) && r != room;
      } else if HarmlessRespawn(w, room, p) {
        assert forall r: string, q: Id | IsMember(v, q, r) :: r != room ==> v.rooms[r].players == w.rooms[r].players;
      }
    }
  }

  lemma {:induction false} JoinExactly(w: World, p: Id, room: string)
    requires Placed(w) && RostersAgree(w) && room in w.rooms
    ensures RostersAgree(Joined(w, p, room)) <==> forall r: string | IsMember(w, p, r) :: r == room
  {
    hide Joined;
    if forall r: string | IsMember(w, p, r) :: r == room {
      JoinAgrees(w, p, room);
    } else {
      var r: string :| IsMember(w, p, r) && r != room;
      JoinEffects(w, p, room, r);
      assert IsMember(Joined(w, p, room), p, r) && IsMember(Joined(w, p, room), p, room);
    }
  }

  lemma {:induction false} CreatedAgrees(w: World, room: string)
    requires Placed(w) && RostersAgree(w)
    ensures Placed(Created(w, room)) && RostersAgree(Created(w, room))
    ensures forall r: string, q: Id :: IsMember(Created(w, room), q, r) <==> IsMember(w, q, r)
  {
    var u := Created(w, room);
    assert forall r: string, q: Id :: IsMember(u, q, r) <==> IsMember(w, q, r);
  }

  // One step from agreeing rosters leaves them agreeing exactly when it is
  // orderly.
  lemma {:induction false} StepAgrees(w: World, s: Step)
    requires Placed(w) && Enabled(w, s) && RostersAgree(w)
    ensures RostersAgree(Do(w, s)) <==> Orderly(w, s)
  {
    hide Joined, Left, Removed, RostersAgree, HarmlessRespawn;
    match s {
      case Join(p, room, isCreate) =>
        CreatedAgrees(w, room);
        JoinExactly(if isCreate then Created(w, room) else w, p, room);
      case Leave(p) => LeftAgrees(w, p);
      case Die(p) => RemovedAgrees(w, w.at[p], p);
      case RequestRespawn(p) =>
        if p in w.at {
          PushedAgrees(w, w.at[p], RespawnJob(p));
        }
      case RunJob(room) => JobAgrees(w, room);
    }
  }

  lemma {:induction false} PushedAgrees(w: World, room: string, job: Job<Id>)
    requires RostersAgree(w) && room in w.rooms
    ensures RostersAgree(Pushed(w, room, job))
  {
    var u := Pushed(w, room, job);
    assert forall r: string, q: Id :: IsMember(u, q, r) <==> IsMember(w, q, r);
  }

  lemma {:induction false} JobAgrees(w: World, room: string)
    requires Placed(w) && Enabled(w, RunJob(room)) && RostersAgree(w)
    ensures RostersAgree(Do(w, RunJob(room))) <==> Orderly(w, RunJob(room))
  {
    hide Removed, RostersAgree;
    var u, job := Popped(w, room), w.rooms[room].jobs[0];
    PoppedAgrees(w, room);
    if job.LeaveJob? {
      RemovedAgrees(u, room, job.p);
    } else {
      RespawnExactly(u, room, job.p);
      assert HarmlessRespawn(u, room, job.p) <==> HarmlessRespawn(w, room, job.p);
    }
  }

  ghost predicate OrderlyRun(w: World, ss: seq<Step>)
    requires Placed(w) && EnabledRun(w, ss)
    decreases |ss|
  {
    ss == [] || (Orderly(w, ss[0]) && OrderlyRun(Do(w, ss[0]), ss[1..]))
  }

  lemma {:induction false} RunAgrees(w: World, ss: seq<Step>)
    requires Placed(w) && EnabledRun(w, ss) && RostersAgree(w) && OrderlyRun(w, ss)
    ensures RostersAgree(Run(w, ss))
    decreases |ss|
  {
    if ss != [] {
      StepAgrees(w, ss[0]);
      RunAgrees(Do(w, ss[0]), ss[1..]);
    }
  }

  // P holds all along a run.
  ghost predicate Throughout(P: World -> bool, w: World, ss: seq<Step>)
    requires Placed(w) && EnabledRun(w, ss)
  {
    forall k :: 0 <= k <= |ss| ==> EnabledRun(w, ss[..k]) && P(Run(w, ss[..k]))
  }

  lemma {:induction false} PrefixStep(w: World, ss: seq<Step>, k: nat)
    requires Placed(w) && ss != [] && EnabledRun(w, ss) && 1 <= k <= |ss|
    ensures var v := Do(w, ss[0]);
            && (EnabledRun(w, ss[..k]) <==> EnabledRun(v, ss[1..][..k - 1]))
            && (EnabledRun(w, ss[..k]) ==> Run(w, ss[..k]) == Run(v, ss[1..][..k - 1]))
  {
    assert ss[..k][0] == ss[0] && ss[..k][1..] == ss[1..][..k - 1];
  }

  // Over every run, in any number of rooms and with any respawns: the roster
  // of every member's client (its join reply, then the notices) is the player
  // map of its only room, all along, exactly when the run is orderly.
  lemma {:induction false} RostersExactly(w: World, ss: seq<Step>)
    requires Placed(w) && EnabledRun(w, ss) && RostersAgree(w)
    ensures Throughout(RostersAgree, w, ss) <==> OrderlyRun(w, ss)
    decreases |ss|
  {
    hide Do, Orderly, RostersAgree, Placed, Enabled, Throughout;
    if ss == [] {
      NoStep(RostersAgree, w);
    } else {
      var v := Do(w, ss[0]);
      StepAgrees(w, ss[0]);
      ThroughoutStep(RostersAgree, w, ss);
      if RostersAgree(v) {
        RostersExactly(v, ss[1..]);
      }
    }
  }

  lemma {:induction false} NoStep(P: World -> bool, w: World)
    requires Placed(w)
    ensures Throughout(P, w, []) <==> P(w)
  {
    var none: seq<Step> := [];
    assert none[..0] == none && Run(w, none) == w;
  }

  lemma {:induction false} ThroughoutStep(P: World -> bool, w: World, ss: seq<Step>)
    requires Placed(w) && ss != [] && EnabledRun(w, ss)
    ensures Throughout(P, w, ss) <==> P(w) && Throughout(P, Do(w, ss[0]), ss[1..])
    ensures Throughout(P, Do(w, ss[0]), ss[1..]) ==> P(Do(w, ss[0]))
  {
    hide Do, Placed, Enabled;
    var v, tail := Do(w, ss[0]), ss[1..];
    assert ss[..0] == [] && tail[..0] == [];
    forall k | 0 <= k <= |tail|
      ensures EnabledRun(w, ss[..k + 1]) <==> EnabledRun(v, tail[..k])
      ensures EnabledRun(w, ss[..k + 1]) ==> Run(w, ss[..k + 1]) == Run(v, tail[..k])
    {
      PrefixStep(w, ss, k + 1);
    }
    if P(w) && Throughout(P, v, tail) {
      forall k | 0 <= k <= |ss| ensures EnabledRun(w, ss[..k]) && P(Run(w, ss[..k])) {
        if k > 0 {
          assert EnabledRun(v, tail[..k - 1]);
          assert ss[..k - 1 + 1] == ss[..k];
        }
      }
    }
    if Throughout(P, w, ss) {
      assert EnabledRun(w, ss[..0]) && P(Run(w, ss[..0]));
      forall k | 0 <= k <= |tail| ensures EnabledRun(v, tail[..k]) && P(Run(v, tail[..k])) {
        assert EnabledRun(w, ss[..k + 1]);
      }
    }
    if Throughout(P, v, tail) {
      assert EnabledRun(v, tail[..0]);
    }
  }

  // Over any orderly run from the start the roster of every member's client is
  // its room's player map.
  lemma {:induction false} RosterAgreement(names: Roster, ss: seq<Step>, room: string, p: Id)
    requires EnabledRun(Start(names), ss) && OrderlyRun(Start(names), ss)
    ensures var w := Run(Start(names), ss);
            IsMember(w, p, room) ==> ViewOf(w.views, p) == w.rooms[room].players
  {
    RunAgrees(Start(names), ss);
  }

  // ------------------------------------------- what an unorderly step leads to

  // If p is a member of the room, its client shows the room's players.
  predicate ShowsRoom(w: World, p: Id, room: string) {
    IsMember(w, p, room) ==> ViewOf(w.views, p) == w.rooms[room].players
  }

  ghost predicate KeepsShowing(w: World, p: Id, room: string)
    requires Placed(w)
  {
    forall ss | EnabledRun(w, ss) && WithoutPlayer(ss, p) && OrderlyRun(w, ss) :: ShowsRoom(Run(w, ss), p, room)
  }

  // A player that joins gets a roster that stays right, whatever orderly steps
  // the others take, exactly when its join was orderly.  That takes another
  // player q, in no room, that may join the old room.
  lemma {:induction false} JoinShows(w: World, p: Id, room: string, isCreate: bool, q: Id)
    requires Placed(w) && RostersAgree(w) && Enabled(w, Join(p, room, isCreate))
    requires q != p && q !in w.at && forall r: string :: !IsMember(w, q, r)
    ensures KeepsShowing(Do(w, Join(p, room, isCreate)), p, room) <==> Orderly(w, Join(p, room, isCreate))
  {
    hide Joined, RostersAgree;
    var u := if isCreate then Created(w, room) else w;
    var v := Joined(u, p, room);
    CreatedAgrees(w, room);
    JoinExactly(u, p, room);
    if Orderly(w, Join(p, room, isCreate)) {
      forall ss | EnabledRun(v, ss) && WithoutPlayer(ss, p) && OrderlyRun(v, ss)
        ensures ShowsRoom(Run(v, ss), p, room)
      {
        RunAgrees(v, ss);
        Shows(Run(v, ss), p, room);
      }
    } else {
      var before: string :| IsMember(w, p, before) && before != room;
      StrayNotice(u, p, q, before, room);
      NoMember(u, p, room, q);
      JoinKeys(u, p, room);
      var ss := [Join(q, before, false)];
      RunOne(v, Join(q, before, false));
      assert WithoutPlayer(ss, p) && OrderlyRun(v, ss);
      assert !ShowsRoom(Run(v, ss), p, room);
    }
  }

  lemma {:induction false} RunOne(w: World, s: Step)
    requires Placed(w) && Enabled(w, s)
    ensures EnabledRun(w, [s]) && Run(w, [s]) == Do(w, s)
    ensures OrderlyRun(w, [s]) <==> Orderly(w, s)
  {
    hide Do, Enabled, Orderly;
    assert [s][1..] == [];
  }

  lemma {:induction false} RunFirst(w: World, s: Step, ss: seq<Step>)
    requires Placed(w) && Enabled(w, s) && EnabledRun(Do(w, s), ss)
    ensures EnabledRun(w, [s] + ss) && Run(w, [s] + ss) == Run(Do(w, s), ss)
  {
    hide Do, Enabled;
    assert ([s] + ss)[1..] == ss;
  }

  lemma {:induction false} Shows(w: World, p: Id, room: string)
    requires RostersAgree(w)
    ensures ShowsRoom(w, p, room)
  {
  }

  lemma {:induction false} NoMember(w: World, p: Id, room: string, q: Id)
    requires Placed(w) && room in w.rooms && q != p && forall r: string :: !IsMember(w, q, r)
    ensures forall r: string :: !IsMember(Joined(w, p, room), q, r)
  {
    hide Joined;
    forall r: string ensures !IsMember(Joined(w, p, room), q, r) {
      if r in w.rooms && r != room {
        JoinEffects(w, p, room, r);
      } else {
        JoinKeys(w, p, room);
      }
      assert !IsMember(w, q, r);
    }
  }

  lemma {:induction false} JoinKeys(w: World, p: Id, room: string)
    requires Placed(w) && room in w.rooms
    ensures Joined(w, p, room).rooms.Keys == w.rooms.Keys
    ensures Joined(w, p, room).rooms[room].players.Keys == w.rooms[room].players.Keys + {p}
  {
    hide TellJoined;
  }

  // A player that joins another room without waiting for its leave job still
  // gets the notices of the old room, and they spoil its roster of the new.
  lemma {:induction false} StrayNotice(w: World, p: Id, q: Id, before: string, current: string)
    requires Placed(w) && IsMember(w, p, before) && current in w.rooms && before != current
    requires p != q && q !in w.at && !IsMember(w, q, current)
    ensures var v := Joined(Joined(w, p, current), q, before);
            && In(v, p, current) && IsMember(v, p, current)
            && q in ViewOf(v.views, p) && q !in v.rooms[current].players
  {
    hide Joined;
    JoinEffects(w, p, current, before);
    JoinEffects(Joined(w, p, current), q, before, current);
    NoticeReaches(Joined(w, p, current), q, before, p);
  }

  lemma {:induction false} JoinEffects(w: World, p: Id, room: string, other: string)
    requires Placed(w) && room in w.rooms && other in w.rooms && other != room
    ensures var v := Joined(w, p, room);
            && v.at == w.at[p := room] && v.rooms.Keys == w.rooms.Keys
            && v.rooms[room].players.Keys == w.rooms[room].players.Keys + {p}
            && v.rooms[other].players == w.rooms[other].players
  {
    hide TellJoined, ViewOf;
  }

  lemma {:induction false} NoticeReaches(w: World, q: Id, room: string, p: Id)
    requires Placed(w) && IsMember(w, p, room) && p != q
    ensures q in ViewOf(Joined(w, q, room).views, p)
  {
  }

  // A reachable case: p moves from room a to room b, then q comes to room a.
  lemma {:induction false} StrayExample(names: Roster, p: Id, q: Id, a: string, b: string)
    requires p != q && a != b
    ensures var ss := [Join(p, a, true), Join(p, b, true), Join(q, a, false)];
            && EnabledRun(Start(names), ss)
            && IsMember(Run(Start(names), ss), p, b) && !ShowsRoom(Run(Start(names), ss), p, b)
  {
    hide Joined;
    var s1, s2, s3 := Join(p, a, true), Join(p, b, true), Join(q, a, false);
    var w0 := Created(Start(names), a);
    var w1 := Joined(w0, p, a);
    JoinKeys(w0, p, a);
    JoinPlaces(w0, p, a);
    var u := Created(w1, b);
    var w2 := Joined(u, p, b);
    JoinEffects(u, p, b, a);
    StrayNotice(u, p, q, a, b);
    RunOne(w2, s3);
    RunFirst(w1, s2, [s3]);
    RunFirst(Start(names), s1, [s2, s3]);
    assert [s1] + [s2, s3] == [s1, s2, s3] && [s2] + [s3] == [s2, s3];
  }

  // A death takes the player out of its room's players at once and leaves it
  // pointing to the room, so it can ask to come back.
  lemma {:induction false} DeadPointsThere(w: World, p: Id, room: string)
    requires Placed(w) && In(w, p, room)
    ensures var v := Do(w, Die(p));
            && In(v, p, room) && !IsMember(v, p, room)
            && (forall r: string, q: Id | q != p || r != room :: IsMember(v, q, r) <==> IsMember(w, q, r))
            && Do(v, RequestRespawn(p)).rooms[room].jobs == w.rooms[room].jobs + [RespawnJob(p)]
  {
  }

  // A player that has left is held by its room, though it is in none, until the
  // leave job runs.
  lemma {:induction false} LeaverExample(names: Roster, p: Id, a: string)
    ensures var ss := [Join(p, a, true), Leave(p)];
            && EnabledRun(Start(names), ss)
            && IsMember(Run(Start(names), ss), p, a) && p !in Run(Start(names), ss).at
  {
    hide Joined;
    var w0 := Created(Start(names), a);
    var w1 := Joined(w0, p, a);
    FreshJoin(w0, p, a);
    RunOne(w1, Leave(p));
    RunFirst(Start(names), Join(p, a, true), [Leave(p)]);
    assert [Join(p, a, true)] + [Leave(p)] == [Join(p, a, true), Leave(p)];
  }

  // A player asks for a respawn and leaves at once: the respawn job runs while
  // the player is in no room.
  lemma {:induction false} AbsentExample(names: Roster, p: Id, a: string)
    ensures var ss := [Join(p, a, true), RequestRespawn(p), Leave(p)];
            && EnabledRun(Start(names), ss)
            && var w := Run(Start(names), ss);
               && a in w.rooms && w.rooms[a].jobs == [RespawnJob(p), LeaveJob(p)] && p !in w.at
  {
    hide Joined;
    var s1, s2, s3 := Join(p, a, true), RequestRespawn(p), Leave(p);
    var w0 := Created(Start(names), a);
    var w1 := Joined(w0, p, a);
    FreshJoin(w0, p, a);
    RunOne(Do(w1, s2), s3);
    RunFirst(w1, s2, [s3]);
    RunFirst(Start(names), s1, [s2, s3]);
    assert [s1] + [s2, s3] == [s1, s2, s3] && [s2] + [s3] == [s2, s3];
  }

  // From any state with two members and no jobs: p asks for a respawn, dies and
  // comes back, and q is not told.
  lemma {:induction false} RespawnUntold(w: World, p: Id, q: Id, room: string)
    requires Placed(w) && IsMember(w, p, room) && IsMember(w, q, room) && p != q
    requires In(w, p, room) && w.rooms[room].jobs == []
    ensures var ss := [RequestRespawn(p), Die(p), RunJob(room)];
            && EnabledRun(w, ss)
            && IsMember(Run(w, ss), p, room) && IsMember(Run(w, ss), q, room) && p !in ViewOf(Run(w, ss).views, q)
  {
    hide Removed;
    var s1, s2, s3 := RequestRespawn(p), Die(p), RunJob(room);
    var w1 := Do(w, s1);
    DeathTold(w1, p, q, room);
    var w2 := Do(w1, s2);
    RunOne(w2, s3);
    RunFirst(w1, s2, [s3]);
    RunFirst(w, s1, [s2, s3]);
    assert [s1] + [s2, s3] == [s1, s2, s3] && [s2] + [s3] == [s2, s3];
  }

  // Such a state is reached when both have joined.
  lemma {:induction false} RespawnExample(names: Roster, p: Id, q: Id, a: string)
    requires p != q
    ensures var ss := [Join(p, a, true), Join(q, a, false), RequestRespawn(p), Die(p), RunJob(a)];
            && EnabledRun(Start(names), ss)
            && IsMember(Run(Start(names), ss), p, a) && IsMember(Run(Start(names), ss), q, a)
            && p !in ViewOf(Run(Start(names), ss).views, q)
  {
    hide Joined;
    var s1, s2, rest := Join(p, a, true), Join(q, a, false), [RequestRespawn(p), Die(p), RunJob(a)];
    var w0 := Created(Start(names), a);
    var w1 := Joined(w0, p, a);
    FreshJoin(w0, p, a);
    FreshJoin(w1, q, a);
    RespawnUntold(Joined(w1, q, a), p, q, a);
    RunFirst(w1, s2, rest);
    RunFirst(Start(names), s1, [s2] + rest);
    assert [s1] + ([s2] + rest) == [s1, s2, RequestRespawn(p), Die(p), RunJob(a)];
  }

  lemma {:induction false} FreshJoin(w: World, p: Id, room: string)
    requires Placed(w) && room in w.rooms && p !in w.at
    ensures var v := Joined(w, p, room);
            && v.at == w.at[p := room] && v.rooms.Keys == w.rooms.Keys
            && v.rooms[room].players.Keys == w.rooms[room].players.Keys + {p}
            && v.rooms[room].jobs == w.rooms[room].jobs
  {
    hide TellJoined;
  }

  lemma {:induction false} DeathTold(w: World, p: Id, q: Id, room: string)
    requires Placed(w) && IsMember(w, p, room) && IsMember(w, q, room) && p != q
    ensures var v := Removed(w, room, p);
            && v.at == w.at && v.rooms.Keys == w.rooms.Keys && v.rooms[room].jobs == w.rooms[room].jobs
            && v.rooms[room].players == w.rooms[room].players - {p} && p !in ViewOf(v.views, q)
  {
  }

  lemma {:induction false} JoinPlaces(w: World, p: Id, room: string)
    requires Placed(w) && room in w.rooms
    ensures Joined(w, p, room).at == w.at[p := room]
  {
  }
}
