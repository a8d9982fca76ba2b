/**
  What clients show of the room they are in (Manager/RoomManager.cpp:15-59),
  while other rooms may still hold them and send them notices.
 */
module Rosters {
  import opened Wire
  import opened RoomWorld

  // The players of a room are listed by their names.
  ghost predicate Named(w: World) {
    forall r: string, p: Id | IsMember(w, p, r) :: w.rooms[r].players[p] == NameOf(w, p)
  }

  // The client of every player that its current room holds shows that room.
  ghost predicate AllShown(w: World) {
    forall p: Id | p in w.at :: ShowsRoom(w, p, w.at[p])
  }

  // The room still holds q, which is a member of another by now.
  predicate Elsewhere(w: World, q: Id, room: string) {
    q in w.at && w.at[q] != room && IsMember(w, q, room) && IsMember(w, q, w.at[q])
  }

  // A notice that p has left the room is no news to those elsewhere.
  ghost predicate QuietLeave(w: World, room: string, p: Id)
    requires Placed(w) && room in w.rooms
  {
    p in w.rooms[room].players ==>
      forall q: Id | q != p && Elsewhere(w, q, room) :: p !in w.rooms[w.at[q]].players
  }

  // The step sends no notice that is news to a client of another room, and no
  // respawn goes without a notice that is needed.
  ghost predicate Quiet(w: World, s: Step)
    requires Placed(w) && Enabled(w, s)
  {
    match s
    case Join(p, room, _) => forall q: Id | q != p && Elsewhere(w, q, room) :: p in w.rooms[w.at[q]].players
    case Leave(_) => true
    case RequestRespawn(_) => true
    case Die(p) => QuietLeave(w, w.at[p], p)
    case RunJob(room) =>
      (match w.rooms[room].jobs[0]
       case LeaveJob(p) => QuietLeave(w, room, p)
       case RespawnJob(p) => QuietRespawn(w, room, p))
  }

  ghost predicate QuietRespawn(w: World, room: string, p: Id)
    requires room in w.rooms
  {
    var players := w.rooms[room].players;
    p in players ||
    (&& (forall q: Id | q != p && In(w, q, room) :: q !in players)
     && (In(w, p, room) ==> ViewOf(w.views, p) == players[p := NameOf(w, p)]))
  }

  // ------------------------------------------------------------- single steps

  lemma {:induction false} JoinPlayers(w: World, p: Id, room: string)
    requires Placed(w) && room in w.rooms
    ensures var v, players := Joined(w, p, room), Entered(w.rooms[room], p, NameOf(w, p)).players;
            && v.names == w.names && v.at == w.at[p := room] && v.rooms.Keys == w.rooms.Keys
            && (forall r :: r in w.rooms ==> v.rooms[r].players == if r == room then players else w.rooms[r].players)
  {
    hide TellJoined, ViewOf;
  }

  lemma {:induction false} JoinViews(w: World, p: Id, room: string)
    requires Placed(w) && room in w.rooms
    ensures var v, players := Joined(w, p, room), Entered(w.rooms[room], p, NameOf(w, p)).players;
            forall q :: ViewOf(v.views, q) ==
                  if q == p then players
                  else if q in players then ViewOf(w.views, q)[p := NameOf(w, p)] else ViewOf(w.views, q)
  {
  }

  lemma {:induction false} JoinNamed(w: World, p: Id, room: string)
    requires Placed(w) && room in w.rooms && Named(w)
    ensures Named(Joined(w, p, room))
  {
    hide Joined;
    JoinPlayers(w, p, room);
    var v := Joined(w, p, room);
    forall r: string, q: Id | IsMember(v, q, r) ensures v.rooms[r].players[q] == NameOf(v, q) {
      assert IsMember(w, q, r) || (q == p && r == room);
    }
  }

  lemma {:induction false} JoinShown(w: World, p: Id, room: string)
    requires Placed(w) && room in w.rooms && Named(w) && AllShown(w)
    ensures AllShown(Joined(w, p, room)) <==>
            forall q: Id | q != p && Elsewhere(w, q, room) :: p in w.rooms[w.at[q]].players
  {
    hide Joined, AllShown;
    JoinPlayers(w, p, room);
    var v := Joined(w, p, room);
    forall q: Id | q in v.at
      ensures ShowsRoom(v, q, v.at[q]) <==>
              (q != p && Elsewhere(w, q, room) ==> p in w.rooms[w.at[q]].players)
    {
      JoinShownTo(w, p, room, q);
    }
    ShownMeans(v);
    assert forall q: Id | q != p && Elsewhere(w, q, room) :: q in v.at;
  }

  lemma {:induction false} ShownMeans(w: World)
    ensures AllShown(w) <==> forall p: Id | p in w.at :: ShowsRoom(w, p, w.at[p])
  {
  }

  // What one client shows after a join.
  lemma {:induction false} JoinShownTo(w: World, p: Id, room: string, q: Id)
    requires Placed(w) && room in w.rooms && Named(w) && AllShown(w)
    requires q in Joined(w, p, room).at
    ensures q != p ==> q in w.at
    ensures var v := Joined(w, p, room);
            ShowsRoom(v, q, v.at[q]) <==>
            (q != p && Elsewhere(w, q, room) ==> p in w.rooms[w.at[q]].players)
  {
    hide Joined;
    JoinPlayers(w, p, room);
    JoinViews(w, p, room);
    if q != p {
      assert ShowsRoom(w, q, w.at[q]);
      if p in w.rooms[w.at[q]].players {
        assert IsMember(w, p, w.at[q]);
      }
      if p in w.rooms[room].players {
        assert IsMember(w, p, room);
      }
    }
  }

  lemma {:induction false} RemoveFacts(w: World, room: string, p: Id)
    requires Placed(w) && room in w.rooms
    ensures var v, players := Removed(w, room, p), w.rooms[room].players;
            && v.names == w.names && v.at == w.at && v.rooms.Keys == w.rooms.Keys
            && (forall r :: r in w.rooms ==>
                  v.rooms[r].players == if r == room then players - {p} else w.rooms[r].players)
            && (forall q :: ViewOf(v.views, q) ==
                  if p in players && q in players && q != p then ViewOf(w.views, q) - {p} else ViewOf(w.views, q))
  {
    assert p !in w.rooms[room].players ==> w.rooms[room].players - {p} == w.rooms[room].players;
  }

  lemma {:induction false} RemoveShown(w: World, room: string, p: Id)
    requires Placed(w) && room in w.rooms && Named(w) && AllShown(w)
    ensures Named(Removed(w, room, p))
    ensures AllShown(Removed(w, room, p)) <==> QuietLeave(w, room, p)
  {
    hide Removed;
    RemoveFacts(w, room, p);
    var v := Removed(w, room, p);
    forall q: Id | q in w.at
      ensures ShowsRoom(v, q, w.at[q]) <==>
              (p in w.rooms[room].players && q != p && Elsewhere(w, q, room) ==> p !in w.rooms[w.at[q]].players)
    {
      assert ShowsRoom(w, q, w.at[q]);
      if w.at[q] != room {
        assert IsMember(v, q, w.at[q]) <==> IsMember(w, q, w.at[q]);
      }
    }
    assert forall r: string, q: Id | IsMember(v, q, r) :: IsMember(w, q, r);
  }

  lemma {:induction false} RespawnShown(w: World, room: string, p: Id)
    requires Placed(w) && room in w.rooms && Named(w) && AllShown(w)
    ensures Named(Respawned(w, room, p))
    ensures AllShown(Respawned(w, room, p)) <==> QuietRespawn(w, room, p)
  {
    var v, players := Respawned(w, room, p), w.rooms[room].players;
    if p in players {
      assert v.rooms == w.rooms && v == w;
    } else {
      assert forall r: string, q: Id | IsMember(v, q, r) :: IsMember(w, q, r) || (q == p && r == room);
      forall q: Id | q in w.at
        ensures ShowsRoom(v, q, w.at[q]) <==>
                (In(w, q, room) ==>
                   if q == p then ViewOf(w.views, p) == players[p := NameOf(w, p)] else q !in players)
      {
        assert ShowsRoom(w, q, w.at[q]);
      }
    }
  }

  // Other changes of the world do not matter.
  lemma {:induction false} SameShown(w: World, v: World)
    requires v.names == w.names && v.views == w.views && w.rooms.Keys <= v.rooms.Keys
    requires forall r :: r in w.rooms ==> v.rooms[r].players == w.rooms[r].players
    requires forall r :: r in v.rooms && r !in w.rooms ==> v.rooms[r].players == map[]
    requires forall p :: p in v.at ==> p in w.at && v.at[p] == w.at[p]
    requires Placed(w)
    ensures Named(w) ==> Named(v)
    ensures AllShown(w) ==> AllShown(v)
  {
    assert forall r: string, p: Id :: IsMember(v, p, r) <==> IsMember(w, p, r);
    forall p: Id | p in v.at && AllShown(w) ensures ShowsRoom(v, p, v.at[p]) {
      assert ShowsRoom(w, p, w.at[p]);
    }
  }

  // One step leaves all the clients right exactly when it is quiet.
  lemma {:induction false} StepShown(w: World, s: Step)
    requires Placed(w) && Enabled(w, s) && Named(w) && AllShown(w)
    ensures Named(Do(w, s))
    ensures AllShown(Do(w, s)) <==> Quiet(w, s)
  {
    hide Joined, Removed, Named, AllShown, QuietRespawn;
    match s {
      case Join(p, room, isCreate) =>
        var u := if isCreate then Created(w, room) else w;
        SameShown(w, u);
        JoinNamed(u, p, room);
        JoinShown(u, p, room);
        assert forall q: Id :: Elsewhere(u, q, room) <==> Elsewhere(w, q, room);
      case Leave(p) => SameShown(w, Left(w, p));
      case RequestRespawn(p) => SameShown(w, Do(w, s));
      case Die(p) => RemoveShown(w, w.at[p], p);
      case RunJob(room) =>
        var u := Popped(w, room);
        SameShown(w, u);
        match w.rooms[room].jobs[0] {
          case LeaveJob(p) =>
            RemoveShown(u, room, p);
            assert forall q: Id :: Elsewhere(u, q, room) <==> Elsewhere(w, q, room);
          case RespawnJob(p) =>
            RespawnShown(u, room, p);
            assert QuietRespawn(u, room, p) <==> QuietRespawn(w, room, p) by { SameRespawn(w, room, p); }
        }
    }
  }

  lemma {:induction false} SameRespawn(w: World, room: string, p: Id)
    requires Placed(w) && room in w.rooms && w.rooms[room].jobs != []
    ensures QuietRespawn(Popped(w, room), room, p) <==> QuietRespawn(w, room, p)
  {
  }

  // --------------------------------------------------------------------- runs

  ghost predicate QuietRun(w: World, ss: seq<Step>)
    requires Placed(w) && EnabledRun(w, ss)
    decreases |ss|
  {
    ss == [] || (Quiet(w, ss[0]) && QuietRun(Do(w, ss[0]), ss[1..]))
  }

  // Over every run: all along, every client shows the room that its player is
  // in, exactly when no step sends a client of another room news.
  lemma {:induction false} ShownExactly(w: World, ss: seq<Step>)
    requires Placed(w) && EnabledRun(w, ss) && Named(w) && AllShown(w)
    ensures Throughout(AllShown, w, ss) <==> QuietRun(w, ss)
    decreases |ss|
  {
    hide Do, Quiet, AllShown, Named, Placed, Enabled, Throughout;
    if ss == [] {
      NoStep(AllShown, w);
    } else {
      var v := Do(w, ss[0]);
      StepShown(w, ss[0]);
      ThroughoutStep(AllShown, w, ss);
      if AllShown(v) {
        ShownExactly(v, ss[1..]);
      }
    }
  }

  lemma {:induction false} ShownFromStart(names: Roster, ss: seq<Step>)
    requires EnabledRun(Start(names), ss)
    ensures Throughout(AllShown, Start(names), ss) <==> QuietRun(Start(names), ss)
  {
    hide Throughout, QuietRun;
    ShownExactly(Start(names), ss);
  }

  // Orderly runs are quiet.
  lemma {:induction false} OrderlyIsQuiet(w: World, ss: seq<Step>)
    requires Placed(w) && EnabledRun(w, ss) && RostersAgree(w) && OrderlyRun(w, ss)
    ensures QuietRun(w, ss)
    decreases |ss|
  {
    if ss != [] {
      hide Do, Quiet, Orderly, AllShown, Named, RostersAgree, Placed, Enabled;
      var v := Do(w, ss[0]);
      StepAgrees(w, ss[0]);
      AgreeIsShown(w);
      AgreeIsShown(v);
      StepShown(w, ss[0]);
      OrderlyIsQuiet(v, ss[1..]);
    }
  }

  lemma {:induction false} AgreeIsShown(w: World)
    requires RostersAgree(w)
    ensures Named(w) && AllShown(w)
  {
  }

  lemma {:induction false} QuietFirst(w: World, s: Step, ss: seq<Step>)
    requires Placed(w) && Enabled(w, s) && EnabledRun(Do(w, s), ss)
    ensures EnabledRun(w, [s] + ss)
    ensures QuietRun(w, [s] + ss) <==> Quiet(w, s) && QuietRun(Do(w, s), ss)
    ensures OrderlyRun(w, [s] + ss) <==> Orderly(w, s) && OrderlyRun(Do(w, s), ss)
  {
    hide Do, Enabled, Quiet, Orderly;
    assert ([s] + ss)[1..] == ss;
  }

  // Nobody but p is in any room.
  predicate Alone(w: World, p: Id) {
    forall r | r in w.rooms :: w.rooms[r].players.Keys <= {p}
  }

  lemma {:induction false} AloneStarts(names: Roster, p: Id)
    ensures Alone(Start(names), p)
  {
  }

  lemma {:induction false} AloneCreates(w: World, p: Id, room: string)
    requires Placed(w) && Alone(w, p)
    ensures Placed(Created(w, room)) && Alone(Created(w, room), p)
  {
  }

  lemma {:induction false} AloneStays(w: World, p: Id, room: string)
    requires Placed(w) && room in w.rooms && Alone(w, p)
    ensures Alone(Joined(w, p, room), p) && Joined(w, p, room).rooms.Keys == w.rooms.Keys
    ensures IsMember(Joined(w, p, room), p, room) && In(Joined(w, p, room), p, room)
    ensures forall before :: In(w, p, before) && before != room ==>
              Joined(w, p, room).rooms[before].jobs == w.rooms[before].jobs + [LeaveJob(p)]
    ensures p !in w.at ==> Joined(w, p, room).rooms[room].jobs == w.rooms[room].jobs
  {
    hide TellJoined;
    JoinPlayers(w, p, room);
  }

  lemma {:induction false} AloneIsQuiet(w: World, p: Id, s: Step)
    requires Placed(w) && Enabled(w, s) && Alone(w, p)
    requires s.RunJob? ==> w.rooms[s.room].jobs[0] == LeaveJob(p)
    requires s.Join? || s.Die? ==> s.p == p
    ensures Quiet(w, s)
  {
  }

  // But not only they are: a player that changes rooms alone never sees a wrong
  // roster, although it does not wait for the leave job.
  lemma {:induction false} QuietExample(names: Roster, p: Id, a: string, b: string)
    requires a != b
    ensures var ss := [Join(p, a, true), Join(p, b, true), RunJob(a)];
            EnabledRun(Start(names), ss) && QuietRun(Start(names), ss) && !OrderlyRun(Start(names), ss)
  {
    hide Joined, Quiet, Alone;
    var s1, s2, s3 := Join(p, a, true), Join(p, b, true), RunJob(a);
    AloneStarts(names, p);
    AloneIsQuiet(Start(names), p, s1);
    AloneCreates(Start(names), p, a);
    var w0 := Created(Start(names), a);
    AloneStays(w0, p, a);
    var w1 := Joined(w0, p, a);
    AloneIsQuiet(w1, p, s2);
    assert !Orderly(w1, s2);
    AloneCreates(w1, p, b);
    AloneStays(Created(w1, b), p, b);
    var w2 := Joined(Created(w1, b), p, b);
    assert w2.rooms[a].jobs == [LeaveJob(p)];
    AloneIsQuiet(w2, p, s3);
    QuietFirst(w2, s3, []);
    QuietFirst(w1, s2, [s3]);
    QuietFirst(Start(names), s1, [s2, s3]);
    assert [s1] + [s2, s3] == [s1, s2, s3] && [s2] + [s3] == [s2, s3] && [s3] + [] == [s3];
  }
}
