/**
  The 23 packets with all their bytes: the header (ServerPacketHandler.h:9-31,
  95-101), then the fields by their tags (Protocol/Protocol.pb.cc).
 */
module Packets {
  import opened Wire
  import opened Records
  import opened Codec
  import opened CodecLaws
  import opened CodecBounds
  import opened CodecTheorems
  import opened Schemas
  import opened Streams
  import opened MessageBytes
  import opened WireForms
  import F = Framing

  // ------------------------------------------------------------------ contents

  datatype Position = Position(x: U32, y: U32, dir: I32)

  datatype Object = Object(id: U64, name: Bytes, health: U32, pos: Option<Position>)

  datatype Packet =
    | ReqEnter(name: Bytes)
    | ResEnter(player: Option<Object>, success: bool)
    | ReqEnterGameRoom(name: Bytes, isCreate: bool)
    | ResEnterGameRoom(memberCount: U32, players: seq<Object>, isCreate: bool, mine: bool)
    | ResEnterGameRoomAll(players: seq<Object>)
    | ReqLeaveGameRoom(objectId: U64)
    | ResLeaveGameRoom(roomName: Bytes, objectId: U64)
    | ReqEnterRoom(name: Bytes)
    | ResEnterRoom(player: Option<Object>, success: bool)
    | ReqLeave
    | ResLeave(objectId: U64)
    | ReqRespawn(objectId: U64, name: Bytes)
    | ResSpawn(player: Option<Object>, mine: bool)
    | ResSpawnAll(players: seq<Object>)
    | ResDespawn(ids: seq<U64>)
    | ResChangeHp(objectId: U64, hp: U32)
    | ResDie(objectId: U64, attacker: U64)
    | ReqMove(info: Option<Position>)
    | ResMove(player: Option<Object>)
    | ResSpawnMonster(monsters: seq<Object>)
    | ResMoveMonster(monster: Option<Object>)
    | ReqAttackObject(attacker: U64, objectId: U64, damage: U32)
    | ResAttackObject(attacker: U64, objectId: U64, damage: U32, remainHp: U32)

  // ---------------------------------------------------------------- the bytes

  function PositionBody(p: Position): Bytes {
    FixedField(13, p.x) + FixedField(21, p.y)
    + VarintField(24, if p.dir < 0 then p.dir + 18446744073709551616 else p.dir)
  }

  function ObjectBody(o: Object): Bytes {
    VarintField(8, o.id) + TextField(18, o.name) + VarintField(24, o.health) + PartField(34, PositionPart(o.pos))
  }

  function PositionPart(p: Option<Position>): Option<Bytes> {
    if p.None? then None else Some(PositionBody(p.value))
  }

  function ObjectPart(o: Option<Object>): Option<Bytes> {
    if o.None? then None else Some(ObjectBody(o.value))
  }

  function ObjectParts(os: seq<Object>): seq<Bytes> {
    seq(|os|, i requires 0 <= i < |os| => ObjectBody(os[i]))
  }

  function Body(p: Packet): Bytes {
    match p
    case ReqEnter(name) => TextField(10, name)
    case ResEnter(player, success) => PartField(10, ObjectPart(player)) + FlagField(16, success)
    case ReqEnterGameRoom(name, isCreate) => TextField(10, name) + FlagField(24, isCreate)
    case ResEnterGameRoom(count, players, isCreate, mine) =>
      VarintField(8, count) + PartsField(18, ObjectParts(players)) + FlagField(24, isCreate) + FlagField(32, mine)
    case ResEnterGameRoomAll(players) => PartsField(10, ObjectParts(players))
    case ReqLeaveGameRoom(id) => VarintField(8, id)
    case ResLeaveGameRoom(name, id) => TextField(10, name) + VarintField(16, id)
    case ReqEnterRoom(name) => TextField(10, name)
    case ResEnterRoom(player, success) => PartField(10, ObjectPart(player)) + FlagField(16, success)
    case ReqLeave => []
    case ResLeave(id) => VarintField(8, id)
    case ReqRespawn(id, name) => VarintField(8, id) + TextField(18, name)
    case ResSpawn(player, mine) => PartField(10, ObjectPart(player)) + FlagField(16, mine)
    case ResSpawnAll(players) => PartsField(10, ObjectParts(players))
    case ResDespawn(ids) => PackedField(10, ids)
    case ResChangeHp(id, hp) => VarintField(8, id) + VarintField(16, hp)
    case ResDie(id, attacker) => VarintField(8, id) + VarintField(16, attacker)
    case ReqMove(info) => PartField(10, PositionPart(info))
    case ResMove(player) => PartField(10, ObjectPart(player))
    case ResSpawnMonster(monsters) => PartsField(10, ObjectParts(monsters))
    case ResMoveMonster(monster) => PartField(10, ObjectPart(monster))
    case ReqAttackObject(attacker, id, damage) =>
      VarintField(8, attacker) + VarintField(16, id) + VarintField(24, damage)
    case ResAttackObject(attacker, id, damage, remain) =>
      VarintField(8, attacker) + VarintField(16, id) + VarintField(24, damage) + VarintField(32, remain)
  }

  // The four bytes of the header: the size of the whole packet and its id.
  function Header(p: Packet): Bytes
    requires |Body(p)| <= 65531
  {
    SizeBytes(|Body(p)| + 4) + NumberBytes(p)
  }

  function SizeBytes(n: nat): Bytes
    requires n <= 65535
  {
    [n % 256, n / 256]
  }

  function NumberBytes(p: Packet): Bytes {
    match p
    case ReqEnter(_) => [232, 3]
    case ResEnter(_, _) => [233, 3]
    case ReqEnterGameRoom(_, _) => [234, 3]
    case ResEnterGameRoom(_, _, _, _) => [235, 3]
    case ResEnterGameRoomAll(_) => [236, 3]
    case ReqLeaveGameRoom(_) => [237, 3]
    case ResLeaveGameRoom(_, _) => [238, 3]
    case ReqEnterRoom(_) => [239, 3]
    case ResEnterRoom(_, _) => [240, 3]
    case ReqLeave => [241, 3]
    case ResLeave(_) => [242, 3]
    case ReqRespawn(_, _) => [243, 3]
    case ResSpawn(_, _) => [244, 3]
    case ResSpawnAll(_) => [245, 3]
    case ResDespawn(_) => [246, 3]
    case ResChangeHp(_, _) => [247, 3]
    case ResDie(_, _) => [248, 3]
    case ReqMove(_) => [249, 3]
    case ResMove(_) => [250, 3]
    case ResSpawnMonster(_) => [251, 3]
    case ResMoveMonster(_) => [252, 3]
    case ReqAttackObject(_, _, _) => [253, 3]
    case ResAttackObject(_, _, _, _) => [254, 3]
  }

  // -------------------------------------------------------- types and messages

  function Type(p: Packet): F.PacketType {
    match p
    case ReqEnter(_) => F.REQ_ENTER
    case ResEnter(_, _) => F.RES_ENTER
    case ReqEnterGameRoom(_, _) => F.REQ_ENTER_GAMEROOM
    case ResEnterGameRoom(_, _, _, _) => F.RES_ENTER_GAMEROOM
    case ResEnterGameRoomAll(_) => F.RES_ENTER_GAMEROOM_ALL
    case ReqLeaveGameRoom(_) => F.REQ_LEAVE_GAMEROOM
    case ResLeaveGameRoom(_, _) => F.RES_LEAVE_GAMEROOM
    case ReqEnterRoom(_) => F.REQ_ENTER_ROOM
    case ResEnterRoom(_, _) => F.RES_ENTER_ROOM
    case ReqLeave => F.REQ_LEAVE
    case ResLeave(_) => F.RES_LEAVE
    case ReqRespawn(_, _) => F.REQ_RESPAWN
    case ResSpawn(_, _) => F.RES_SPAWN
    case ResSpawnAll(_) => F.RES_SPAWN_ALL
    case ResDespawn(_) => F.RES_DESPAWN
    case ResChangeHp(_, _) => F.RES_CHANGE_HP
    case ResDie(_, _) => F.RES_DIE
    case ReqMove(_) => F.REQ_MOVE
    case ResMove(_) => F.RES_MOVE
    case ResSpawnMonster(_) => F.RES_SPAWN_MONSTER
    case ResMoveMonster(_) => F.RES_MOVE_MONSTER
    case ReqAttackObject(_, _, _) => F.REQ_ATTACK_OBJECT
    case ResAttackObject(_, _, _, _) => F.RES_ATTACK_OBJECT
  }

  function PositionMsg(p: Position): (m: Msg)
    ensures Shaped(POSITION_INFO, m)
  {
    Msg([Num(p.x), Num(p.y), Num(p.dir)], [])
  }

  function ObjectMsg(o: Object): (m: Msg)
    ensures Shaped(OBJECT_INFO, m)
  {
    Msg([Num(o.id), Str(o.name), Num(o.health), Sub(PositionOpt(o.pos))], [])
  }

  function PositionOpt(p: Option<Position>): (m: Option<Msg>)
    ensures m.Some? ==> Shaped(POSITION_INFO, m.value)
  {
    if p.None? then None else Some(PositionMsg(p.value))
  }

  function ObjectOpt(o: Option<Object>): (m: Option<Msg>)
    ensures m.Some? ==> Shaped(OBJECT_INFO, m.value)
  {
    if o.None? then None else Some(ObjectMsg(o.value))
  }

  function ObjectMsgs(os: seq<Object>): (ms: seq<Msg>)
    ensures forall x | x in ms :: Shaped(OBJECT_INFO, x)
  {
    seq(|os|, i requires 0 <= i < |os| => ObjectMsg(os[i]))
  }

  // What a handler gets: the fields in the order of their numbers.
  function MessageOf(p: Packet): Msg {
    match p
    case ReqEnter(name) => Msg([Str(name)], [])
    case ResEnter(player, success) => Msg([Sub(ObjectOpt(player)), Num(BoolNum(success))], [])
    case ReqEnterGameRoom(name, isCreate) => Msg([Str(name), Num(BoolNum(isCreate))], [])
    case ResEnterGameRoom(count, players, isCreate, mine) =>
      Msg([Num(count), Rep(ObjectMsgs(players)), Num(BoolNum(isCreate)), Num(BoolNum(mine))], [])
    case ResEnterGameRoomAll(players) => Msg([Rep(ObjectMsgs(players))], [])
    case ReqLeaveGameRoom(id) => Msg([Num(id)], [])
    case ResLeaveGameRoom(name, id) => Msg([Str(name), Num(id)], [])
    case ReqEnterRoom(name) => Msg([Str(name)], [])
    case ResEnterRoom(player, success) => Msg([Sub(ObjectOpt(player)), Num(BoolNum(success))], [])
    case ReqLeave => Msg([], [])
    case ResLeave(id) => Msg([Num(id)], [])
    case ReqRespawn(id, name) => Msg([Num(id), Str(name)], [])
    case ResSpawn(player, mine) => Msg([Sub(ObjectOpt(player)), Num(BoolNum(mine))], [])
    case ResSpawnAll(players) => Msg([Rep(ObjectMsgs(players))], [])
    case ResDespawn(ids) => Msg([Ints(ids)], [])
    case ResChangeHp(id, hp) => Msg([Num(id), Num(hp)], [])
    case ResDie(id, attacker) => Msg([Num(id), Num(attacker)], [])
    case ReqMove(info) => Msg([Sub(PositionOpt(info))], [])
    case ResMove(player) => Msg([Sub(ObjectOpt(player))], [])
    case ResSpawnMonster(monsters) => Msg([Rep(ObjectMsgs(monsters))], [])
    case ResMoveMonster(monster) => Msg([Sub(ObjectOpt(monster))], [])
    case ReqAttackObject(attacker, id, damage) => Msg([Num(attacker), Num(id), Num(damage)], [])
    case ResAttackObject(attacker, id, damage, remain) =>
      Msg([Num(attacker), Num(id), Num(damage), Num(remain)], [])
  }

  // Shown for requests and responses apart.
  predicate IsRequest(p: Packet) {
    p.ReqEnter? || p.ReqEnterGameRoom? || p.ReqLeaveGameRoom? || p.ReqEnterRoom? || p.ReqLeave? || p.ReqRespawn?
    || p.ReqMove? || p.ReqAttackObject?
  }

  lemma {:induction false} RequestShaped(p: Packet)
    requires IsRequest(p)
    ensures Shaped(F.SchemaOf(Type(p)), MessageOf(p))
  {
    hide PositionMsg;
  }

  lemma {:induction false} ResponseShaped(p: Packet)
    requires !IsRequest(p)
    ensures Shaped(F.SchemaOf(Type(p)), MessageOf(p))
  {
    hide ObjectMsg, ObjectMsgs, ObjectOpt;
  }

  // ------------------------------------------------------------------ sending

  lemma {:induction false} NoUnknown(b: Bytes)
    ensures b + WriteRecords([]) == b
  {
  }

  lemma {:induction false} PositionIs(p: Position)
    ensures Serialize(POSITION_INFO, PositionMsg(p)) == PositionBody(p)
  {
    hide Serialize, FixedField, VarintField;
    PositionBytes(p.x, p.y, p.dir, []);
    NoUnknown(PositionBody(p));
  }

  lemma {:induction false} PositionPartIs(p: Option<Position>)
    ensures BytesOf(POSITION_INFO, PositionOpt(p)) == PositionPart(p)
  {
    if p.Some? {
      PositionIs(p.value);
    }
  }

  lemma {:induction false} ObjectIs(o: Object)
    ensures Serialize(OBJECT_INFO, ObjectMsg(o)) == ObjectBody(o)
  {
    hide Serialize, TextField, VarintField, PartField, PositionOpt, PositionPart, BytesOf;
    ObjectBytes(o.id, o.name, o.health, PositionOpt(o.pos), []);
    PositionPartIs(o.pos);
    NoUnknown(ObjectBody(o));
  }

  lemma {:induction false} ObjectPartIs(o: Option<Object>)
    ensures BytesOf(OBJECT_INFO, ObjectOpt(o)) == ObjectPart(o)
  {
    hide ObjectMsg, ObjectBody, Serialize;
    if o.Some? {
      ObjectIs(o.value);
    }
  }

  lemma {:induction false} ObjectPartsAre(os: seq<Object>)
    ensures AllBytes(OBJECT_INFO, ObjectMsgs(os)) == ObjectParts(os)
  {
    hide ObjectMsg, ObjectBody, Serialize;
    forall i | 0 <= i < |os| ensures Serialize(OBJECT_INFO, ObjectMsgs(os)[i]) == ObjectBody(os[i]) {
      ObjectIs(os[i]);
    }
  }

  lemma {:induction false} RequestBody(p: Packet)
    requires IsRequest(p) && Shaped(F.SchemaOf(Type(p)), MessageOf(p))
    ensures Serialize(F.SchemaOf(Type(p)), MessageOf(p)) == Body(p)
  {
    hide Serialize, ObjectOpt, ObjectMsgs, PositionOpt, ObjectParts, ObjectPart, PositionPart, BytesOf, AllBytes;
    hide VarintField, FlagField, TextField, PartField, PartsField, PackedField, WriteRecords, Shaped, BoolNum;
    NoUnknown(Body(p));
    match p {
      case ReqEnter(name) => NameBytes(name, []);
      case ReqEnterGameRoom(name, isCreate) => EnterGameRoomRequestBytes(name, isCreate, []);
      case ReqLeaveGameRoom(id) => IdBytes(id, []);
      case ReqEnterRoom(name) => NameBytes(name, []);
      case ReqLeave => LeaveBytes([]);
      case ReqRespawn(id, name) => RespawnBytes(id, name, []);
      case ReqMove(info) =>
        PositionPartIs(info);
        MoveRequestBytes(PositionOpt(info), []);
      case ReqAttackObject(attacker, id, damage) => AttackRequestBytes(attacker, id, damage, []);
      case _ =>
    }
  }

  lemma {:induction false} ResponseBody(p: Packet)
    requires !IsRequest(p) && Shaped(F.SchemaOf(Type(p)), MessageOf(p))
    ensures Serialize(F.SchemaOf(Type(p)), MessageOf(p)) == Body(p)
  {
    hide Serialize, ObjectOpt, ObjectMsgs, PositionOpt, ObjectParts, ObjectPart, PositionPart, BytesOf, AllBytes;
    hide VarintField, FlagField, TextField, PartField, PartsField, PackedField, WriteRecords, Shaped, BoolNum;
    NoUnknown(Body(p));
    match p {
      case ResEnter(player, success) =>
        ObjectPartIs(player);
        ObjectFlagBytes(ObjectOpt(player), success, []);
      case ResEnterGameRoom(count, players, isCreate, mine) =>
        ObjectPartsAre(players);
        EnterGameRoomBytes(count, ObjectMsgs(players), isCreate, mine, []);
      case ResEnterGameRoomAll(players) =>
        ObjectPartsAre(players);
        ObjectsBytes(ObjectMsgs(players), []);
      case ResLeaveGameRoom(name, id) => LeaveGameRoomBytes(name, id, []);
      case ResEnterRoom(player, success) =>
        ObjectPartIs(player);
        ObjectFlagBytes(ObjectOpt(player), success, []);
      case ResLeave(id) => IdBytes(id, []);
      case ResSpawn(player, mine) =>
        ObjectPartIs(player);
        ObjectFlagBytes(ObjectOpt(player), mine, []);
      case ResSpawnAll(players) =>
        ObjectPartsAre(players);
        ObjectsBytes(ObjectMsgs(players), []);
      case ResDespawn(ids) => DespawnBytes(ids, []);
      case ResChangeHp(id, hp) => ChangeHpBytes(id, hp, []);
      case ResDie(id, attacker) => DieBytes(id, attacker, []);
      case ResMove(player) =>
        ObjectPartIs(player);
        ObjectOnlyBytes(ObjectOpt(player), []);
      case ResSpawnMonster(monsters) =>
        ObjectPartsAre(monsters);
        ObjectsBytes(ObjectMsgs(monsters), []);
      case ResMoveMonster(monster) =>
        ObjectPartIs(monster);
        ObjectOnlyBytes(ObjectOpt(monster), []);
      case ResAttackObject(attacker, id, damage, remain) => AttackBytes(attacker, id, damage, remain, []);
      case _ =>
    }
  }

  // Every message is serialized as the bytes spelled out.
  lemma {:induction false} BodyIs(p: Packet)
    ensures Shaped(F.SchemaOf(Type(p)), MessageOf(p))
    ensures Serialize(F.SchemaOf(Type(p)), MessageOf(p)) == Body(p)
  {
    hide Shaped, Serialize, Body, MessageOf, F.SchemaOf, Type;
    if IsRequest(p) {
      RequestShaped(p);
      RequestBody(p);
    } else {
      ResponseShaped(p);
      ResponseBody(p);
    }
  }

  // And sent behind the header spelled out.
  lemma {:induction false} FrameIs(p: Packet)
    requires |Body(p)| <= 65531
    ensures F.Frame(F.Id(Type(p)), Body(p)) == Header(p) + Body(p)
  {
    hide Body;
    assert F.LE16(4 + |Body(p)|) + F.LE16(F.Id(Type(p))) == Header(p);
  }

  // ---------------------------------------------------------------- receiving

  predicate ObjectTexts(os: seq<Object>) {
    forall o | o in os :: ValidUtf8(o.name)
  }

  // The texts of a packet are UTF-8.
  predicate Texts(p: Packet) {
    match p
    case ReqEnter(name) => ValidUtf8(name)
    case ResEnter(player, _) => player.Some? ==> ValidUtf8(player.value.name)
    case ReqEnterGameRoom(name, _) => ValidUtf8(name)
    case ResEnterGameRoom(_, players, _, _) => ObjectTexts(players)
    case ResEnterGameRoomAll(players) => ObjectTexts(players)
    case ResLeaveGameRoom(name, _) => ValidUtf8(name)
    case ReqEnterRoom(name) => ValidUtf8(name)
    case ResEnterRoom(player, _) => player.Some? ==> ValidUtf8(player.value.name)
    case ReqRespawn(_, name) => ValidUtf8(name)
    case ResSpawn(player, _) => player.Some? ==> ValidUtf8(player.value.name)
    case ResSpawnAll(players) => ObjectTexts(players)
    case ResMove(player) => player.Some? ==> ValidUtf8(player.value.name)
    case ResSpawnMonster(monsters) => ObjectTexts(monsters)
    case ResMoveMonster(monster) => monster.Some? ==> ValidUtf8(monster.value.name)
    case _ => true
  }

  lemma {:induction false} PartLength(tag: Byte, parts: seq<Bytes>, i: nat)
    requires i < |parts|
    ensures |parts[i]| <= |PartsField(tag, parts)|
  {
    if i < |parts| - 1 {
      PartLength(tag, parts[..|parts| - 1], i);
    }
  }

  lemma {:induction false} NameLength(o: Object)
    ensures |o.name| <= |ObjectBody(o)|
  {
  }

  lemma {:induction false} ObjectContent(o: Object, depth: nat)
    requires ValidUtf8(o.name) && |o.name| <= 65531 && depth > 0
    ensures Content(OBJECT_INFO, ObjectMsg(o), depth)
  {
  }

  // The names of some players are no longer than all the bytes of the players.
  lemma {:induction false} NamesLength(tag: Byte, os: seq<Object>)
    ensures forall o | o in os :: |o.name| <= |PartsField(tag, ObjectParts(os))|
  {
    hide ObjectBody, PartsField;
    forall i | 0 <= i < |os| ensures |os[i].name| <= |PartsField(tag, ObjectParts(os))| {
      PartLength(tag, ObjectParts(os), i);
      NameLength(os[i]);
    }
  }

  lemma {:induction false} ObjectsContent(os: seq<Object>, depth: nat)
    requires depth > 0 && forall o | o in os :: ValidUtf8(o.name) && |o.name| <= 65531
    ensures forall x | x in ObjectMsgs(os) :: Content(OBJECT_INFO, x, depth)
  {
    hide Content, ObjectMsg;
    forall i | 0 <= i < |os| ensures Content(OBJECT_INFO, ObjectMsgs(os)[i], depth) {
      assert os[i] in os;
      ObjectContent(os[i], depth);
    }
  }

  lemma {:induction false} ObjectOptContent(tag: Byte, o: Option<Object>, depth: nat)
    requires (o.Some? ==> ValidUtf8(o.value.name)) && depth > 0 && |PartField(tag, ObjectPart(o))| <= 65531
    ensures ObjectOpt(o).Some? ==> Content(OBJECT_INFO, ObjectOpt(o).value, depth)
  {
    hide Content, ObjectMsg, ObjectBody;
    if o.Some? {
      NameLength(o.value);
      ObjectContent(o.value, depth);
    }
  }

  lemma {:induction false} FieldsContent(s: Schema, m: Msg, depth: nat)
    requires Shaped(s, m) && m.unknown == []
    requires forall i :: 0 <= i < |s.fields| ==> ContentVal(s.fields[i].kind, m.vals[i], depth)
    ensures Content(s, m, depth)
  {
  }

  lemma {:induction false} RequestContent(p: Packet)
    requires IsRequest(p) && |Body(p)| <= 65531 && Texts(p) && Shaped(F.SchemaOf(Type(p)), MessageOf(p))
    ensures Content(F.SchemaOf(Type(p)), MessageOf(p), 100)
  {
    hide Content, ValidUtf8, PartField, FlagField, VarintField, PositionOpt;
    match p {
      case ReqMove(info) => PositionContent(info, 99);
      case _ =>
    }
    FieldsContent(F.SchemaOf(Type(p)), MessageOf(p), 100);
  }

  lemma {:induction false} ResponseContent(p: Packet)
    requires !IsRequest(p) && |Body(p)| <= 65531 && Texts(p) && Shaped(F.SchemaOf(Type(p)), MessageOf(p))
    ensures Content(F.SchemaOf(Type(p)), MessageOf(p), 100)
  {
    hide Content, ObjectMsg, ObjectBody, ValidUtf8, ObjectMsgs, ObjectOpt, ObjectParts, ObjectPart;
    hide PartsField, PartField, FlagField, VarintField, PackedField;
    match p {
      case ResEnter(player, _) => ObjectOptContent(10, player, 99);
      case ResEnterGameRoom(_, players, _, _) =>
        NamesLength(18, players);
        ObjectsContent(players, 99);
      case ResEnterGameRoomAll(players) =>
        NamesLength(10, players);
        ObjectsContent(players, 99);
      case ResEnterRoom(player, _) => ObjectOptContent(10, player, 99);
      case ResSpawn(player, _) => ObjectOptContent(10, player, 99);
      case ResSpawnAll(players) =>
        NamesLength(10, players);
        ObjectsContent(players, 99);
      case ResMove(player) => ObjectOptContent(10, player, 99);
      case ResSpawnMonster(monsters) =>
        NamesLength(10, monsters);
        ObjectsContent(monsters, 99);
      case ResMoveMonster(monster) => ObjectOptContent(10, monster, 99);
      case _ =>
    }
    FieldsContent(F.SchemaOf(Type(p)), MessageOf(p), 100);
  }

  lemma {:induction false} MessageContent(p: Packet)
    requires |Body(p)| <= 65531 && Texts(p) && Shaped(F.SchemaOf(Type(p)), MessageOf(p))
    ensures Content(F.SchemaOf(Type(p)), MessageOf(p), 100)
  {
    hide Content, Shaped, Body, Texts, MessageOf, F.SchemaOf, Type;
    if IsRequest(p) {
      RequestContent(p);
    } else {
      ResponseContent(p);
    }
  }

  lemma {:induction false} PositionContent(p: Option<Position>, depth: nat)
    ensures PositionOpt(p).Some? ==> Content(POSITION_INFO, PositionOpt(p).value, depth)
  {
  }

  // Every packet is parsed from those bytes to what was put in.
  lemma {:induction false} ParsedAs(p: Packet)
    requires |Body(p)| <= 65531 && Texts(p)
    ensures F.ParseFrame(Type(p), Header(p) + Body(p)) == Some(MessageOf(p))
  {
    hide Serialize, Body, MessageOf, Content, F.SchemaOf, F.Frame, F.ParseFrame, Texts, Shaped, Header;
    BodyIs(p);
    MessageContent(p);
    F.Schemas(Type(p));
    SizeExact(F.SchemaOf(Type(p)), MessageOf(p));
    F.FrameRoundTrip(Type(p), MessageOf(p));
    FrameIs(p);
  }

  // A request that is received calls its handler with what was put in, and a
  // response calls none; either way the loop goes on with what follows.
  lemma {:induction false} Received(p: Packet, more: Bytes)
    requires |Body(p)| <= 65531 && Texts(p)
    ensures F.Receive(Header(p) + Body(p) + more) ==
            F.Before(if IsRequest(p) then [F.Call(Type(p), MessageOf(p))] else [], F.Receive(more))
    ensures F.Receive(Header(p) + Body(p)) ==
            (if IsRequest(p) then [F.Call(Type(p), MessageOf(p))] else [], F.Done)
  {
    hide Body, MessageOf, F.ParseFrame, Texts, Header, F.Receive;
    var f := Header(p) + Body(p);
    FrameIs(p);
    F.FrameHeader(F.Id(Type(p)), Body(p));
    ParsedAs(p);
    F.HandlerForId(Type(p));
    OnePacket(p, f, more);
    OnePacket(p, f, []);
    assert f + [] == f;
    F.ReceiveFront([]);
    var calls := if IsRequest(p) then [F.Call(Type(p), MessageOf(p))] else [];
    assert calls + [] == calls;
  }

  lemma {:induction false} OnePacket(p: Packet, f: Bytes, more: Bytes)
    requires F.IsFrame(f) && F.HeaderId(f) == F.Id(Type(p))
    requires F.ParseFrame(Type(p), f) == Some(MessageOf(p))
    ensures F.Receive(f + more) ==
            F.Before(if IsRequest(p) then [F.Call(Type(p), MessageOf(p))] else [], F.Receive(more))
  {
    hide Body, MessageOf, F.ParseFrame, F.Receive;
    var b := f + more;
    F.HandlerForId(Type(p));
    F.ReceiveFront(b);
    assert b[..|f|] == f && b[|f|..] == more;
    assert F.HeaderId(b) == F.HeaderId(f) && F.HeaderSize(b) == |f|;
  }

  // The ids of the requests.
  predicate Handles(id: nat) {
    id in {1000, 1002, 1005, 1007, 1009, 1011, 1017, 1021}
  }

  // What the loop does with any bytes, told from the four bytes of the header:
  // size n and id.
  lemma {:induction false} AnyHeader(b: Bytes)
    ensures |b| < 4 ==> F.Receive(b) == ([], F.Done)
    ensures |b| >= 4 ==>
              var n: int, id: int := b[0] as int + 256 * b[1] as int, b[2] as int + 256 * b[3] as int;
              F.Receive(b) ==
              if |b| < n then ([], F.Done)
              else if id == 65535 then ([], F.OutsideTable)
              else if !Handles(id) then if n == 0 then ([], F.Forever) else F.Receive(b[n..])
              else if n < 4 then ([], F.NegativeLength)
              else F.Before(F.CallOf(b[..n]), F.Receive(b[n..]))
  {
    hide F.Receive, F.CallOf;
    F.ReceiveFront(b);
    if |b| >= 4 {
      var n, id := F.HeaderSize(b), F.HeaderId(b);
      assert F.HandlerFor(id).Some? <==> Handles(id);
      if |b| >= n > 0 {
        F.BeforeIs([], F.Receive(b[n..]));
        assert [] + F.Receive(b[n..]).0 == F.Receive(b[n..]).0;
      }
    }
  }

  // A request that cannot be parsed calls nothing, and the loop goes on.
  lemma {:induction false} Unparsed(t: F.PacketType, body: Bytes, more: Bytes)
    requires F.IsRequest(t) && |body| <= 65531
    requires Parse(F.SchemaOf(t), Default(F.SchemaOf(t)), body, 100).None?
    ensures F.Receive(F.Frame(F.Id(t), body) + more) == F.Receive(more)
  {
    hide F.Receive, Parse, F.Frame, F.SchemaOf;
    var f := F.Frame(F.Id(t), body);
    var b := f + more;
    F.FrameHeader(F.Id(t), body);
    F.HandlerForId(t);
    F.ReceiveFront(b);
    assert b[..|f|] == f && b[|f|..] == more;
    assert F.HeaderId(b) == F.HeaderId(f) && F.HeaderSize(b) == |f|;
    assert [] + F.Receive(more).0 == F.Receive(more).0;
  }

  // An enter request whose name is not UTF-8.
  lemma {:induction false} UnparsedExample(more: Bytes)
    ensures F.Receive([7, 0, 232, 3, 10, 1, 255] + more) == F.Receive(more)
  {
    hide F.Receive, Fold, ReadRecords;
    var r := Len(1, [255]);
    LenForm(1, [255]);
    assert EncodeVarint(1) == [1];
    ReadRecordsOfWrite([r], 100);
    FoldOne(REQ_ENTER, Default(REQ_ENTER), r, 100);
    RequestSchemas();
    TargetOf(REQ_ENTER, 0, r);
    assert !ValidUtf8([255]);
    assert WriteRecords([r]) == [10, 1, 255] && Fits(r, 100);
    assert ReadRecords([10, 1, 255], 100) == Some([r]);
    assert ApplyVal(String, Str([]), r, 100).None?;
    assert Apply(REQ_ENTER, Default(REQ_ENTER), r, 100).None?;
    Unparsed(F.REQ_ENTER, [10, 1, 255], more);
    assert F.Frame(1000, [10, 1, 255]) == [7, 0, 232, 3, 10, 1, 255];
  }

  // The bytes of an enter request for a short name.
  lemma {:induction false} EnterExample(name: Bytes)
    requires 1 <= |name| <= 127 && ValidUtf8(name)
    ensures F.Receive([6 + |name|, 0, 232, 3, 10, |name|] + name) ==
            ([F.Call(F.REQ_ENTER, Msg([Str(name)], []))], F.Done)
  {
    hide F.Receive;
    Received(ReqEnter(name), []);
    assert Header(ReqEnter(name)) + Body(ReqEnter(name)) == [6 + |name|, 0, 232, 3, 10, |name|] + name;
  }

  // ---------------------------------------------------------------- any message

  // Everything a message says is text in UTF-8, its lengths are in range, and
  // its unknown fields are unknown and no groups.
  predicate Plain(s: Schema, m: Msg)
    requires Shaped(s, m)
    decreases s, 1
  {
    && (forall i :: 0 <= i < |s.fields| ==> PlainVal(s.fields[i].kind, m.vals[i]))
    && (forall r | r in m.unknown :: Target(s, r).None? && !r.Group? && (r.Len? ==> |r.data| <= 65531))
  }

  predicate PlainVal(k: Kind, v: Value)
    requires ShapedVal(k, v)
    decreases k, 0
  {
    match k
    case String => ValidUtf8(v.s) && |v.s| <= 65531
    case Message(sub) => v.m.Some? ==> Plain(sub, v.m.value)
    case Repeated(sub) => forall x | x in v.ms :: Plain(sub, x)
    case _ => true
  }

  // Sub-messages nest at most depth deep.
  predicate Nests(s: Schema, depth: nat)
    decreases s, 1
  {
    forall i :: 0 <= i < |s.fields| ==> NestsKind(s.fields[i].kind, depth)
  }

  predicate NestsKind(k: Kind, depth: nat)
    decreases k, 0
  {
    match k
    case Message(sub) => depth > 0 && Nests(sub, depth - 1)
    case Repeated(sub) => depth > 0 && Nests(sub, depth - 1)
    case _ => true
  }

  lemma {:induction false} PlainContent(s: Schema, m: Msg, levels: nat, depth: nat)
    requires Shaped(s, m) && Plain(s, m) && Nests(s, levels) && levels <= depth
    ensures Content(s, m, depth)
    decreases s, 1
  {
    forall i | 0 <= i < |s.fields| ensures ContentVal(s.fields[i].kind, m.vals[i], depth) {
      PlainContentVal(s.fields[i].kind, m.vals[i], levels, depth);
    }
  }

  lemma {:induction false} PlainContentVal(k: Kind, v: Value, levels: nat, depth: nat)
    requires ShapedVal(k, v) && PlainVal(k, v) && NestsKind(k, levels) && levels <= depth
    ensures ContentVal(k, v, depth)
    decreases k, 0
  {
    match k {
      case Message(sub) =>
        if v.m.Some? {
          PlainContent(sub, v.m.value, levels - 1, depth - 1);
        }
      case Repeated(sub) =>
        forall x | x in v.ms ensures Content(sub, x, depth - 1) {
          PlainContent(sub, x, levels - 1, depth - 1);
        }
      case _ =>
    }
  }

  lemma {:induction false} PacketsNest(t: F.PacketType)
    ensures Nests(F.SchemaOf(t), 2)
  {
    assert Nests(POSITION_INFO, 0) && Nests(OBJECT_INFO, 1);
  }

  // Any packet type, any message of it: it is received as it was sent if it is
  // plain.
  lemma {:induction false} PlainRoundTrip(t: F.PacketType, m: Msg)
    requires Shaped(F.SchemaOf(t), m) && Size(F.SchemaOf(t), m) <= 65531 && Plain(F.SchemaOf(t), m)
    ensures |Serialize(F.SchemaOf(t), m)| <= 65531
    ensures F.ParseFrame(t, F.Frame(F.Id(t), Serialize(F.SchemaOf(t), m))) == Some(m)
  {
    hide Shaped, Size, Serialize, Content, Plain, Nests, F.ParseFrame, F.Frame, F.SchemaOf;
    PacketsNest(t);
    PlainContent(F.SchemaOf(t), m, 2, 100);
    F.FrameRoundTrip(t, m);
  }

  // The nesting limit: k groups, one inside the other, are received in a request
  // exactly when there are at most a hundred, and one less in a sub-message.
  lemma {:induction false} NestingLimit(num: FieldNum, k: nat)
    requires |WriteRecords(Groups(num, k))| <= 65531
    ensures F.ParseFrame(F.REQ_LEAVE, F.Frame(1009, WriteRecords(Groups(num, k)))) ==
            if k <= 100 then Some(Msg([], Groups(num, k))) else None
  {
    hide F.Frame, Fold;
    var rs := Groups(num, k);
    F.FrameHeader(1009, WriteRecords(rs));
    ReadRecordsOfWrite(rs, 100);
    GroupsFit(num, k, 100);
    FoldUnknown(REQ_LEAVE, Default(REQ_LEAVE), rs, 100);
    assert [] + rs == rs && Default(REQ_LEAVE).vals == [];
  }

  lemma {:induction false} NestingLimitInside(num: FieldNum, k: nat)
    requires num > 3 && 0 < |WriteRecords(Groups(num, k))| <= 65000
    ensures var part := WriteRecords(Groups(num, k));
            |PartField(10, Some(part))| <= 65531
            && F.ParseFrame(F.REQ_MOVE, F.Frame(1017, PartField(10, Some(part)))) ==
               if k <= 99 then Some(Msg([Sub(Some(Msg([Num(0), Num(0), Num(0)], Groups(num, k))))], [])) else None
  {
    hide F.Frame, Fold, WriteRecords, ReadRecords, WriteRecord;
    var rs := Groups(num, k);
    var part := WriteRecords(rs);
    var r, b := Len(1, part), PartField(10, Some(part));
    EncodeLengthBounds(|part|);
    LenForm(1, part);
    F.FrameHeader(1017, b);
    assert b == WriteRecords([r]);
    ReadRecordsOfWrite([r], 100);
    assert ReadRecords(b, 100) == Some([r]);
    PositionOfGroups(num, k);
    FoldOne(REQ_MOVE, Default(REQ_MOVE), r, 100);
    NestedSchemas();
    TargetOf(REQ_MOVE, 0, r);
    var v := Default(REQ_MOVE).vals[0];
    assert v == Sub(None);
    assert ApplyVal(Message(POSITION_INFO), v, r, 100) ==
           if k <= 99 then Some(Sub(Some(Msg([Num(0), Num(0), Num(0)], rs)))) else None;
    assert Default(REQ_MOVE).vals == [v] && forall x: Value :: [v][0 := x] == [x];
    assert F.ParseFrame(F.REQ_MOVE, F.Frame(1017, b)) == Fold(REQ_MOVE, Default(REQ_MOVE), [r], 100);
  }

  lemma {:induction false} PositionOfGroups(num: FieldNum, k: nat)
    requires num > 3
    ensures ParseNested(POSITION_INFO, Default(POSITION_INFO), WriteRecords(Groups(num, k)), 100) ==
            if k <= 99 then Some(Msg([Num(0), Num(0), Num(0)], Groups(num, k))) else None
  {
    hide Fold;
    var rs := Groups(num, k);
    ReadRecordsOfWrite(rs, 99);
    GroupsFit(num, k, 99);
    UnknownGroups(num, k);
    FoldUnknown(POSITION_INFO, Default(POSITION_INFO), rs, 99);
    assert [] + rs == rs && Default(POSITION_INFO).vals == [Num(0), Num(0), Num(0)];
  }

  lemma {:induction false} UnknownGroups(num: FieldNum, k: nat)
    requires num > 3
    ensures forall r | r in Groups(num, k) :: Target(POSITION_INFO, r).None?
  {
  }
}
