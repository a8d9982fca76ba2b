/**
  Packets on the stream (ServerPacketHandler.h): a header of two 16-bit
  numbers, low byte first, the length of the whole packet and its id, then a
  serialized message.  The dispatch table, and cutting received bytes into
  packets (Session/GameSession.cpp:9-35).
 */
module Framing {
  import opened Wire
  import opened Codec
  import opened CodecLaws
  import opened CodecTheorems
  import opened CodecBounds
  import S = Schemas
  import opened Streams
  import opened ObjectInfoLists
  import EnterGameRooms
  import Spawns
  import SpawnAlls
  import Despawns

  const HEADER_SIZE: nat := 4
  const UINT16_MAX: nat := 65535
  const MAX_BODY: nat := UINT16_MAX - HEADER_SIZE

  type U16 = n: int | 0 <= n < 0x1_0000

  // ------------------------------------------------------------ packet types

  datatype PacketType =
    | REQ_ENTER | RES_ENTER | REQ_ENTER_GAMEROOM | RES_ENTER_GAMEROOM | RES_ENTER_GAMEROOM_ALL
    | REQ_LEAVE_GAMEROOM | RES_LEAVE_GAMEROOM | REQ_ENTER_ROOM | RES_ENTER_ROOM | REQ_LEAVE | RES_LEAVE
    | REQ_RESPAWN | RES_SPAWN | RES_SPAWN_ALL | RES_DESPAWN | RES_CHANGE_HP | RES_DIE
    | REQ_MOVE | RES_MOVE | RES_SPAWN_MONSTER | RES_MOVE_MONSTER | REQ_ATTACK_OBJECT | RES_ATTACK_OBJECT

  function Id(t: PacketType): U16 {
    match t
    case REQ_ENTER => 1000
    case RES_ENTER => 1001
    case REQ_ENTER_GAMEROOM => 1002
    case RES_ENTER_GAMEROOM => 1003
    case RES_ENTER_GAMEROOM_ALL => 1004
    case REQ_LEAVE_GAMEROOM => 1005
    case RES_LEAVE_GAMEROOM => 1006
    case REQ_ENTER_ROOM => 1007
    case RES_ENTER_ROOM => 1008
    case REQ_LEAVE => 1009
    case RES_LEAVE => 1010
    case REQ_RESPAWN => 1011
    case RES_SPAWN => 1012
    case RES_SPAWN_ALL => 1013
    case RES_DESPAWN => 1014
    case RES_CHANGE_HP => 1015
    case RES_DIE => 1016
    case REQ_MOVE => 1017
    case RES_MOVE => 1018
    case RES_SPAWN_MONSTER => 1019
    case RES_MOVE_MONSTER => 1020
    case REQ_ATTACK_OBJECT => 1021
    case RES_ATTACK_OBJECT => 1022
  }

  function SchemaOf(t: PacketType): Schema {
    match t
    case REQ_ENTER => S.REQ_ENTER
    case RES_ENTER => S.RES_ENTER
    case REQ_ENTER_GAMEROOM => S.REQ_ENTER_GAMEROOM
    case RES_ENTER_GAMEROOM => S.RES_ENTER_GAMEROOM
    case RES_ENTER_GAMEROOM_ALL => S.RES_ENTER_GAMEROOM_ALL
    case REQ_LEAVE_GAMEROOM => S.REQ_LEAVE_GAMEROOM
    case RES_LEAVE_GAMEROOM => S.RES_LEAVE_GAMEROOM
    case REQ_ENTER_ROOM => S.REQ_ENTER_ROOM
    case RES_ENTER_ROOM => S.RES_ENTER_ROOM
    case REQ_LEAVE => S.REQ_LEAVE
    case RES_LEAVE => S.RES_LEAVE
    case REQ_RESPAWN => S.REQ_RESPAWN
    case RES_SPAWN => S.RES_SPAWN
    case RES_SPAWN_ALL => S.RES_SPAWN_ALL
    case RES_DESPAWN => S.RES_DESPAWN
    case RES_CHANGE_HP => S.RES_CHANGE_HP
    case RES_DIE => S.RES_DIE
    case REQ_MOVE => S.REQ_MOVE
    case RES_MOVE => S.RES_MOVE
    case RES_SPAWN_MONSTER => S.RES_SPAWN_MONSTER
    case RES_MOVE_MONSTER => S.RES_MOVE_MONSTER
    case REQ_ATTACK_OBJECT => S.REQ_ATTACK_OBJECT
    case RES_ATTACK_OBJECT => S.RES_ATTACK_OBJECT
  }

  predicate IsRequest(t: PacketType) {
    t in {REQ_ENTER, REQ_ENTER_GAMEROOM, REQ_LEAVE_GAMEROOM, REQ_ENTER_ROOM, REQ_LEAVE, REQ_RESPAWN, REQ_MOVE,
          REQ_ATTACK_OBJECT}
  }

  lemma {:induction false} Schemas(t: PacketType)
    ensures ValidSchema(SchemaOf(t))
  {
    hide ValidSchema;
    S.RequestSchemas();
    S.ScalarResponseSchemas();
    S.AttackSchemas();
    S.NestedSchemas();
    S.RepeatedSchemas();
  }

  // ------------------------------------------------------------------ frames

  function LE16(n: U16): Bytes {
    [n % 256, n / 256]
  }

  function HeaderSize(b: Bytes): U16
    requires |b| >= HEADER_SIZE
  {
    var lo: int, hi: int := b[0], b[1];
    lo + 256 * hi
  }

  function HeaderId(b: Bytes): U16
    requires |b| >= HEADER_SIZE
  {
    var lo: int, hi: int := b[2], b[3];
    lo + 256 * hi
  }

  function Frame(id: U16, body: Bytes): Bytes
    requires |body| <= MAX_BODY
  {
    LE16(HEADER_SIZE + |body|) + LE16(id) + body
  }

  // A packet as long as its header says.
  predicate IsFrame(f: Bytes) {
    |f| >= HEADER_SIZE && HeaderSize(f) == |f|
  }

  lemma {:induction false} FrameHeader(id: U16, body: Bytes)
    requires |body| <= MAX_BODY
    ensures var f := Frame(id, body);
            IsFrame(f) && HeaderId(f) == id && f[HEADER_SIZE..] == body
  {
    var n := HEADER_SIZE + |body|;
    assert n % 256 + 256 * (n / 256) == n;
    assert id % 256 + 256 * (id / 256) == id;
  }

  // ----------------------------------------------------------------- sending

  // What MakeSendBuffer comes to: the packet, a failed assertion around
  // SerializeToArray, or a buffer too short for the header itself.
  datatype SendResult = Buffer(bytes: Bytes) | AssertFailed | Overrun

  // The sizes kept in 16 bits, the buffer and its header.
  method NewSendBuffer(size: nat, id: U16) returns (buffer: array?<Byte>, dataSize: U16)
    ensures dataSize == size % TWO_16
    ensures buffer == null <==> dataSize > MAX_BODY
    ensures buffer != null ==>
              && fresh(buffer) && buffer.Length == HEADER_SIZE + dataSize
              && buffer[..HEADER_SIZE] == LE16(HEADER_SIZE + dataSize) + LE16(id)
  {
    dataSize := size % TWO_16;
    var packetSize := (dataSize + HEADER_SIZE) % TWO_16;
    if packetSize < HEADER_SIZE {
      return null, dataSize;
    }
    buffer := new Byte[packetSize](_ => 0);
    buffer[0], buffer[1] := packetSize % 256, packetSize / 256;
    buffer[2], buffer[3] := id % 256, id / 256;
    ghost var head := LE16(packetSize) + LE16(id);
    assert head == [packetSize % 256, packetSize / 256, id % 256, id / 256];
    assert buffer[0] == head[0] && buffer[1] == head[1] && buffer[2] == head[2] && buffer[3] == head[3];
  }

  // SerializeToArray refuses a message longer than the space it is given.
  predicate Accepts(dataSize: U16, byteSize: nat) {
    byteSize <= INT_MAX && byteSize <= dataSize
  }

  // The second sizing, inside SerializeToArray, decides.
  lemma {:induction false} AcceptsExactly(n: nat, again: nat, size: nat)
    requires Agree(n, size) && Agree(again, size)
    ensures n % TWO_16 <= MAX_BODY && Accepts(n % TWO_16, again) <==> size <= MAX_BODY
    ensures size <= INT_MAX ==> n == size
    ensures Accepts(n % TWO_16, again) ==> n % TWO_16 == again == size
  {
  }

  method MakeDespawnBuffer(pkt: Despawns.RES_DESPAWN) returns (r: SendResult)
    requires pkt.Valid()
    modifies pkt.idsCachedByteSize, pkt.cachedSize
    ensures r.Buffer? <==> Size(S.RES_DESPAWN, pkt.Value()) <= 65531
    ensures Size(S.RES_DESPAWN, pkt.Value()) <= 2147483647 ==>
              (r.Overrun? <==> Size(S.RES_DESPAWN, pkt.Value()) % 65536 > 65531)
    ensures r.Buffer? ==> |Serialize(S.RES_DESPAWN, pkt.Value())| <= MAX_BODY
                          && r.bytes == Frame(1014, Serialize(S.RES_DESPAWN, pkt.Value()))
  {
    hide Shaped, Size, Serialize, Agree, Accepts, Despawns.RES_DESPAWN.Value;
    S.ScalarResponseSchemas();
    ghost var m := pkt.Value();
    SizeExact(S.RES_DESPAWN, m);
    var n := pkt.ByteSizeLong();
    var buffer, dataSize := NewSendBuffer(n, 1014);
    if buffer == null {
      AcceptsExactly(n, n, Size(S.RES_DESPAWN, m));
      return Overrun;
    }
    var again := pkt.ByteSizeLong();
    AcceptsExactly(n, again, Size(S.RES_DESPAWN, m));
    if !Accepts(dataSize, again) {
      return AssertFailed;
    }
    var t := pkt.InternalSerialize(buffer, HEADER_SIZE);
    assert buffer[..t] == buffer[..];
    r := Buffer(buffer[..]);
  }

  method MakeSpawnBuffer(pkt: Spawns.RES_SPAWN) returns (r: SendResult)
    requires pkt.Valid()
    modifies pkt.Cells()
    ensures r.Buffer? <==> Size(S.RES_SPAWN, pkt.Value()) <= 65531
    ensures Size(S.RES_SPAWN, pkt.Value()) <= 2147483647 ==>
              (r.Overrun? <==> Size(S.RES_SPAWN, pkt.Value()) % 65536 > 65531)
    ensures r.Buffer? ==> |Serialize(S.RES_SPAWN, pkt.Value())| <= MAX_BODY
                          && r.bytes == Frame(1012, Serialize(S.RES_SPAWN, pkt.Value()))
  {
    hide Shaped, Size, Serialize, Agree, Accepts;
    S.NestedSchemas();
    ghost var m := pkt.Value();
    SizeExact(S.RES_SPAWN, m);
    var n := pkt.ByteSizeLong();
    var buffer, dataSize := NewSendBuffer(n, 1012);
    if buffer == null {
      AcceptsExactly(n, n, Size(S.RES_SPAWN, m));
      return Overrun;
    }
    var again := pkt.ByteSizeLong();
    AcceptsExactly(n, again, Size(S.RES_SPAWN, m));
    if !Accepts(dataSize, again) {
      return AssertFailed;
    }
    var t := pkt.InternalSerialize(buffer, HEADER_SIZE);
    assert buffer[..t] == buffer[..];
    r := Buffer(buffer[..]);
  }

  method MakeSpawnAllBuffer(pkt: SpawnAlls.RES_SPAWN_ALL) returns (r: SendResult)
    requires pkt.Valid()
    modifies pkt.cachedSize, pkt.players.cells
    ensures r.Buffer? <==> Size(S.RES_SPAWN_ALL, old(pkt.Value())) <= 65531
    ensures Size(S.RES_SPAWN_ALL, old(pkt.Value())) <= 2147483647 ==>
              (r.Overrun? <==> Size(S.RES_SPAWN_ALL, old(pkt.Value())) % 65536 > 65531)
    ensures r.Buffer? ==> |Serialize(S.RES_SPAWN_ALL, old(pkt.Value()))| <= MAX_BODY
                          && r.bytes == Frame(1013, Serialize(S.RES_SPAWN_ALL, old(pkt.Value())))
  {
    hide Shaped, Size, Serialize, Agree, Accepts, ObjectInfoList.Msgs, ObjectInfoList.MsgsUpTo, ObjectInfoList.Valid;
    hide ObjectInfoList.Sized;
    S.RepeatedSchemas();
    ghost var m := pkt.Value();
    SizeExact(S.RES_SPAWN_ALL, m);
    var n := pkt.ByteSizeLong();
    var buffer, dataSize := NewSendBuffer(n, 1013);
    if buffer == null {
      AcceptsExactly(n, n, Size(S.RES_SPAWN_ALL, m));
      return Overrun;
    }
    var again := pkt.ByteSizeLong();
    AcceptsExactly(n, again, Size(S.RES_SPAWN_ALL, m));
    if !Accepts(dataSize, again) {
      return AssertFailed;
    }
    var t := pkt.InternalSerialize(buffer, HEADER_SIZE);
    assert buffer[..t] == buffer[..];
    r := Buffer(buffer[..]);
  }

  method MakeEnterGameRoomBuffer(pkt: EnterGameRooms.RES_ENTER_GAMEROOM) returns (r: SendResult)
    requires pkt.Valid()
    modifies pkt.cachedSize, pkt.players.cells
    ensures r.Buffer? <==> Size(S.RES_ENTER_GAMEROOM, old(pkt.Value())) <= 65531
    ensures Size(S.RES_ENTER_GAMEROOM, old(pkt.Value())) <= 2147483647 ==>
              (r.Overrun? <==> Size(S.RES_ENTER_GAMEROOM, old(pkt.Value())) % 65536 > 65531)
    ensures r.Buffer? ==> |Serialize(S.RES_ENTER_GAMEROOM, old(pkt.Value()))| <= MAX_BODY
                          && r.bytes == Frame(1003, Serialize(S.RES_ENTER_GAMEROOM, old(pkt.Value())))
  {
    hide Shaped, Size, Serialize, Agree, Accepts, ObjectInfoList.Msgs, ObjectInfoList.MsgsUpTo, ObjectInfoList.Valid;
    hide ObjectInfoList.Sized;
    S.RepeatedSchemas();
    ghost var m := pkt.Value();
    SizeExact(S.RES_ENTER_GAMEROOM, m);
    var n := pkt.ByteSizeLong();
    var buffer, dataSize := NewSendBuffer(n, 1003);
    if buffer == null {
      AcceptsExactly(n, n, Size(S.RES_ENTER_GAMEROOM, m));
      return Overrun;
    }
    var again := pkt.ByteSizeLong();
    AcceptsExactly(n, again, Size(S.RES_ENTER_GAMEROOM, m));
    if !Accepts(dataSize, again) {
      return AssertFailed;
    }
    var t := pkt.InternalSerialize(buffer, HEADER_SIZE);
    assert buffer[..t] == buffer[..];
    r := Buffer(buffer[..]);
  }

  // --------------------------------------------------------------- receiving

  // The function pkt is handed to, with the message parsed for it.
  datatype Call = Call(packet: PacketType, pkt: Msg)

  // The templated HandlePacket: a new message parsed from behind the header.
  function ParseFrame(t: PacketType, f: Bytes): Option<Msg>
    requires |f| >= HEADER_SIZE
  {
    Parse(SchemaOf(t), Default(SchemaOf(t)), f[HEADER_SIZE..], DEFAULT_DEPTH)
  }

  // The packet type whose handler is registered under an id; None stands for
  // Handle_INVALID.
  function HandlerFor(id: nat): Option<PacketType> {
    match id
    case 1000 => Some(REQ_ENTER)
    case 1002 => Some(REQ_ENTER_GAMEROOM)
    case 1005 => Some(REQ_LEAVE_GAMEROOM)
    case 1007 => Some(REQ_ENTER_ROOM)
    case 1009 => Some(REQ_LEAVE)
    case 1011 => Some(REQ_RESPAWN)
    case 1017 => Some(REQ_MOVE)
    case 1021 => Some(REQ_ATTACK_OBJECT)
    case _ => None
  }

  // Every request is handled under its own id, and no response is.
  lemma {:induction false} HandlerForId(t: PacketType)
    ensures HandlerFor(Id(t)) == if IsRequest(t) then Some(t) else None
  {
  }

  // The call one packet leads to, if any.
  function CallOf(f: Bytes): seq<Call>
    requires |f| >= HEADER_SIZE
  {
    match HandlerFor(HeaderId(f))
    case None => []
    case Some(t) =>
      match ParseFrame(t, f)
      case None => []
      case Some(m) => [Call(t, m)]
  }

  function Calls(fs: seq<Bytes>): seq<Call>
    requires forall f | f in fs :: |f| >= HEADER_SIZE
  {
    if fs == [] then [] else CallOf(fs[0]) + Calls(fs[1..])
  }

  // Cutting bytes into packets by the sizes in their headers alone; what does
  // not hold a whole packet any more is the rest.
  function Cut(b: Bytes): (r: (seq<Bytes>, Bytes))
    ensures forall f | f in r.0 :: IsFrame(f)
  {
    if Incomplete(b) then ([], b)
    else
      var n := HeaderSize(b);
      var (fs, rest) := Cut(b[n..]);
      assert IsFrame(b[..n]);
      ([b[..n]] + fs, rest)
  }

  // No whole packet at the front.  A size below that of the header itself is
  // no packet either.
  predicate Incomplete(b: Bytes) {
    |b| < HEADER_SIZE || |b| < HeaderSize(b) || HeaderSize(b) < HEADER_SIZE
  }

  // No header with a size below HEADER_SIZE and no id outside the handler
  // table.
  predicate Received(b: Bytes) {
    var (fs, rest) := Cut(b);
    && (forall f | f in fs :: HeaderId(f) < UINT16_MAX)
    && (|rest| >= HEADER_SIZE ==> HeaderSize(rest) >= HEADER_SIZE)
  }

  // ------------------------------------------------------- the receiving loop

  // How the loop ends: with less than a packet left, by an id behind the
  // handler table, by handing the parser a negative length -- or not at all.
  datatype RecvEnd = Done | OutsideTable | NegativeLength | Forever

  // One round: leave the loop, or go on behind size bytes.
  datatype Round = Leave(end: RecvEnd) | Next(size: nat, calls: seq<Call>)

  // What HandlePacket makes of a packet said to have len bytes.
  function Handled(b: Bytes, len: nat): Round
    requires HEADER_SIZE <= |b| && len <= |b|
  {
    if HeaderId(b) == UINT16_MAX then Leave(OutsideTable)
    else if HandlerFor(HeaderId(b)).None? then Next(len, [])
    else if len < HEADER_SIZE then Leave(NegativeLength)
    else Next(len, CallOf(b[..len]))
  }

  // A round with b left in the buffer.
  function RoundOf(b: Bytes): (r: Round)
    ensures r.Next? ==> HEADER_SIZE <= |b| && r.size == HeaderSize(b) <= |b|
  {
    if |b| < HEADER_SIZE || |b| < HeaderSize(b) then Leave(Done) else Handled(b, HeaderSize(b))
  }

  // The calls the loop makes, and how it ends.
  function Receive(b: Bytes): (seq<Call>, RecvEnd) {
    match RoundOf(b)
    case Leave(end) => ([], end)
    case Next(size, calls) =>
      if size == 0 then ([], Forever)
      else
        var (rest, end) := Receive(b[size..]);
        (calls + rest, end)
  }

  class ServerPacketHandler {
    const handlers: array<Option<PacketType>>

    constructor ()
      ensures fresh(handlers) && handlers.Length == UINT16_MAX
    {
      handlers := new Option<PacketType>[UINT16_MAX](_ => None);
    }

    ghost predicate Ready()
      reads handlers
    {
      handlers.Length == UINT16_MAX && forall i :: 0 <= i < UINT16_MAX ==> handlers[i] == HandlerFor(i)
    }

    method Init()
      requires handlers.Length == UINT16_MAX
      modifies handlers
      ensures Ready()
    {
      for i := 0 to UINT16_MAX
        invariant forall j :: 0 <= j < i ==> handlers[j] == None
      {
        handlers[i] := None;
      }
      handlers[Id(REQ_ENTER)] := Some(REQ_ENTER);
      handlers[Id(REQ_ENTER_GAMEROOM)] := Some(REQ_ENTER_GAMEROOM);
      handlers[Id(REQ_LEAVE_GAMEROOM)] := Some(REQ_LEAVE_GAMEROOM);
      handlers[Id(REQ_ENTER_ROOM)] := Some(REQ_ENTER_ROOM);
      handlers[Id(REQ_LEAVE)] := Some(REQ_LEAVE);
      handlers[Id(REQ_RESPAWN)] := Some(REQ_RESPAWN);
      handlers[Id(REQ_MOVE)] := Some(REQ_MOVE);
      handlers[Id(REQ_ATTACK_OBJECT)] := Some(REQ_ATTACK_OBJECT);
    }

    // HandlePacket by id, and the templated one it ends in.  Done is the
    // ordinary return.
    method HandlePacket(session: GameSession, buffer: Bytes, start: nat, len: nat) returns (end: RecvEnd)
      requires Ready() && start + HEADER_SIZE <= |buffer| && start + len <= |buffer|
      modifies session`received
      ensures var r := Handled(buffer[start..], len);
              && end == (if r.Leave? then r.end else Done)
              && session.received == old(session.received) + if r.Leave? then [] else r.calls
    {
      hide Parse, Default;
      ghost var b := buffer[start..];
      assert buffer[start..start + len] == b[..len];
      var id := HeaderId(buffer[start..]);
      if id == UINT16_MAX {
        return OutsideTable;
      }
      var handler := handlers[id];
      end := Done;
      if handler.Some? {
        if len < HEADER_SIZE {
          return NegativeLength;
        }
        assert HeaderId(b[..len]) == id;
        var pkt := ParseFrame(handler.value, buffer[start..start + len]);
        if pkt.Some? {
          session.received := session.received + [Call(handler.value, pkt.value)];
        }
      }
    }
  }

  class GameSession {
    const packetHandler: ServerPacketHandler
    var received: seq<Call>  // what the Handle_ functions were called with

    constructor (packetHandler: ServerPacketHandler)
      ensures this.packetHandler == packetHandler && received == []
    {
      this.packetHandler := packetHandler;
      received := [];
    }

    // A round that neither ends nor moves on stands for all the rounds after
    // it: LoopEnds.
    method OnRecv(buffer: Bytes) returns (end: RecvEnd)
      requires packetHandler.Ready()
      modifies `received
      ensures received == old(received) + Receive(buffer).0
      ensures end == Receive(buffer).1
    {
      hide CallOf, Receive, RoundOf, Handled;
      ReceiveFront(buffer);
      if |buffer| < 3 {
        return Done;
      }
      var processLen := 0;
      ghost var calls: seq<Call> := [];
      assert buffer[0..] == buffer;
      while true
        invariant processLen <= |buffer|
        invariant Receive(buffer) == Before(calls, Receive(buffer[processLen..]))
        invariant received == old(received) + calls
        decreases |buffer| - processLen
      {
        ghost var b := buffer[processLen..];
        ReceiveFront(b);
        var dataSize := |buffer| - processLen;
        if dataSize < HEADER_SIZE {
          return Done;
        }
        var size := HeaderSize(buffer[processLen..]);
        if dataSize < size {
          return Done;
        }
        var r := packetHandler.HandlePacket(this, buffer, processLen, size);
        if r != Done {
          return r;
        }
        if size == 0 {
          return Forever;
        }
        Slices(buffer, processLen, size);
        BeforeTwice(calls, RoundOf(b).calls, Receive(b[size..]));
        calls := calls + RoundOf(b).calls;
        processLen := processLen + size;
      }
    }
  }

  // Calls made already, in front of what is still to come.
  function Before(calls: seq<Call>, rest: (seq<Call>, RecvEnd)): (seq<Call>, RecvEnd) {
    (calls + rest.0, rest.1)
  }

  lemma {:induction false} BeforeTwice(calls: seq<Call>, more: seq<Call>, rest: (seq<Call>, RecvEnd))
    ensures Before(calls, Before(more, rest)) == Before(calls + more, rest)
  {
    assert calls + (more + rest.0) == calls + more + rest.0;
  }

  lemma {:induction false} ReceiveFront(b: Bytes)
    ensures Before([], Receive(b)) == Receive(b)
    ensures RoundOf(b) == if |b| < HEADER_SIZE || |b| < HeaderSize(b) then Leave(Done) else Handled(b, HeaderSize(b))
    ensures RoundOf(b).Leave? ==> Receive(b) == ([], RoundOf(b).end)
    ensures RoundOf(b).Leave? && |b| >= HEADER_SIZE && |b| >= HeaderSize(b) ==> RoundOf(b).end != Done
    ensures RoundOf(b).Next? ==>
              && Receive(b) == if HeaderSize(b) == 0 then ([], Forever)
                               else Before(RoundOf(b).calls, Receive(b[HeaderSize(b)..]))
    ensures RoundOf(b).Next? && HeaderSize(b) == 0 ==> RoundOf(b).calls == []
  {
    assert [] + Receive(b).0 == Receive(b).0;
  }

  lemma {:induction false} Slices(b: Bytes, p: nat, n: nat)
    requires p + n <= |b|
    ensures b[p..][n..] == b[p + n..] && b[p..][..n] == b[p..p + n]
  {
  }

  // The state of the loop between two rounds.
  datatype Loop = At(rest: Bytes) | Ended(end: RecvEnd)

  function Go(l: Loop): Loop {
    match l
    case Ended(_) => l
    case At(b) =>
      match RoundOf(b)
      case Leave(end) => Ended(end)
      case Next(size, _) => At(b[size..])
  }

  function Rounds(l: Loop, k: nat): Loop
    decreases k
  {
    if k == 0 then l else Rounds(Go(l), k - 1)
  }

  // At a whole header of size 0 under an id of the table that has no handler.
  predicate Stuck(l: Loop) {
    && l.At? && |l.rest| >= HEADER_SIZE && HeaderSize(l.rest) == 0
    && HeaderId(l.rest) < UINT16_MAX && HandlerFor(HeaderId(l.rest)).None?
  }

  // The round in which the loop ends, or first is stuck.
  function LastRound(b: Bytes): nat {
    match RoundOf(b)
    case Leave(_) => 1
    case Next(size, _) => if size == 0 then 0 else 1 + LastRound(b[size..])
  }

  lemma {:induction false} LastRoundDecides(b: Bytes)
    ensures Rounds(At(b), LastRound(b)) == Ended(Receive(b).1) || Stuck(Rounds(At(b), LastRound(b)))
    ensures Receive(b).1 == Forever <==> Stuck(Rounds(At(b), LastRound(b)))
    decreases |b|
  {
    hide CallOf;
    match RoundOf(b) {
      case Leave(end) => assert Rounds(Go(At(b)), 0) == Ended(end);
      case Next(size, _) =>
        if size != 0 {
          LastRoundDecides(b[size..]);
        }
    }
  }

  lemma {:induction false} StuckStays(l: Loop, k: nat)
    requires Stuck(l)
    ensures Rounds(l, k) == l
  {
    if k > 0 {
      assert l.rest[0..] == l.rest;
      StuckStays(l, k - 1);
    }
  }

  lemma {:induction false} EndedStays(end: RecvEnd, k: nat)
    ensures Rounds(Ended(end), k) == Ended(end)
  {
    if k > 0 {
      EndedStays(end, k - 1);
    }
  }

  lemma {:induction false} RoundsTwice(l: Loop, j: nat, k: nat)
    ensures Rounds(l, j + k) == Rounds(Rounds(l, j), k)
    decreases j
  {
    hide Go;
    if j > 0 {
      RoundsTwice(Go(l), j - 1, k);
    }
  }

  // The receiving loop ends exactly when it never comes to a header of size 0
  // that no handler takes; it then ends as Receive says, and otherwise Receive
  // says Forever.
  lemma {:induction false} LoopEnds(b: Bytes)
    ensures (exists k: nat :: Rounds(At(b), k).Ended?) <==> forall k: nat :: !Stuck(Rounds(At(b), k))
    ensures (exists k: nat :: Rounds(At(b), k).Ended?) <==> Receive(b).1 != Forever
    ensures forall k: nat :: Rounds(At(b), k).Ended? ==> Rounds(At(b), k) == Ended(Receive(b).1)
  {
    hide Go, Receive, LastRound;
    var n := LastRound(b);
    var last := Rounds(At(b), n);
    LastRoundDecides(b);
    forall k: nat
      ensures Stuck(last) ==> !Rounds(At(b), k).Ended?
      ensures !Stuck(last) ==> !Stuck(Rounds(At(b), k)) && (Rounds(At(b), k).Ended? ==> Rounds(At(b), k) == last)
    {
      var l := Rounds(At(b), k);
      if k <= n {
        RoundsTwice(At(b), k, n - k);
        if l.Ended? {
          EndedStays(l.end, n - k);
        } else if Stuck(l) {
          StuckStays(l, n - k);
        }
      } else {
        RoundsTwice(At(b), n, k - n);
        if Stuck(last) {
          StuckStays(last, k - n);
        } else {
          EndedStays(last.end, k - n);
        }
      }
    }
  }

  // Four bytes that keep the loop busy: a header of size 0 and id 0.
  lemma {:induction false} ForeverExample()
    ensures Receive([0, 0, 0, 0]) == ([], Forever)
    ensures forall k: nat :: Rounds(At([0, 0, 0, 0]), k) == At([0, 0, 0, 0])
  {
    var b: Bytes := [0, 0, 0, 0];
    assert HeaderSize(b) == 0 && HeaderId(b) == 0;
    assert RoundOf(b) == Next(0, []);
    forall k: nat ensures Rounds(At(b), k) == At(b) {
      StuckStays(At(b), k);
    }
  }

  // On a stream of packets the loop makes exactly their calls.
  lemma {:induction false} ReceiveOfCut(b: Bytes)
    requires Received(b)
    ensures Receive(b) == (Calls(Cut(b).0), Done)
    decreases |b|
  {
    hide CallOf;
    if !Incomplete(b) {
      var n := HeaderSize(b);
      var f, tail := b[..n], Cut(b[n..]).0;
      assert Cut(b).0 == [f] + tail && ([f] + tail)[1..] == tail;
      assert f in Cut(b).0 && HeaderId(f) == HeaderId(b);
      assert Received(b[n..]) by {
        assert forall g | g in tail :: g in Cut(b).0;
      }
      ReceiveOfCut(b[n..]);
      assert HandlerFor(HeaderId(b)).None? ==> CallOf(f) == [] by { NoHandler(f); }
    }
  }

  lemma {:induction false} NoHandler(f: Bytes)
    requires |f| >= HEADER_SIZE
    ensures HandlerFor(HeaderId(f)).None? ==> CallOf(f) == []
  {
  }

  // ----------------------------------------------------------------- results

  function Flat(fs: seq<Bytes>): Bytes {
    if fs == [] then [] else fs[0] + Flat(fs[1..])
  }

  // Cutting is the only way to read bytes as whole packets and a rest.
  lemma {:induction false} CutExactly(b: Bytes, fs: seq<Bytes>, rest: Bytes)
    ensures Cut(b) == (fs, rest) <==>
            b == Flat(fs) + rest && (forall f | f in fs :: IsFrame(f)) && Incomplete(rest)
  {
    hide Cut, Flat;
    CutDecomposes(b);
    if b == Flat(fs) + rest && (forall f | f in fs :: IsFrame(f)) && Incomplete(rest) {
      CutOfFrames(fs, rest);
    }
  }

  lemma {:induction false} CutDecomposes(b: Bytes)
    ensures b == Flat(Cut(b).0) + Cut(b).1 && Incomplete(Cut(b).1)
    decreases |b|
  {
    if !Incomplete(b) {
      var n := HeaderSize(b);
      CutDecomposes(b[n..]);
      var fs := Cut(b[n..]).0;
      assert ([b[..n]] + fs)[1..] == fs;
      assert b == b[..n] + b[n..];
    }
  }

  lemma {:induction false} CutOfFrames(fs: seq<Bytes>, rest: Bytes)
    requires (forall f | f in fs :: IsFrame(f)) && Incomplete(rest)
    ensures Cut(Flat(fs) + rest) == (fs, rest)
  {
    if fs == [] {
      assert Flat(fs) + rest == rest;
    } else {
      hide Cut, IsFrame, Incomplete, Flat;
      CutOfFrames(fs[1..], rest);
      FlatFirst(fs, rest);
      CutFirst(fs[0], Flat(fs[1..]) + rest);
    }
  }

  lemma {:induction false} FlatFirst(fs: seq<Bytes>, rest: Bytes)
    requires fs != []
    ensures Flat(fs) + rest == fs[0] + (Flat(fs[1..]) + rest) && [fs[0]] + fs[1..] == fs
  {
  }

  lemma {:induction false} CutFirst(f: Bytes, b: Bytes)
    requires IsFrame(f)
    ensures Cut(f + b) == ([f] + Cut(b).0, Cut(b).1)
  {
    assert (f + b)[..|f|] == f && (f + b)[|f|..] == b;
  }

  // A packet that was sent is received as an equal message exactly when the
  // message can be parsed at all.
  lemma {:induction false} FrameRoundTrip(t: PacketType, m: Msg)
    requires Shaped(SchemaOf(t), m) && Size(SchemaOf(t), m) <= MAX_BODY
    ensures |Serialize(SchemaOf(t), m)| <= MAX_BODY
    ensures ParseFrame(t, Frame(Id(t), Serialize(SchemaOf(t), m))) == Some(m)
            <==> Content(SchemaOf(t), m, DEFAULT_DEPTH)
  {
    hide Shaped, Size, Serialize, Content, SizesFit, Parse, Default, SchemaOf, Id, Frame, ValidSchema;
    var s := SchemaOf(t);
    Schemas(t);
    SizeExact(s, m);
    SmallFits(s, m);
    RoundTrip(s, m, DEFAULT_DEPTH);
    FrameHeader(Id(t), Serialize(s, m));
  }

  predicate Sendable(c: Call) {
    && IsRequest(c.packet) && Shaped(SchemaOf(c.packet), c.pkt)
    && Size(SchemaOf(c.packet), c.pkt) <= MAX_BODY && Content(SchemaOf(c.packet), c.pkt, DEFAULT_DEPTH)
  }

  function FrameOf(c: Call): (f: Bytes)
    requires Sendable(c)
    ensures IsFrame(f)
  {
    FrameRoundTrip(c.packet, c.pkt);
    FrameHeader(Id(c.packet), Serialize(SchemaOf(c.packet), c.pkt));
    Frame(Id(c.packet), Serialize(SchemaOf(c.packet), c.pkt))
  }

  function FramesOf(cs: seq<Call>): (fs: seq<Bytes>)
    requires forall c | c in cs :: Sendable(c)
    ensures |fs| == |cs| && forall f | f in fs :: IsFrame(f)
  {
    if cs == [] then [] else [FrameOf(cs[0])] + FramesOf(cs[1..])
  }

  // Any number of requests sent back to back arrive as those requests, in
  // order, and nothing else; a started packet behind them changes nothing.
  lemma {:induction false} StreamRoundTrip(cs: seq<Call>, rest: Bytes)
    requires (forall c | c in cs :: Sendable(c)) && Incomplete(rest)
    requires |rest| >= HEADER_SIZE ==> HeaderSize(rest) >= HEADER_SIZE
    ensures Cut(Flat(FramesOf(cs)) + rest) == (FramesOf(cs), rest)
    ensures Receive(Flat(FramesOf(cs)) + rest) == (cs, Done)
  {
    hide Flat, FramesOf, Calls, Cut, Receive;
    CutExactly(Flat(FramesOf(cs)) + rest, FramesOf(cs), rest);
    CallsOfFrames(cs);
    ReceiveOfCut(Flat(FramesOf(cs)) + rest);
  }

  lemma {:induction false} CallsOfFrames(cs: seq<Call>)
    requires forall c | c in cs :: Sendable(c)
    ensures Calls(FramesOf(cs)) == cs
    ensures forall f | f in FramesOf(cs) :: HeaderId(f) < UINT16_MAX
  {
    if cs != [] {
      CallOfFrame(cs[0]);
      CallsOfFrames(cs[1..]);
      assert FramesOf(cs)[1..] == FramesOf(cs[1..]);
    }
  }

  lemma {:induction false} CallOfFrame(c: Call)
    requires Sendable(c)
    ensures CallOf(FrameOf(c)) == [c] && HeaderId(FrameOf(c)) < UINT16_MAX
  {
    hide Parse, Default, Serialize, Size, Shaped, Content;
    FrameRoundTrip(c.packet, c.pkt);
    FrameHeader(Id(c.packet), Serialize(SchemaOf(c.packet), c.pkt));
    HandlerForId(c.packet);
  }

  // The bytes that are left when the loop ends.
  function Remainder(b: Bytes): Bytes {
    match RoundOf(b)
    case Leave(_) => b
    case Next(size, _) => if size == 0 then b else Remainder(b[size..])
  }

  // What arrives in two pieces, against receiving it at once: the loop would go
  // on with the bytes left of the first piece, which two calls drop; so they
  // come to the same if nothing is left.
  lemma {:induction false} ReceiveInPieces(b1: Bytes, b2: Bytes)
    ensures Receive(b1 + b2) ==
            if Receive(b1).1 == Done then Before(Receive(b1).0, Receive(Remainder(b1) + b2)) else Receive(b1)
    ensures Receive(b1).1 == Done && Remainder(b1) == [] ==> Receive(b1 + b2) == Before(Receive(b1).0, Receive(b2))
    decreases |b1|
  {
    hide CallOf, Before;
    ReceiveFront(b1 + b2);
    if RoundOf(b1) != Leave(Done) {
      SameRound(b1, b2);
    }
    if RoundOf(b1).Next? && HeaderSize(b1) != 0 {
      var n := HeaderSize(b1);
      assert (b1 + b2)[n..] == b1[n..] + b2;
      ReceiveInPieces(b1[n..], b2);
      ReceiveFront(b1);
      BeforeTwice(RoundOf(b1).calls, Receive(b1[n..]).0, Receive(Remainder(b1[n..]) + b2));
      BeforeIs(RoundOf(b1).calls, Receive(b1[n..]));
    }
    assert [] + b2 == b2;
  }

  lemma {:induction false} BeforeIs(calls: seq<Call>, rest: (seq<Call>, RecvEnd))
    ensures Before(calls, rest) == (calls + rest.0, rest.1)
  {
  }

  lemma {:induction false} SameRound(b1: Bytes, b2: Bytes)
    requires RoundOf(b1) != Leave(Done)
    ensures |b1| >= HEADER_SIZE && HeaderSize(b1 + b2) == HeaderSize(b1) && RoundOf(b1 + b2) == RoundOf(b1)
  {
    hide CallOf;
    assert (b1 + b2)[..HeaderSize(b1)] == b1[..HeaderSize(b1)];
  }
}
