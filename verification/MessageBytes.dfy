/**
  The bytes of the messages with their tags written out, as the generated
  writers put them down (Protocol/Struct.pb.cc:280-321, 546-585 and the
  _InternalSerialize methods of Protocol/Protocol.pb.cc), compared with what the
  codec makes of the schemas.
 */
module MessageBytes {
  import opened Wire
  import opened Records
  import opened Codec
  import opened CodecLaws
  import opened Schemas
  import opened Streams

  // ------------------------------------------------------------ single fields

  // A field behind its one-byte tag, nothing for its default value.
  function VarintField(tag: Byte, n: nat): Bytes {
    if n == 0 then [] else [tag] + EncodeVarint(n)
  }

  function FixedField(tag: Byte, bits: U32): Bytes {
    if bits == 0 then [] else [tag] + LE32(bits)
  }

  function FlagField(tag: Byte, b: bool): Bytes {
    if b then [tag, 1] else []
  }

  function TextField(tag: Byte, text: Bytes): Bytes {
    if text == [] then [] else [tag] + EncodeVarint(|text|) + text
  }

  function PartField(tag: Byte, part: Option<Bytes>): Bytes {
    match part
    case None => []
    case Some(b) => [tag] + EncodeVarint(|b|) + b
  }

  function PartsField(tag: Byte, parts: seq<Bytes>): Bytes {
    if parts == [] then [] else PartsField(tag, parts[..|parts| - 1]) + PartField(tag, Some(parts[|parts| - 1]))
  }

  // The varints of some numbers, in order.
  function Varints(ns: seq<U64>): Bytes {
    if ns == [] then [] else Varints(ns[..|ns| - 1]) + EncodeVarint(ns[|ns| - 1])
  }

  function PackedField(tag: Byte, ns: seq<U64>): Bytes {
    TextField(tag, Varints(ns))
  }

  lemma {:induction false} ShortTag(num: FieldNum, wireType: nat)
    requires num <= 15 && wireType < 8
    ensures Tag(num, wireType) == [8 * num + wireType]
  {
  }

  lemma {:induction false} VarintForm(num: FieldNum, k: Kind, n: int)
    requires num <= 15 && k in {UInt64, UInt32, Bool, Enum} && ShapedVal(k, Num(n))
    ensures WriteRecords(ValRecords(num, k, Num(n))) ==
            VarintField(8 * num, if n < 0 then n + 18446744073709551616 else n)
    ensures k.Bool? ==> WriteRecords(ValRecords(num, k, Num(n))) == FlagField(8 * num, n == 1)
  {
    if n != 0 {
      var v := if k.Enum? then SignExtend(n) else n;
      WriteOne(Varint(num, v));
      ShortTag(num, 0);
    }
  }

  lemma {:induction false} FloatForm(num: FieldNum, bits: U32)
    requires num <= 15
    ensures WriteRecords(ValRecords(num, Float, Num(bits))) == FixedField(8 * num + 5, bits)
  {
    if bits != 0 {
      WriteOne(Fixed32(num, bits));
      ShortTag(num, 5);
    }
  }

  lemma {:induction false} LenForm(num: FieldNum, data: Bytes)
    requires num <= 15
    ensures WriteRecord(Len(num, data)) == [8 * num + 2] + EncodeVarint(|data|) + data
    ensures WriteRecords([Len(num, data)]) == [8 * num + 2] + EncodeVarint(|data|) + data
  {
    WriteOne(Len(num, data));
    ShortTag(num, 2);
    var t := Tag(num, 2);
    assert t + (EncodeVarint(|data|) + data) == t + EncodeVarint(|data|) + data;
  }

  lemma {:induction false} TextForm(num: FieldNum, text: Bytes)
    requires num <= 15
    ensures WriteRecords(ValRecords(num, String, Str(text))) == TextField(8 * num + 2, text)
  {
    LenForm(num, text);
  }

  // The serialization of a sub-message that may be absent, and of several.
  function BytesOf(s: Schema, m: Option<Msg>): Option<Bytes>
    requires m.Some? ==> Shaped(s, m.value)
  {
    match m
    case None => None
    case Some(x) => Some(Serialize(s, x))
  }

  function AllBytes(s: Schema, ms: seq<Msg>): (bs: seq<Bytes>)
    requires forall x | x in ms :: Shaped(s, x)
    ensures |bs| == |ms| && forall i :: 0 <= i < |ms| ==> bs[i] == Serialize(s, ms[i])
  {
    seq(|ms|, i requires 0 <= i < |ms| => Serialize(s, ms[i]))
  }

  lemma {:induction false} PartForm(num: FieldNum, s: Schema, m: Option<Msg>)
    requires num <= 15 && ValidSchema(s) && (m.Some? ==> Shaped(s, m.value))
    ensures WriteRecords(ValRecords(num, Message(s), Sub(m))) == PartField(8 * num + 2, BytesOf(s, m))
  {
    if m.Some? {
      LenForm(num, Serialize(s, m.value));
    }
  }

  lemma {:induction false} PartsForm(num: FieldNum, s: Schema, ms: seq<Msg>)
    requires num <= 15 && forall x | x in ms :: Shaped(s, x)
    ensures WriteRecords(ValRecords(num, Repeated(s), Rep(ms))) == PartsField(8 * num + 2, AllBytes(s, ms))
  {
    hide Serialize;
    if ms != [] {
      var init, last := ms[..|ms| - 1], ms[|ms| - 1];
      var r := Len(num, Serialize(s, last));
      PartsForm(num, s, init);
      LenForm(num, Serialize(s, last));
      assert ValRecords(num, Repeated(s), Rep(ms)) == ValRecords(num, Repeated(s), Rep(init)) + [r];
      WriteRecordsConcat(ValRecords(num, Repeated(s), Rep(init)), [r]);
      assert AllBytes(s, ms)[..|ms| - 1] == AllBytes(s, init);
    }
  }

  lemma {:induction false} VarintsAre(ns: seq<U64>)
    ensures EncodePacked(ns) == Varints(ns)
    ensures Varints(ns) == [] <==> ns == []
  {
    if ns != [] {
      var init, last := ns[..|ns| - 1], ns[|ns| - 1];
      VarintsAre(init);
      assert ns == init + [last];
      PackedConcat(init, last);
    }
  }

  lemma {:induction false} PackedConcat(ns: seq<U64>, n: U64)
    ensures EncodePacked(ns + [n]) == EncodePacked(ns) + EncodeVarint(n)
  {
    if ns == [] {
      assert [n][1..] == [];
    } else {
      assert (ns + [n])[1..] == ns[1..] + [n];
      PackedConcat(ns[1..], n);
    }
  }

  lemma {:induction false} PackedForm(num: FieldNum, ns: seq<U64>)
    requires num <= 15
    ensures WriteRecords(ValRecords(num, Packed, Ints(ns))) == PackedField(8 * num + 2, ns)
  {
    VarintsAre(ns);
    LenForm(num, EncodePacked(ns));
  }

  // ----------------------------------------------------------------- messages

  lemma {:induction false} PositionBytes(x: U32, y: U32, dir: I32, unknown: seq<Record>)
    ensures Serialize(POSITION_INFO, Msg([Num(x), Num(y), Num(dir)], unknown)) ==
            FixedField(13, x) + FixedField(21, y)
            + VarintField(24, if dir < 0 then dir + 18446744073709551616 else dir) + WriteRecords(unknown)
  {
    hide ValRecords, Serialize, WriteRecords, FixedField, VarintField;
    var m := Msg([Num(x), Num(y), Num(dir)], unknown);
    StructSchemas();
    Layout(POSITION_INFO, m);
    ThreeFields(POSITION_INFO, m);
    FloatForm(1, x);
    FloatForm(2, y);
    VarintForm(3, Enum, dir);
  }

  lemma {:induction false} ObjectBytes(id: U64, name: Bytes, health: U32, pos: Option<Msg>, unknown: seq<Record>)
    requires pos.Some? ==> Shaped(POSITION_INFO, pos.value)
    ensures Serialize(OBJECT_INFO, Msg([Num(id), Str(name), Num(health), Sub(pos)], unknown)) ==
            VarintField(8, id) + TextField(18, name) + VarintField(24, health)
            + PartField(34, BytesOf(POSITION_INFO, pos)) + WriteRecords(unknown)
  {
    hide ValRecords, Serialize, WriteRecords, TextField, VarintField, PartField;
    var m := Msg([Num(id), Str(name), Num(health), Sub(pos)], unknown);
    StructSchemas();
    Layout(OBJECT_INFO, m);
    FourFields(OBJECT_INFO, m);
    VarintForm(1, UInt64, id);
    TextForm(2, name);
    VarintForm(3, UInt32, health);
    PartForm(4, POSITION_INFO, pos);
  }

  // REQ_ENTER and REQ_ENTER_ROOM
  lemma {:induction false} NameBytes(name: Bytes, unknown: seq<Record>)
    ensures Serialize(REQ_ENTER, Msg([Str(name)], unknown)) == TextField(10, name) + WriteRecords(unknown)
    ensures Serialize(REQ_ENTER_ROOM, Msg([Str(name)], unknown)) == TextField(10, name) + WriteRecords(unknown)
  {
    hide ValRecords, Serialize, WriteRecords, TextField;
    var m := Msg([Str(name)], unknown);
    RequestSchemas();
    Layout(REQ_ENTER, m);
    OneField(REQ_ENTER, m);
    TextForm(1, name);
  }

  lemma {:induction false} EnterGameRoomRequestBytes(name: Bytes, isCreate: bool, unknown: seq<Record>)
    ensures Serialize(REQ_ENTER_GAMEROOM, Msg([Str(name), Num(BoolNum(isCreate))], unknown)) ==
            TextField(10, name) + FlagField(24, isCreate) + WriteRecords(unknown)
  {
    hide ValRecords, Serialize, WriteRecords, TextField;
    var m := Msg([Str(name), Num(BoolNum(isCreate))], unknown);
    RequestSchemas();
    Layout(REQ_ENTER_GAMEROOM, m);
    TwoFields(REQ_ENTER_GAMEROOM, m);
    TextForm(1, name);
    VarintForm(3, Bool, BoolNum(isCreate));
  }

  lemma {:induction false} EnterGameRoomBytes(count: U32, players: seq<Msg>, isCreate: bool, mine: bool,
      unknown: seq<Record>)
    requires forall x | x in players :: Shaped(OBJECT_INFO, x)
    ensures Serialize(RES_ENTER_GAMEROOM, Msg([Num(count), Rep(players), Num(BoolNum(isCreate)), Num(BoolNum(mine))],
                                              unknown)) ==
            VarintField(8, count) + PartsField(18, AllBytes(OBJECT_INFO, players)) + FlagField(24, isCreate)
            + FlagField(32, mine) + WriteRecords(unknown)
  {
    hide ValRecords, Serialize, WriteRecords, VarintField, PartsField, AllBytes;
    var m := Msg([Num(count), Rep(players), Num(BoolNum(isCreate)), Num(BoolNum(mine))], unknown);
    RepeatedSchemas();
    Layout(RES_ENTER_GAMEROOM, m);
    FourFields(RES_ENTER_GAMEROOM, m);
    VarintForm(1, UInt32, count);
    PartsForm(2, OBJECT_INFO, players);
    VarintForm(3, Bool, BoolNum(isCreate));
    VarintForm(4, Bool, BoolNum(mine));
  }

  // RES_ENTER_GAMEROOM_ALL, RES_SPAWN_ALL and RES_SPAWN_MONSTER
  lemma {:induction false} ObjectsBytes(objects: seq<Msg>, unknown: seq<Record>)
    requires forall x | x in objects :: Shaped(OBJECT_INFO, x)
    ensures var m := Msg([Rep(objects)], unknown);
            var b := PartsField(10, AllBytes(OBJECT_INFO, objects)) + WriteRecords(unknown);
            && Serialize(RES_ENTER_GAMEROOM_ALL, m) == b && Serialize(RES_SPAWN_ALL, m) == b
            && Serialize(RES_SPAWN_MONSTER, m) == b
  {
    hide ValRecords, Serialize, WriteRecords, PartsField, AllBytes;
    var m := Msg([Rep(objects)], unknown);
    RepeatedSchemas();
    Layout(RES_SPAWN_ALL, m);
    OneField(RES_SPAWN_ALL, m);
    PartsForm(1, OBJECT_INFO, objects);
  }

  // RES_ENTER, RES_ENTER_ROOM and RES_SPAWN
  lemma {:induction false} ObjectFlagBytes(object0: Option<Msg>, flag: bool, unknown: seq<Record>)
    requires object0.Some? ==> Shaped(OBJECT_INFO, object0.value)
    ensures var m := Msg([Sub(object0), Num(BoolNum(flag))], unknown);
            var b := PartField(10, BytesOf(OBJECT_INFO, object0)) + FlagField(16, flag) + WriteRecords(unknown);
            && Serialize(RES_ENTER, m) == b && Serialize(RES_ENTER_ROOM, m) == b && Serialize(RES_SPAWN, m) == b
  {
    hide ValRecords, Serialize, WriteRecords, PartField, BytesOf;
    var m := Msg([Sub(object0), Num(BoolNum(flag))], unknown);
    StructSchemas();
    NestedSchemas();
    Layout(RES_SPAWN, m);
    TwoFields(RES_SPAWN, m);
    PartForm(1, OBJECT_INFO, object0);
    VarintForm(2, Bool, BoolNum(flag));
  }

  // RES_MOVE and RES_MOVE_MONSTER
  lemma {:induction false} ObjectOnlyBytes(object0: Option<Msg>, unknown: seq<Record>)
    requires object0.Some? ==> Shaped(OBJECT_INFO, object0.value)
    ensures var m := Msg([Sub(object0)], unknown);
            var b := PartField(10, BytesOf(OBJECT_INFO, object0)) + WriteRecords(unknown);
            Serialize(RES_MOVE, m) == b && Serialize(RES_MOVE_MONSTER, m) == b
  {
    hide ValRecords, Serialize, WriteRecords, PartField, BytesOf;
    var m := Msg([Sub(object0)], unknown);
    StructSchemas();
    NestedSchemas();
    Layout(RES_MOVE, m);
    OneField(RES_MOVE, m);
    PartForm(1, OBJECT_INFO, object0);
  }

  lemma {:induction false} MoveRequestBytes(pos: Option<Msg>, unknown: seq<Record>)
    requires pos.Some? ==> Shaped(POSITION_INFO, pos.value)
    ensures Serialize(REQ_MOVE, Msg([Sub(pos)], unknown)) ==
            PartField(10, BytesOf(POSITION_INFO, pos)) + WriteRecords(unknown)
  {
    hide ValRecords, Serialize, WriteRecords, PartField, BytesOf;
    var m := Msg([Sub(pos)], unknown);
    StructSchemas();
    NestedSchemas();
    Layout(REQ_MOVE, m);
    OneField(REQ_MOVE, m);
    PartForm(1, POSITION_INFO, pos);
  }

  // REQ_LEAVE_GAMEROOM and RES_LEAVE
  lemma {:induction false} IdBytes(id: U64, unknown: seq<Record>)
    ensures Serialize(REQ_LEAVE_GAMEROOM, Msg([Num(id)], unknown)) == VarintField(8, id) + WriteRecords(unknown)
    ensures Serialize(RES_LEAVE, Msg([Num(id)], unknown)) == VarintField(8, id) + WriteRecords(unknown)
  {
    hide ValRecords, Serialize, WriteRecords, VarintField;
    var m := Msg([Num(id)], unknown);
    ScalarResponseSchemas();
    Layout(RES_LEAVE, m);
    OneField(RES_LEAVE, m);
    VarintForm(1, UInt64, id);
  }

  lemma {:induction false} LeaveBytes(unknown: seq<Record>)
    ensures Serialize(REQ_LEAVE, Msg([], unknown)) == WriteRecords(unknown)
  {
  }

  lemma {:induction false} LeaveGameRoomBytes(name: Bytes, id: U64, unknown: seq<Record>)
    ensures Serialize(RES_LEAVE_GAMEROOM, Msg([Str(name), Num(id)], unknown)) ==
            TextField(10, name) + VarintField(16, id) + WriteRecords(unknown)
  {
    hide ValRecords, Serialize, WriteRecords, TextField, VarintField;
    var m := Msg([Str(name), Num(id)], unknown);
    ScalarResponseSchemas();
    Layout(RES_LEAVE_GAMEROOM, m);
    TwoFields(RES_LEAVE_GAMEROOM, m);
    TextForm(1, name);
    VarintForm(2, UInt64, id);
  }

  lemma {:induction false} RespawnBytes(id: U64, name: Bytes, unknown: seq<Record>)
    ensures Serialize(REQ_RESPAWN, Msg([Num(id), Str(name)], unknown)) ==
            VarintField(8, id) + TextField(18, name) + WriteRecords(unknown)
  {
    hide ValRecords, Serialize, WriteRecords, TextField, VarintField;
    var m := Msg([Num(id), Str(name)], unknown);
    RequestSchemas();
    Layout(REQ_RESPAWN, m);
    TwoFields(REQ_RESPAWN, m);
    VarintForm(1, UInt64, id);
    TextForm(2, name);
  }

  lemma {:induction false} DespawnBytes(ids: seq<U64>, unknown: seq<Record>)
    ensures Serialize(RES_DESPAWN, Msg([Ints(ids)], unknown)) == PackedField(10, ids) + WriteRecords(unknown)
  {
    hide ValRecords, Serialize, WriteRecords, PackedField;
    var m := Msg([Ints(ids)], unknown);
    ScalarResponseSchemas();
    Layout(RES_DESPAWN, m);
    OneField(RES_DESPAWN, m);
    PackedForm(1, ids);
  }

  lemma {:induction false} ChangeHpBytes(id: U64, hp: U32, unknown: seq<Record>)
    ensures Serialize(RES_CHANGE_HP, Msg([Num(id), Num(hp)], unknown)) ==
            VarintField(8, id) + VarintField(16, hp) + WriteRecords(unknown)
  {
    hide ValRecords, Serialize, WriteRecords, VarintField;
    var m := Msg([Num(id), Num(hp)], unknown);
    ScalarResponseSchemas();
    Layout(RES_CHANGE_HP, m);
    TwoFields(RES_CHANGE_HP, m);
    VarintForm(1, UInt64, id);
    VarintForm(2, UInt32, hp);
  }

  lemma {:induction false} DieBytes(id: U64, attacker: U64, unknown: seq<Record>)
    ensures Serialize(RES_DIE, Msg([Num(id), Num(attacker)], unknown)) ==
            VarintField(8, id) + VarintField(16, attacker) + WriteRecords(unknown)
  {
    hide ValRecords, Serialize, WriteRecords, VarintField;
    var m := Msg([Num(id), Num(attacker)], unknown);
    ScalarResponseSchemas();
    Layout(RES_DIE, m);
    TwoFields(RES_DIE, m);
    VarintForm(1, UInt64, id);
    VarintForm(2, UInt64, attacker);
  }

  lemma {:induction false} AttackRequestBytes(attacker: U64, id: U64, damage: U32, unknown: seq<Record>)
    ensures Serialize(REQ_ATTACK_OBJECT, Msg([Num(attacker), Num(id), Num(damage)], unknown)) ==
            VarintField(8, attacker) + VarintField(16, id) + VarintField(24, damage) + WriteRecords(unknown)
  {
    hide ValRecords, Serialize, WriteRecords, VarintField;
    var m := Msg([Num(attacker), Num(id), Num(damage)], unknown);
    AttackSchemas();
    Layout(REQ_ATTACK_OBJECT, m);
    ThreeFields(REQ_ATTACK_OBJECT, m);
    VarintForm(1, UInt64, attacker);
    VarintForm(2, UInt64, id);
    VarintForm(3, UInt32, damage);
  }

  lemma {:induction false} AttackBytes(attacker: U64, id: U64, damage: U32, remain: U32, unknown: seq<Record>)
    ensures Serialize(RES_ATTACK_OBJECT, Msg([Num(attacker), Num(id), Num(damage), Num(remain)], unknown)) ==
            VarintField(8, attacker) + VarintField(16, id) + VarintField(24, damage) + VarintField(32, remain)
            + WriteRecords(unknown)
  {
    hide ValRecords, Serialize, WriteRecords, VarintField;
    var m := Msg([Num(attacker), Num(id), Num(damage), Num(remain)], unknown);
    AttackSchemas();
    Layout(RES_ATTACK_OBJECT, m);
    FourFields(RES_ATTACK_OBJECT, m);
    VarintForm(1, UInt64, attacker);
    VarintForm(2, UInt64, id);
    VarintForm(3, UInt32, damage);
    VarintForm(4, UInt32, remain);
  }
}
