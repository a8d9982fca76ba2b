/**
  The message types of Struct.proto and Protocol.proto, from the descriptors
  at Protocol/Struct.pb.cc:91-98 and Protocol/Protocol.pb.cc:573-607.
 */
module Schemas {
  import opened Codec

  const POSITION_INFO := Schema([FieldDesc(1, Float), FieldDesc(2, Float), FieldDesc(3, Enum)])
  const OBJECT_INFO := Schema([FieldDesc(1, UInt64), FieldDesc(2, String), FieldDesc(3, UInt32),
                               FieldDesc(4, Message(POSITION_INFO))])

  const REQ_ENTER := Schema([FieldDesc(1, String)])
  const RES_ENTER := Schema([FieldDesc(1, Message(OBJECT_INFO)), FieldDesc(2, Bool)])
  const REQ_ENTER_GAMEROOM := Schema([FieldDesc(1, String), FieldDesc(3, Bool)])
  const RES_ENTER_GAMEROOM := Schema([FieldDesc(1, UInt32), FieldDesc(2, Repeated(OBJECT_INFO)),
                                      FieldDesc(3, Bool), FieldDesc(4, Bool)])
  const RES_ENTER_GAMEROOM_ALL := Schema([FieldDesc(1, Repeated(OBJECT_INFO))])
  const REQ_LEAVE_GAMEROOM := Schema([FieldDesc(1, UInt64)])
  const RES_LEAVE_GAMEROOM := Schema([FieldDesc(1, String), FieldDesc(2, UInt64)])
  const REQ_ENTER_ROOM := Schema([FieldDesc(1, String)])
  const RES_ENTER_ROOM := Schema([FieldDesc(1, Message(OBJECT_INFO)), FieldDesc(2, Bool)])
  const REQ_LEAVE := Schema([])
  const RES_LEAVE := Schema([FieldDesc(1, UInt64)])
  const REQ_RESPAWN := Schema([FieldDesc(1, UInt64), FieldDesc(2, String)])
  const RES_SPAWN := Schema([FieldDesc(1, Message(OBJECT_INFO)), FieldDesc(2, Bool)])
  const RES_SPAWN_ALL := Schema([FieldDesc(1, Repeated(OBJECT_INFO))])
  const RES_DESPAWN := Schema([FieldDesc(1, Packed)])
  const RES_CHANGE_HP := Schema([FieldDesc(1, UInt64), FieldDesc(2, UInt32)])
  const RES_DIE := Schema([FieldDesc(1, UInt64), FieldDesc(2, UInt64)])
  const REQ_MOVE := Schema([FieldDesc(1, Message(POSITION_INFO))])
  const RES_MOVE := Schema([FieldDesc(1, Message(OBJECT_INFO))])
  const RES_SPAWN_MONSTER := Schema([FieldDesc(1, Repeated(OBJECT_INFO))])
  const RES_MOVE_MONSTER := Schema([FieldDesc(1, Message(OBJECT_INFO))])
  const REQ_ATTACK_OBJECT := Schema([FieldDesc(1, UInt64), FieldDesc(2, UInt64), FieldDesc(3, UInt32)])
  const RES_ATTACK_OBJECT := Schema([FieldDesc(1, UInt64), FieldDesc(2, UInt64), FieldDesc(3, UInt32),
                                     FieldDesc(4, UInt32)])

  // Every message type of the protocol is within the scope of the codec laws.
  lemma {:induction false} StructSchemas()
    ensures ValidSchema(POSITION_INFO) && ValidSchema(OBJECT_INFO)
  {
  }

  lemma {:induction false} RequestSchemas()
    ensures ValidSchema(REQ_ENTER) && ValidSchema(REQ_ENTER_GAMEROOM) && ValidSchema(REQ_LEAVE_GAMEROOM)
    ensures ValidSchema(REQ_ENTER_ROOM) && ValidSchema(REQ_LEAVE) && ValidSchema(REQ_RESPAWN)
  {
  }

  lemma {:induction false} ScalarResponseSchemas()
    ensures ValidSchema(RES_LEAVE_GAMEROOM) && ValidSchema(RES_LEAVE) && ValidSchema(RES_DESPAWN)
    ensures ValidSchema(RES_CHANGE_HP) && ValidSchema(RES_DIE)
  {
  }

  lemma {:induction false} AttackSchemas()
    ensures ValidSchema(REQ_ATTACK_OBJECT) && ValidSchema(RES_ATTACK_OBJECT)
  {
  }

  lemma {:induction false} NestedSchemas()
    ensures ValidSchema(RES_ENTER) && ValidSchema(RES_ENTER_ROOM) && ValidSchema(RES_SPAWN)
    ensures ValidSchema(REQ_MOVE) && ValidSchema(RES_MOVE) && ValidSchema(RES_MOVE_MONSTER)
  {
    StructSchemas();
  }

  lemma {:induction false} RepeatedSchemas()
    ensures ValidSchema(RES_ENTER_GAMEROOM) && ValidSchema(RES_ENTER_GAMEROOM_ALL)
    ensures ValidSchema(RES_SPAWN_ALL) && ValidSchema(RES_SPAWN_MONSTER)
  {
    StructSchemas();
  }
}
