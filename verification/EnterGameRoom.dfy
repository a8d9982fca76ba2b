/**
  Protocol::RES_ENTER_GAMEROOM (Protocol/Protocol.pb.cc:1355-1540): a varint, a
  repeated sub-message with its fast inner loop, and two bools, each method
  against the codec of RES_ENTER_GAMEROOM.
 */
module EnterGameRooms {
  import opened Wire
  import opened Records
  import opened Codec
  import opened CodecLaws
  import S = Schemas
  import opened Streams
  import opened MessageBytes
  import opened ObjectInfoLists

  class RES_ENTER_GAMEROOM {
    var memberCount: U32
    const players: ObjectInfoList
    var isCreate: bool
    var mine: bool
    var unknown: seq<Record>
    const cachedSize: CachedSize

    constructor ()
      ensures Valid() && Value() == Default(S.RES_ENTER_GAMEROOM)
      ensures fresh(players.repr) && fresh(cachedSize)
    {
      memberCount, isCreate, mine, unknown := 0, false, false, [];
      players := new ObjectInfoList();
      cachedSize := new CachedSize();
    }

    ghost predicate Valid()
      reads players, players.repr
    {
      players.Valid() && this !in players.repr && cachedSize !in players.repr && cachedSize !in players.cells
    }

    // The list has taken in new objects only.
    twostate predicate Grown()
      reads players
    {
      fresh(players.repr - old(players.repr)) && fresh(players.cells - old(players.cells))
    }

    ghost function Value(): (m: Msg)
      requires Valid()
      reads this, players, players.repr
      ensures Shaped(S.RES_ENTER_GAMEROOM, m)
    {
      Msg([Num(memberCount), Rep(players.Msgs()), Num(BoolNum(isCreate)), Num(BoolNum(mine))], unknown)
    }

    // Which field goes out behind which tag.
    lemma {:induction false} Written()
      requires Valid()
      ensures Serialize(S.RES_ENTER_GAMEROOM, Value()) ==
              VarintField(8, memberCount) + PartsField(18, AllBytes(S.OBJECT_INFO, players.Msgs()))
              + FlagField(24, isCreate) + FlagField(32, mine) + WriteRecords(unknown)
    {
      hide Serialize;
      EnterGameRoomBytes(memberCount, players.Msgs(), isCreate, mine, unknown);
    }

    method Clear()
      modifies this, players
      ensures Valid() && Value() == Default(S.RES_ENTER_GAMEROOM)
      ensures players.repr == {players} && players.cells == {}
    {
      players.Clear();
      memberCount, isCreate, mine := 0, false, false;
      unknown := [];
    }

    // chunkEnd is where the buffer chunk in memory ends: DataAvailable answers
    // for the nearer of it and the limit, so the inner loop may stop early.
    method InternalParse(buf: Bytes, start: nat, limit: nat, chunkEnd: nat, depth: nat) returns (end: ParseEnd)
      requires start <= limit <= |buf| && Valid()
      modifies this, players
      ensures Valid() && Grown()
      ensures end.AtLimit? <==> Parse(S.RES_ENTER_GAMEROOM, old(Value()), buf[start..limit], depth).Some?
      ensures end.AtLimit? ==> Parse(S.RES_ENTER_GAMEROOM, old(Value()), buf[start..limit], depth) == Some(Value())
    {
      hide Shaped, ValidSchema, Default, ObjectInfoList.Msgs, ObjectInfoList.MsgsUpTo, ObjectInfoList.Valid, Parse;
      hide ParseNested, AfterTag, ReadField, ReadTag, ReadVarint64, ReadLen;
      S.RepeatedSchemas();
      var ptr := start;
      while ptr < limit
        invariant start <= ptr <= limit
        invariant Valid() && Grown()
        invariant Parse(S.RES_ENTER_GAMEROOM, Value(), buf[ptr..limit], depth) ==
                  Parse(S.RES_ENTER_GAMEROOM, old(Value()), buf[start..limit], depth)
      {
        ghost var m := Value();
        ParseAt(S.RES_ENTER_GAMEROOM, m, buf, ptr, limit, depth);
        var t := ReadTag(buf[ptr..limit]);
        if t.None? {
          return Failed;
        }
        var tag := t.value.0;
        ptr := ptr + t.value.1;
        if tag / 8 == 2 && tag % 256 == 18 {
          var next := ParsePlayers(buf, ptr, limit, chunkEnd, depth);
          if next.None? {
            return Failed;
          }
          ptr := next.value;
        } else if (tag / 8 == 1 && tag % 256 == 8) || (tag / 8 == 3 && tag % 256 == 24)
                  || (tag / 8 == 4 && tag % 256 == 32) {
          var next := ParseScalar(tag, buf, ptr, limit, depth);
          if next.None? {
            return Failed;
          }
          ptr := next.value;
        } else if tag == 0 || tag % 8 == 4 {
          return AtTag(tag);
        } else {
          UnknownCase(S.RES_ENTER_GAMEROOM, m, tag, buf, ptr, limit, depth);
          var f := ReadField(tag, buf[ptr..limit], depth);
          if f.None? {
            return Failed;
          }
          unknown := unknown + [f.value.0];
          ptr := ptr + f.value.1;
        }
      }
      ParseDone(S.RES_ENTER_GAMEROOM, Value(), buf, limit, depth);
      end := AtLimit;
    }

    // The three varint cases of the switch.
    method ParseScalar(tag: U32, buf: Bytes, start: nat, limit: nat, depth: nat) returns (next: Option<nat>)
      requires start <= limit <= |buf| && Valid() && tag in {8, 24, 32}
      modifies `memberCount, `isCreate, `mine
      ensures Valid()
      ensures next.Some? ==> start <= next.value <= limit
      ensures AfterTag(S.RES_ENTER_GAMEROOM, old(Value()), tag, buf[start..limit], depth) ==
              if next.None? then None else Parse(S.RES_ENTER_GAMEROOM, Value(), buf[next.value..limit], depth)
    {
      hide Shaped, ValidSchema, Default, ObjectInfoList.Msgs, ObjectInfoList.MsgsUpTo, ObjectInfoList.Valid, Parse;
      hide AfterTag, ReadVarint64;
      S.RepeatedSchemas();
      ghost var m := Value();
      ghost var i := if tag == 8 then 0 else if tag == 24 then 2 else 3;
      VarintCase(S.RES_ENTER_GAMEROOM, m, tag, buf, start, limit, depth, i);
      Varint32Of64(buf[start..limit]);
      var v := ReadVarint64(buf[start..limit]);
      if v.None? {
        return None;
      }
      if tag == 8 {
        memberCount := ReadVarint32(buf[start..limit]).value.0;
        assert Value().vals == m.vals[0 := Num(memberCount)];
      } else if tag == 24 {
        isCreate := v.value.0 != 0;
        assert Value().vals == m.vals[2 := Num(BoolNum(isCreate))];
      } else {
        mine := v.value.0 != 0;
        assert Value().vals == m.vals[3 := Num(BoolNum(mine))];
      }
      next := Some(start + v.value.1);
    }

    // The inner loop for field 2: while the next byte in memory is the tag 18
    // again, the outer dispatch is skipped.
    method ParsePlayers(buf: Bytes, start: nat, limit: nat, chunkEnd: nat, depth: nat) returns (next: Option<nat>)
      requires start <= limit <= |buf| && Valid()
      modifies players
      ensures Valid() && Grown()
      ensures next.Some? ==> start <= next.value <= limit
      ensures AfterTag(S.RES_ENTER_GAMEROOM, old(Value()), 18, buf[start..limit], depth) ==
              if next.None? then None else Parse(S.RES_ENTER_GAMEROOM, Value(), buf[next.value..limit], depth)
    {
      hide Shaped, ValidSchema, Default, ObjectInfoList.Msgs, ObjectInfoList.MsgsUpTo, ObjectInfoList.Valid, Parse;
      hide ParseNested, AfterTag, ReadLen;
      S.RepeatedSchemas();
      var ptr := start - 1;
      while true
        invariant start <= ptr + 1 <= limit
        invariant Valid() && Grown()
        invariant AfterTag(S.RES_ENTER_GAMEROOM, Value(), 18, buf[ptr + 1..limit], depth) ==
                  AfterTag(S.RES_ENTER_GAMEROOM, old(Value()), 18, buf[start..limit], depth)
        decreases limit - ptr
      {
        ptr := ptr + 1;
        ghost var m := Value();
        LenCase(S.RES_ENTER_GAMEROOM, m, 18, buf, ptr, limit, depth, 1);
        var q := players.AddParsed(buf, ptr, limit, depth);
        if q.None? {
          return None;
        }
        assert Value().vals == m.vals[1 := Rep(players.Msgs())];
        ptr := q.value;
        if !(ptr < limit && ptr < chunkEnd) {
          break;
        }
        if buf[ptr] != 18 {
          break;
        }
        ExpectedTag(S.RES_ENTER_GAMEROOM, Value(), buf, ptr, limit, depth, 18);
      }
      next := Some(ptr);
    }

    // The cached sizes that the writing pass uses are exact.
    ghost predicate Sized()
      requires Valid()
      reads players, players.repr, players.cells
    {
      players.Sized()
    }

    // Fields in the generated order: players, memberCount, isCreate, mine.
    method ByteSizeLong() returns (n: nat)
      requires Valid()
      modifies cachedSize, players.cells
      ensures Valid() && Value() == old(Value())
      ensures Agree(n, Size(S.RES_ENTER_GAMEROOM, old(Value())))
      ensures n <= INT_MAX ==> cachedSize.size == n && Sized()
    {
      hide Shaped, ValidSchema, Size, Serialize, RecordsSize, RepSize, Agree, ScalarSizeOf;
      hide ObjectInfoList.Msgs, ObjectInfoList.MsgsUpTo, ObjectInfoList.Valid, ObjectInfoList.Sized;
      S.RepeatedSchemas();
      ghost var m := Value();
      Layout(S.RES_ENTER_GAMEROOM, m);
      FourFields(S.RES_ENTER_GAMEROOM, m);
      n := players.ByteSize();
      var rest := ScalarSizes();
      AgreeSum(n, RepSize(S.OBJECT_INFO, players.Msgs()), rest + RecordsSize(unknown), rest + RecordsSize(unknown));
      n := n + rest;
      n := n + RecordsSize(unknown);
      cachedSize.Set(n);
    }

    // The terms of the three scalar fields.
    method ScalarSizes() returns (n: nat)
      ensures n == ValSize(UInt32, Num(memberCount)) + ValSize(Bool, Num(BoolNum(isCreate)))
                   + ValSize(Bool, Num(BoolNum(mine)))
    {
      ScalarSizeAgrees(UInt32, memberCount);
      n := ScalarSizeOf(memberCount);
      if isCreate {
        n := n + 1 + 1;
      }
      if mine {
        n := n + 1 + 1;
      }
    }

    method InternalSerialize(out: array<Byte>, target: nat) returns (t: nat)
      requires Valid() && Sized() && out !in players.repr
      requires target + Size(S.RES_ENTER_GAMEROOM, Value()) <= out.Length
      modifies out
      ensures Valid() && Value() == old(Value())
      ensures t == target + Size(S.RES_ENTER_GAMEROOM, old(Value())) <= out.Length
      ensures out[..t] == old(out[..target]) + Serialize(S.RES_ENTER_GAMEROOM, old(Value()))
      ensures forall i :: t <= i < out.Length ==> out[i] == old(out[i])
    {
      hide Shaped, ValidSchema, WriteRecords, ValRecords, Serialize, Size, FieldsBytes, FieldsSize, ValSize;
      hide RecordsSize;
      hide ObjectInfoList.Msgs, ObjectInfoList.MsgsUpTo, ObjectInfoList.Valid, ObjectInfoList.Sized, RepBytes;
      S.RepeatedSchemas();
      ghost var m := Value();
      Layout(S.RES_ENTER_GAMEROOM, m);
      FourFields(S.RES_ENTER_GAMEROOM, m);
      PlayersBytes(m);
      ghost var front := FieldBytes(S.RES_ENTER_GAMEROOM, m, 0) + FieldBytes(S.RES_ENTER_GAMEROOM, m, 1)
                         + FieldBytes(S.RES_ENTER_GAMEROOM, m, 2);
      t := WriteScalar(out, target, 1, UInt32, memberCount, memberCount);
      t := players.WriteAll(2, out, t);
      t := WriteScalar(out, t, 3, Bool, BoolNum(isCreate), BoolNum(isCreate));
      assert out[..t] == old(out[..target]) + front;
      t := WriteScalar(out, t, 4, Bool, BoolNum(mine), BoolNum(mine));
      t := WriteRaw(out, t, WriteRecords(unknown));
      assert Value() == m;
    }

    method MergeFrom(from: RES_ENTER_GAMEROOM)
      requires Valid() && from.Valid() && from != this
      requires this !in from.players.repr && from !in players.repr && players !in from.players.repr
      modifies this, players
      ensures Valid() && Grown()
      ensures from.Valid() && from.Value() == old(from.Value())
      ensures Value() == Merge(S.RES_ENTER_GAMEROOM, old(Value()), old(from.Value()))
    {
      hide Shaped, Merge, MergeVal, ObjectInfoList.Msgs, ObjectInfoList.MsgsUpTo, ObjectInfoList.Valid;
      ghost var a, b := Value(), from.Value();
      players.MergeFrom(from.players);
      assert from.Value() == b;
      if from.memberCount != 0 {
        memberCount := from.memberCount;
      }
      if from.isCreate {
        isCreate := from.isCreate;
      }
      if from.mine {
        mine := from.mine;
      }
      unknown := unknown + from.unknown;
      Merged(a, b, Value());
    }

    method CopyFrom(from: RES_ENTER_GAMEROOM)
      requires Valid() && from.Valid()
      requires from != this ==>
                 this !in from.players.repr && from !in players.repr && players !in from.players.repr
      modifies this, players
      ensures Valid()
      ensures Value() == old(from.Value())
    {
      if from == this {
        return;
      }
      hide Shaped, Merge, Default, ObjectInfoList.Msgs, ObjectInfoList.MsgsUpTo, ObjectInfoList.Valid;
      MergeDefaultLeft(S.RES_ENTER_GAMEROOM, from.Value());
      Clear();
      assert from.Value() == old(from.Value());
      MergeFrom(from);
    }
  }

  lemma {:induction false} Merged(a: Msg, b: Msg, m: Msg)
    requires Shaped(S.RES_ENTER_GAMEROOM, a) && Shaped(S.RES_ENTER_GAMEROOM, b)
    requires a.vals[0].Num? && a.vals[1].Rep? && a.vals[2].Num? && a.vals[3].Num?
    requires b.vals[0].Num? && b.vals[1].Rep? && b.vals[2].Num? && b.vals[3].Num?
    requires m == Msg([if b.vals[0].n != 0 then b.vals[0] else a.vals[0], Rep(a.vals[1].ms + b.vals[1].ms),
                       if b.vals[2].n != 0 then b.vals[2] else a.vals[2],
                       if b.vals[3].n != 0 then b.vals[3] else a.vals[3]], a.unknown + b.unknown)
    ensures m == Merge(S.RES_ENTER_GAMEROOM, a, b)
  {
    hide Merge;
    MergeIs(S.RES_ENTER_GAMEROOM, a, b, m);
  }

  lemma {:induction false} PlayersBytes(m: Msg)
    requires Shaped(S.RES_ENTER_GAMEROOM, m)
    ensures FieldBytes(S.RES_ENTER_GAMEROOM, m, 1) == RepBytes(2, m.vals[1].ms)
    ensures FieldBytes(S.RES_ENTER_GAMEROOM, m, 0) == WriteRecords(ValRecords(1, UInt32, m.vals[0]))
    ensures FieldBytes(S.RES_ENTER_GAMEROOM, m, 2) == WriteRecords(ValRecords(3, Bool, m.vals[2]))
    ensures FieldBytes(S.RES_ENTER_GAMEROOM, m, 3) == WriteRecords(ValRecords(4, Bool, m.vals[3]))
  {
    hide WriteRecords, Serialize;
    assert ValRecords(2, Repeated(S.OBJECT_INFO), m.vals[1]) == RepRecords(2, S.OBJECT_INFO, m.vals[1].ms);
  }
}
