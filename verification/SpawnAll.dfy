/**
  Protocol::RES_SPAWN_ALL (Protocol/Protocol.pb.cc:3325-3440): one repeated
  sub-message with its fast inner loop, each method against the codec of
  RES_SPAWN_ALL.
 */
module SpawnAlls {
  import opened Wire
  import opened Records
  import opened Codec
  import opened CodecLaws
  import S = Schemas
  import opened Streams
  import opened MessageBytes
  import opened ObjectInfoLists

  class RES_SPAWN_ALL {
    const players: ObjectInfoList
    var unknown: seq<Record>
    const cachedSize: CachedSize

    constructor ()
      ensures Valid() && Value() == Default(S.RES_SPAWN_ALL)
      ensures fresh(players.repr) && fresh(cachedSize)
    {
      unknown := [];
      players := new ObjectInfoList();
      cachedSize := new CachedSize();
    }

    ghost predicate Valid()
      reads players, players.repr
    {
      players.Valid() && this !in players.repr && cachedSize !in players.repr && cachedSize !in players.cells
    }

    // The list has taken in new objects only.
    twostate predicate Grown()
      reads players
    {
      fresh(players.repr - old(players.repr)) && fresh(players.cells - old(players.cells))
    }

    ghost function Value(): (m: Msg)
      requires Valid()
      reads this, players, players.repr
      ensures Shaped(S.RES_SPAWN_ALL, m)
    {
      Msg([Rep(players.Msgs())], unknown)
    }

    // Which field goes out behind which tag.
    lemma {:induction false} Written()
      requires Valid()
      ensures Serialize(S.RES_SPAWN_ALL, Value()) ==
              PartsField(10, AllBytes(S.OBJECT_INFO, players.Msgs())) + WriteRecords(unknown)
    {
      hide Serialize;
      ObjectsBytes(players.Msgs(), unknown);
    }

    method Clear()
      modifies this, players
      ensures Valid() && Value() == Default(S.RES_SPAWN_ALL)
      ensures players.repr == {players} && players.cells == {}
    {
      players.Clear();
      unknown := [];
    }

    // chunkEnd is where the buffer chunk in memory ends: DataAvailable answers
    // for the nearer of it and the limit, so the inner loop may stop early.
    method InternalParse(buf: Bytes, start: nat, limit: nat, chunkEnd: nat, depth: nat) returns (end: ParseEnd)
      requires start <= limit <= |buf| && Valid()
      modifies this, players
      ensures Valid() && Grown()
      ensures end.AtLimit? <==> Parse(S.RES_SPAWN_ALL, old(Value()), buf[start..limit], depth).Some?
      ensures end.AtLimit? ==> Parse(S.RES_SPAWN_ALL, old(Value()), buf[start..limit], depth) == Some(Value())
    {
      hide Shaped, ValidSchema, Default, ObjectInfoList.Msgs, ObjectInfoList.MsgsUpTo, ObjectInfoList.Valid, Parse;
      hide ParseNested, AfterTag, ReadField, ReadTag, ReadVarint64, ReadLen;
      S.RepeatedSchemas();
      var ptr := start;
      while ptr < limit
        invariant start <= ptr <= limit
        invariant Valid() && Grown()
        invariant Parse(S.RES_SPAWN_ALL, Value(), buf[ptr..limit], depth) ==
                  Parse(S.RES_SPAWN_ALL, old(Value()), buf[start..limit], depth)
      {
        ghost var m := Value();
        ParseAt(S.RES_SPAWN_ALL, m, buf, ptr, limit, depth);
        var t := ReadTag(buf[ptr..limit]);
        if t.None? {
          return Failed;
        }
        var tag := t.value.0;
        ptr := ptr + t.value.1;
        if tag / 8 == 1 && tag % 256 == 10 {
          var next := ParsePlayers(buf, ptr, limit, chunkEnd, depth);
          if next.None? {
            return Failed;
          }
          ptr := next.value;
        } else if tag == 0 || tag % 8 == 4 {
          return AtTag(tag);
        } else {
          UnknownCase(S.RES_SPAWN_ALL, m, tag, buf, ptr, limit, depth);
          var f := ReadField(tag, buf[ptr..limit], depth);
          if f.None? {
            return Failed;
          }
          unknown := unknown + [f.value.0];
          ptr := ptr + f.value.1;
        }
      }
      ParseDone(S.RES_SPAWN_ALL, Value(), buf, limit, depth);
      end := AtLimit;
    }

    // The inner loop for field 1: while the next byte in memory is the tag 10
    // again, the outer dispatch is skipped.
    method ParsePlayers(buf: Bytes, start: nat, limit: nat, chunkEnd: nat, depth: nat) returns (next: Option<nat>)
      requires start <= limit <= |buf| && Valid()
      modifies players
      ensures Valid() && Grown()
      ensures next.Some? ==> start <= next.value <= limit
      ensures AfterTag(S.RES_SPAWN_ALL, old(Value()), 10, buf[start..limit], depth) ==
              if next.None? then None else Parse(S.RES_SPAWN_ALL, Value(), buf[next.value..limit], depth)
    {
      hide Shaped, ValidSchema, Default, ObjectInfoList.Msgs, ObjectInfoList.MsgsUpTo, ObjectInfoList.Valid, Parse;
      hide ParseNested, AfterTag, ReadLen;
      S.RepeatedSchemas();
      var ptr := start - 1;
      while true
        invariant start <= ptr + 1 <= limit
        invariant Valid() && Grown()
        invariant AfterTag(S.RES_SPAWN_ALL, Value(), 10, buf[ptr + 1..limit], depth) ==
                  AfterTag(S.RES_SPAWN_ALL, old(Value()), 10, buf[start..limit], depth)
        decreases limit - ptr
      {
        ptr := ptr + 1;
        ghost var m := Value();
        LenCase(S.RES_SPAWN_ALL, m, 10, buf, ptr, limit, depth, 0);
        var q := players.AddParsed(buf, ptr, limit, depth);
        if q.None? {
          return None;
        }
        assert Value().vals == m.vals[0 := Rep(players.Msgs())];
        ptr := q.value;
        if !(ptr < limit && ptr < chunkEnd) {
          break;
        }
        if buf[ptr] != 10 {
          break;
        }
        ExpectedTag(S.RES_SPAWN_ALL, Value(), buf, ptr, limit, depth, 10);
      }
      next := Some(ptr);
    }

    // The cached sizes that the writing pass uses are exact.
    ghost predicate Sized()
      requires Valid()
      reads players, players.repr, players.cells
    {
      players.Sized()
    }

    method ByteSizeLong() returns (n: nat)
      requires Valid()
      modifies cachedSize, players.cells
      ensures Valid() && Value() == old(Value())
      ensures Agree(n, Size(S.RES_SPAWN_ALL, old(Value())))
      ensures n <= INT_MAX ==> cachedSize.size == n && Sized()
    {
      hide Shaped, ValidSchema, Size, Serialize, RecordsSize, RepSize, Agree;
      hide ObjectInfoList.Msgs, ObjectInfoList.MsgsUpTo, ObjectInfoList.Valid, ObjectInfoList.Sized;
      S.RepeatedSchemas();
      ghost var m := Value();
      Layout(S.RES_SPAWN_ALL, m);
      OneField(S.RES_SPAWN_ALL, m);
      n := players.ByteSize();
      ghost var rest := RecordsSize(unknown);
      AgreeSum(n, RepSize(S.OBJECT_INFO, players.Msgs()), rest, rest);
      n := n + RecordsSize(unknown);
      cachedSize.Set(n);
    }

    method InternalSerialize(out: array<Byte>, target: nat) returns (t: nat)
      requires Valid() && Sized() && out !in players.repr
      requires target + Size(S.RES_SPAWN_ALL, Value()) <= out.Length
      modifies out
      ensures Valid() && Value() == old(Value())
      ensures t == target + Size(S.RES_SPAWN_ALL, old(Value())) <= out.Length
      ensures out[..t] == old(out[..target]) + Serialize(S.RES_SPAWN_ALL, old(Value()))
      ensures forall i :: t <= i < out.Length ==> out[i] == old(out[i])
    {
      hide Shaped, ValidSchema, WriteRecords, ValRecords, Serialize, Size, FieldsBytes, FieldsSize, ValSize;
      hide RecordsSize;
      hide ObjectInfoList.Msgs, ObjectInfoList.MsgsUpTo, ObjectInfoList.Valid, ObjectInfoList.Sized, RepBytes;
      S.RepeatedSchemas();
      ghost var m := Value();
      Layout(S.RES_SPAWN_ALL, m);
      OneField(S.RES_SPAWN_ALL, m);
      PlayersBytes(m);
      t := players.WriteAll(1, out, target);
      t := WriteRaw(out, t, WriteRecords(unknown));
      assert Value() == m;
    }

    method MergeFrom(from: RES_SPAWN_ALL)
      requires Valid() && from.Valid() && from != this
      requires this !in from.players.repr && from !in players.repr && players !in from.players.repr
      modifies this, players
      ensures Valid() && Grown()
      ensures from.Valid() && from.Value() == old(from.Value())
      ensures Value() == Merge(S.RES_SPAWN_ALL, old(Value()), old(from.Value()))
    {
      hide Shaped, Merge, MergeVal, ObjectInfoList.Msgs, ObjectInfoList.MsgsUpTo, ObjectInfoList.Valid;
      ghost var a, b := Value(), from.Value();
      players.MergeFrom(from.players);
      assert from.Value() == b;
      unknown := unknown + from.unknown;
      Merged(a, b, Value());
    }

    method CopyFrom(from: RES_SPAWN_ALL)
      requires Valid() && from.Valid()
      requires from != this ==>
                 this !in from.players.repr && from !in players.repr && players !in from.players.repr
      modifies this, players
      ensures Valid()
      ensures Value() == old(from.Value())
    {
      if from == this {
        return;
      }
      hide Shaped, Merge, Default, ObjectInfoList.Msgs, ObjectInfoList.MsgsUpTo, ObjectInfoList.Valid;
      MergeDefaultLeft(S.RES_SPAWN_ALL, from.Value());
      Clear();
      assert from.Value() == old(from.Value());
      MergeFrom(from);
    }
  }

  lemma {:induction false} Merged(a: Msg, b: Msg, m: Msg)
    requires Shaped(S.RES_SPAWN_ALL, a) && Shaped(S.RES_SPAWN_ALL, b)
    requires a.vals[0].Rep? && b.vals[0].Rep?
    requires m == Msg([Rep(a.vals[0].ms + b.vals[0].ms)], a.unknown + b.unknown)
    ensures m == Merge(S.RES_SPAWN_ALL, a, b)
  {
    hide Merge;
    MergeIs(S.RES_SPAWN_ALL, a, b, m);
  }

  lemma {:induction false} PlayersBytes(m: Msg)
    requires Shaped(S.RES_SPAWN_ALL, m)
    ensures FieldBytes(S.RES_SPAWN_ALL, m, 0) == RepBytes(1, m.vals[0].ms)
  {
    hide WriteRecords, Serialize;
    assert ValRecords(1, Repeated(S.OBJECT_INFO), m.vals[0]) == RepRecords(1, S.OBJECT_INFO, m.vals[0].ms);
  }
}
