/**
  Protocol::RES_SPAWN (Protocol/Protocol.pb.cc:3109-3248): a sub-message that
  holds one itself, and a bool, each method against the codec of RES_SPAWN.
 */
module Spawns {
  import opened Wire
  import opened Records
  import opened Codec
  import opened CodecLaws
  import S = Schemas
  import opened Streams
  import opened MessageBytes
  import opened ObjectInfos

  class RES_SPAWN {
    var player: ObjectInfo?
    var mine: bool
    var unknown: seq<Record>
    const cachedSize: CachedSize

    constructor ()
      ensures Valid() && Value() == Default(S.RES_SPAWN)
      ensures fresh(Footprint()) && fresh(Cells())
    {
      player, mine, unknown := null, false, [];
      cachedSize := new CachedSize();
    }

    ghost function Footprint(): set<object>
      reads this, player
    {
      if player == null then {this} else {this} + player.Footprint()
    }

    ghost function Cells(): set<CachedSize>
      reads this, player, if player == null then {} else player.Footprint()
    {
      if player == null then {cachedSize} else {cachedSize} + player.Cells()
    }

    ghost predicate Valid()
      reads this, player, if player == null then {} else player.Footprint()
    {
      player != null ==> player.Valid() && cachedSize !in player.Cells() && this !in player.Footprint()
    }

    ghost function Value(): (m: Msg)
      reads Footprint(), player, if player == null then {} else player.Footprint()
      ensures Shaped(S.RES_SPAWN, m)
    {
      Msg([Sub(if player == null then None else Some(player.Value())), Num(BoolNum(mine))], unknown)
    }

    // Which field goes out behind which tag.
    lemma {:induction false} Written()
      ensures Serialize(S.RES_SPAWN, Value()) ==
              PartField(10, if player == null then None else Some(Serialize(S.OBJECT_INFO, player.Value())))
              + FlagField(16, mine) + WriteRecords(unknown)
    {
      hide Serialize, ObjectInfo.Value;
      ObjectFlagBytes(if player == null then None else Some(player.Value()), mine, unknown);
    }

    method Clear()
      modifies this
      ensures Valid() && Value() == Default(S.RES_SPAWN)
      ensures Footprint() == {this} && Cells() == {cachedSize}
    {
      player := null;
      mine := false;
      unknown := [];
    }

    // _internal_mutable_player
    method MutablePlayer() returns (p: ObjectInfo)
      requires Valid()
      modifies this
      ensures p == player && Valid()
      ensures fresh(Footprint() - old(Footprint())) && fresh(Cells() - old(Cells()))
      ensures unchanged(`mine, `unknown)
      ensures old(player) != null ==> p == old(player)
      ensures old(player) == null ==> fresh(p.Footprint()) && p.Value() == Default(S.OBJECT_INFO)
    {
      if player == null {
        player := new ObjectInfo();
      }
      p := player;
    }

    method InternalParse(buf: Bytes, start: nat, limit: nat, depth: nat) returns (end: ParseEnd)
      requires start <= limit <= |buf| && Valid()
      modifies Footprint()
      ensures Valid() && fresh(Footprint() - old(Footprint())) && fresh(Cells() - old(Cells()))
      ensures end.AtLimit? <==> Parse(S.RES_SPAWN, old(Value()), buf[start..limit], depth).Some?
      ensures end.AtLimit? ==> Parse(S.RES_SPAWN, old(Value()), buf[start..limit], depth) == Some(Value())
    {
      hide Shaped, ValidSchema, Parse, ParseNested, AfterTag, ReadField, ReadTag, ReadVarint64, ReadLen;
      hide ObjectInfo.Value, ObjectInfo.Valid;
      S.NestedSchemas();
      var ptr := start;
      while ptr < limit
        invariant start <= ptr <= limit
        invariant Valid() && fresh(Footprint() - old(Footprint())) && fresh(Cells() - old(Cells()))
        invariant Parse(S.RES_SPAWN, Value(), buf[ptr..limit], depth) ==
                  Parse(S.RES_SPAWN, old(Value()), buf[start..limit], depth)
      {
        ghost var m := Value();
        ParseAt(S.RES_SPAWN, m, buf, ptr, limit, depth);
        var t := ReadTag(buf[ptr..limit]);
        if t.None? {
          return Failed;
        }
        var tag := t.value.0;
        ptr := ptr + t.value.1;
        if tag / 8 == 1 && tag % 256 == 10 {
          var next := ParsePlayer(buf, ptr, limit, depth);
          if next.None? {
            return Failed;
          }
          ptr := next.value;
        } else if tag / 8 == 2 && tag % 256 == 16 {
          var next := ParseMine(buf, ptr, limit, depth);
          if next.None? {
            return Failed;
          }
          ptr := next.value;
        } else if tag == 0 || tag % 8 == 4 {
          return AtTag(tag);
        } else {
          var next := ParseUnknown(tag, buf, ptr, limit, depth);
          if next.None? {
            return Failed;
          }
          ptr := next.value;
        }
      }
      ParseDone(S.RES_SPAWN, Value(), buf, limit, depth);
      end := AtLimit;
    }

    method ParseMine(buf: Bytes, ptr: nat, limit: nat, depth: nat) returns (next: Option<nat>)
      requires ptr <= limit <= |buf|
      modifies `mine
      ensures next.Some? ==> ptr <= next.value <= limit
      ensures AfterTag(S.RES_SPAWN, old(Value()), 16, buf[ptr..limit], depth) ==
              if next.None? then None else Parse(S.RES_SPAWN, Value(), buf[next.value..limit], depth)
    {
      hide Shaped, ValidSchema, Parse, ParseNested, AfterTag, ReadVarint64;
      S.NestedSchemas();
      ghost var m := Value();
      VarintCase(S.RES_SPAWN, m, 16, buf, ptr, limit, depth, 1);
      var v := ReadVarint64(buf[ptr..limit]);
      if v.None? {
        return None;
      }
      mine := v.value.0 != 0;
      assert Value().vals == m.vals[1 := Num(BoolNum(mine))];
      next := Some(ptr + v.value.1);
    }

    // handle_unusual
    method ParseUnknown(tag: U32, buf: Bytes, ptr: nat, limit: nat, depth: nat) returns (next: Option<nat>)
      requires ptr <= limit <= |buf|
      requires forall i :: 0 <= i < |S.RES_SPAWN.fields| && tag / 8 == S.RES_SPAWN.fields[i].num ==>
                             !TagMatches(S.RES_SPAWN.fields[i].kind, tag)
      modifies `unknown
      ensures next.Some? ==> ptr <= next.value <= limit
      ensures AfterTag(S.RES_SPAWN, old(Value()), tag, buf[ptr..limit], depth) ==
              if next.None? then None else Parse(S.RES_SPAWN, Value(), buf[next.value..limit], depth)
    {
      hide Shaped, ValidSchema, Parse, ParseNested, AfterTag, ReadField;
      S.NestedSchemas();
      UnknownCase(S.RES_SPAWN, Value(), tag, buf, ptr, limit, depth);
      var f := ReadField(tag, buf[ptr..limit], depth);
      if f.None? {
        return None;
      }
      unknown := unknown + [f.value.0];
      next := Some(ptr + f.value.1);
    }

    // The field player: parsing into the sub-message that is already there.
    method ParsePlayer(buf: Bytes, ptr: nat, limit: nat, depth: nat) returns (next: Option<nat>)
      requires ptr <= limit <= |buf| && Valid()
      modifies Footprint()
      ensures Valid() && fresh(Footprint() - old(Footprint())) && fresh(Cells() - old(Cells()))
      ensures next.Some? ==> ptr <= next.value <= limit
      ensures AfterTag(S.RES_SPAWN, old(Value()), 10, buf[ptr..limit], depth) ==
              if next.None? then None else Parse(S.RES_SPAWN, Value(), buf[next.value..limit], depth)
    {
      hide Shaped, ValidSchema, Parse, ParseNested, AfterTag, ReadLen;
      S.NestedSchemas();
      ghost var m := Value();
      LenCase(S.RES_SPAWN, m, 10, buf, ptr, limit, depth, 0);
      var p := MutablePlayer();
      next := p.ParseMessage(buf, ptr, limit, depth);
      if next.Some? {
        assert Value().vals == m.vals[0 := Sub(Some(p.Value()))];
      }
    }

    // The cached sizes that the writing pass uses are exact.
    ghost predicate Sized()
      reads this, player, if player == null then {} else player.Footprint() + player.Cells()
      requires Valid()
    {
      player != null ==> player.Sized() && player.cachedSize.size == Size(S.OBJECT_INFO, player.Value())
    }

    method ByteSizeLong() returns (n: nat)
      requires Valid()
      modifies Cells()
      ensures Valid() && Value() == old(Value())
      ensures Agree(n, Size(S.RES_SPAWN, Value()))
      ensures n <= INT_MAX ==> cachedSize.size == n && Sized()
    {
      hide Shaped, ValidSchema, Size, Serialize, RecordsSize, Agree, ValSize, ObjectInfo.Value, ObjectInfo.Sized;
      S.NestedSchemas();
      ghost var m := Value();
      Layout(S.RES_SPAWN, m);
      TwoFields(S.RES_SPAWN, m);
      n := PlayerSize();
      ghost var rest := (if mine then 1 + 1 else 0) + RecordsSize(unknown);
      BoolSize(mine);
      AgreeSum(n, ValSize(Message(S.OBJECT_INFO), m.vals[0]), rest, rest);
      if mine {
        n := n + 1 + 1;
      }
      n := n + RecordsSize(unknown);
      cachedSize.Set(n);
    }

    // The first term: 1 and MessageSize of the sub-message.
    method PlayerSize() returns (n: nat)
      requires Valid()
      modifies Cells()
      ensures Valid() && Value() == old(Value())
      ensures Agree(n, ValSize(Message(S.OBJECT_INFO), Value().vals[0]))
      ensures n <= INT_MAX ==> Sized()
    {
      hide Shaped, ValidSchema, Size;
      n := 0;
      if player != null {
        var p := player.ByteSizeLong();
        LengthDelimitedAgree(p, Size(S.OBJECT_INFO, player.Value()));
        n := 1 + LengthDelimitedSizeOf(p);
      }
    }

    method InternalSerialize(out: array<Byte>, target: nat) returns (t: nat)
      requires Valid() && Sized() && target + Size(S.RES_SPAWN, Value()) <= out.Length
      modifies out
      ensures t == target + Size(S.RES_SPAWN, Value())
      ensures out[..t] == old(out[..target]) + Serialize(S.RES_SPAWN, Value())
      ensures forall i :: t <= i < out.Length ==> out[i] == old(out[i])
    {
      hide Shaped, ValidSchema, WriteRecords, ValRecords, Serialize, Size, FieldsBytes, FieldsSize, ValSize;
      hide RecordsSize;
      S.NestedSchemas();
      ghost var m := Value();
      Layout(S.RES_SPAWN, m);
      TwoFields(S.RES_SPAWN, m);
      assert PlayerBytes() == FieldBytes(S.RES_SPAWN, m, 0);
      t := WritePlayer(out, target);
      t := WriteScalar(out, t, 2, Bool, BoolNum(mine), BoolNum(mine));
      assert Value() == m;
      t := WriteRaw(out, t, WriteRecords(unknown));
      assert Value() == m;
    }

    // InternalWriteMessage with the cached size, not a fresh one.
    method WritePlayer(out: array<Byte>, target: nat) returns (t: nat)
      requires Valid() && Sized() && target + |PlayerBytes()| <= out.Length
      modifies out
      ensures t == target + |PlayerBytes()|
      ensures out[..t] == old(out[..target]) + PlayerBytes()
      ensures forall i :: t <= i < out.Length ==> out[i] == old(out[i])
    {
      hide Shaped, ValidSchema, WriteRecords, ValRecords, Serialize, Size, EncodeVarint;
      S.StructSchemas();
      if player == null {
        NoSubMessageBytes(1, S.OBJECT_INFO);
        return target;
      }
      SubMessageBytes(1, S.OBJECT_INFO, player.Value());
      SizeExact(S.OBJECT_INFO, player.Value());
      t := WriteLengthDelim(out, target, 1, player.cachedSize.size);
      t := player.InternalSerialize(out, t);
    }

    ghost function PlayerBytes(): Bytes
      reads Footprint(), player, if player == null then {} else player.Footprint()
    {
      WriteRecords(ValRecords(1, Message(S.OBJECT_INFO), Value().vals[0]))
    }

    method MergeFrom(from: RES_SPAWN)
      requires Valid() && from.Valid() && Footprint() !! from.Footprint()
      modifies Footprint()
      ensures Valid() && fresh(Footprint() - old(Footprint())) && fresh(Cells() - old(Cells()))
      ensures Value() == Merge(S.RES_SPAWN, old(Value()), from.Value())
    {
      hide Shaped, Merge, MergeVal, Default, ObjectInfo.Value;
      ghost var a, b := Value(), from.Value();
      MergePlayer(from);
      assert from.Value() == b;
      if from.mine {
        mine := from.mine;
      }
      unknown := unknown + from.unknown;
      MergedSpawn(a, b, Value());
    }

    method MergePlayer(from: RES_SPAWN)
      requires Valid() && from.Valid() && Footprint() !! from.Footprint()
      modifies Footprint()
      ensures Valid() && fresh(Footprint() - old(Footprint())) && fresh(Cells() - old(Cells()))
      ensures unchanged(`mine, `unknown)
      ensures Value().vals[0] == MergeVal(Message(S.OBJECT_INFO), old(Value().vals[0]), from.Value().vals[0])
    {
      hide Shaped, Merge, Default, ObjectInfo.Value;
      if from.player != null {
        var p := MutablePlayer();
        p.MergeFrom(from.player);
      }
    }

    method CopyFrom(from: RES_SPAWN)
      requires Valid() && from.Valid() && (from != this ==> Footprint() !! from.Footprint())
      modifies Footprint()
      ensures Valid() && fresh(Footprint() - old(Footprint())) && fresh(Cells() - old(Cells()))
      ensures Value() == old(from.Value())
    {
      if from == this {
        return;
      }
      Clear();
      MergeFrom(from);
      MergeDefaultLeft(S.RES_SPAWN, from.Value());
    }
  }

  lemma {:induction false} BoolSize(b: bool)
    ensures ValSize(Bool, Num(BoolNum(b))) == if b then 1 + 1 else 0
  {
  }

  lemma {:induction false} MergedSpawn(a: Msg, b: Msg, m: Msg)
    requires Shaped(S.RES_SPAWN, a) && Shaped(S.RES_SPAWN, b)
    requires a.vals[1].Num? && b.vals[1].Num?
    requires m == Msg([MergeVal(Message(S.OBJECT_INFO), a.vals[0], b.vals[0]),
                       if b.vals[1].n != 0 then b.vals[1] else a.vals[1]], a.unknown + b.unknown)
    ensures m == Merge(S.RES_SPAWN, a, b)
  {
    hide Merge;
    MergeIs(S.RES_SPAWN, a, b, m);
  }
}
