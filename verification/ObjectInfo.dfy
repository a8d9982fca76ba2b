/**
  Protocol::ObjectInfo (Protocol/Struct.pb.cc:200-402): a varint, a string, a
  varint and a sub-message, each method against the codec of OBJECT_INFO.
 */
module ObjectInfos {
  import opened Wire
  import opened Records
  import opened Codec
  import opened CodecLaws
  import opened Schemas
  import opened Streams
  import opened MessageBytes
  import opened PositionInfos

  class ObjectInfo {
    var objectId: U64
    var name: Bytes
    var health: U32
    var posInfo: PositionInfo?
    var unknown: seq<Record>
    const cachedSize: CachedSize

    constructor ()
      ensures Value() == Default(OBJECT_INFO) && Valid()
      ensures fresh(Footprint()) && fresh(Cells())
    {
      objectId, name, health, posInfo, unknown := 0, [], 0, null, [];
      cachedSize := new CachedSize();
    }

    // The objects that make up the message, and its cached size cells.
    ghost function Footprint(): set<object>
      reads this
    {
      if posInfo == null then {this} else {this, posInfo}
    }

    ghost function Cells(): set<CachedSize>
      reads this
    {
      if posInfo == null then {cachedSize} else {cachedSize, posInfo.cachedSize}
    }

    ghost predicate Valid()
      reads this
    {
      posInfo != null ==> posInfo.cachedSize != cachedSize
    }

    ghost function Value(): (m: Msg)
      reads Footprint()
      ensures Shaped(OBJECT_INFO, m)
    {
      Msg([Num(objectId), Str(name), Num(health), Sub(if posInfo == null then None else Some(posInfo.Value()))],
          unknown)
    }

    // Which field goes out behind which tag.
    lemma {:induction false} Written()
      ensures Serialize(OBJECT_INFO, Value()) ==
              VarintField(8, objectId) + TextField(18, name) + VarintField(24, health)
              + PartField(34, if posInfo == null then None else Some(Serialize(POSITION_INFO, posInfo.Value())))
              + WriteRecords(unknown)
    {
      hide Serialize;
      ObjectBytes(objectId, name, health, if posInfo == null then None else Some(posInfo.Value()), unknown);
    }

    method Clear()
      modifies this
      ensures Value() == Default(OBJECT_INFO) && Valid()
      ensures Footprint() == {this} && Cells() == {cachedSize}
    {
      name := [];
      posInfo := null;
      objectId, health := 0, 0;
      unknown := [];
    }

    // _internal_mutable_posinfo
    method MutablePosInfo() returns (p: PositionInfo)
      requires Valid()
      modifies this
      ensures p == posInfo && Valid()
      ensures fresh(Footprint() - old(Footprint())) && fresh(Cells() - old(Cells()))
      ensures unchanged(`objectId, `name, `health, `unknown)
      ensures old(posInfo) != null ==> p == old(posInfo)
      ensures old(posInfo) == null ==> fresh(p) && p.Value() == Default(POSITION_INFO)
    {
      if posInfo == null {
        posInfo := new PositionInfo();
      }
      p := posInfo;
    }

    method InternalParse(buf: Bytes, start: nat, limit: nat, depth: nat) returns (end: ParseEnd)
      requires start <= limit <= |buf| && Valid()
      modifies Footprint()
      ensures Valid() && fresh(Footprint() - old(Footprint())) && fresh(Cells() - old(Cells()))
      ensures end.AtLimit? <==> Parse(OBJECT_INFO, old(Value()), buf[start..limit], depth).Some?
      ensures end.AtLimit? ==> Parse(OBJECT_INFO, old(Value()), buf[start..limit], depth) == Some(Value())
    {
      hide Shaped, ValidSchema, Parse, ParseNested, AfterTag, ReadField, ReadTag, ReadVarint64, ReadLen, ValidUtf8;
      StructSchemas();
      var ptr := start;
      while ptr < limit
        invariant start <= ptr <= limit
        invariant Valid() && fresh(Footprint() - old(Footprint())) && fresh(Cells() - old(Cells()))
        invariant Parse(OBJECT_INFO, Value(), buf[ptr..limit], depth) ==
                  Parse(OBJECT_INFO, old(Value()), buf[start..limit], depth)
      {
        ghost var m := Value();
        ParseAt(OBJECT_INFO, m, buf, ptr, limit, depth);
        var t := ReadTag(buf[ptr..limit]);
        if t.None? {
          return Failed;
        }
        var tag := t.value.0;
        ptr := ptr + t.value.1;
        if tag / 8 == 1 && tag % 256 == 8 {
          var next := ParseObjectId(buf, ptr, limit, depth);
          if next.None? {
            return Failed;
          }
          ptr := next.value;
        } else if tag / 8 == 2 && tag % 256 == 18 {
          var next := ParseName(buf, ptr, limit, depth);
          if next.None? {
            return Failed;
          }
          ptr := next.value;
        } else if tag / 8 == 3 && tag % 256 == 24 {
          var next := ParseHealth(buf, ptr, limit, depth);
          if next.None? {
            return Failed;
          }
          ptr := next.value;
        } else if tag / 8 == 4 && tag % 256 == 34 {
          var next := ParsePosInfo(buf, ptr, limit, depth);
          if next.None? {
            return Failed;
          }
          ptr := next.value;
        } else if tag == 0 || tag % 8 == 4 {
          return AtTag(tag);
        } else {
          var next := ParseUnknown(tag, buf, ptr, limit, depth);
          if next.None? {
            return Failed;
          }
          ptr := next.value;
        }
      }
      ParseDone(OBJECT_INFO, Value(), buf, limit, depth);
      end := AtLimit;
    }

    method ParseObjectId(buf: Bytes, ptr: nat, limit: nat, depth: nat) returns (next: Option<nat>)
      requires ptr <= limit <= |buf|
      modifies `objectId
      ensures next.Some? ==> ptr <= next.value <= limit
      ensures AfterTag(OBJECT_INFO, old(Value()), 8, buf[ptr..limit], depth) ==
              if next.None? then None else Parse(OBJECT_INFO, Value(), buf[next.value..limit], depth)
    {
      hide Shaped, ValidSchema, Parse, AfterTag, ReadVarint64;
      StructSchemas();
      ghost var m := Value();
      VarintCase(OBJECT_INFO, m, 8, buf, ptr, limit, depth, 0);
      var v := ReadVarint64(buf[ptr..limit]);
      if v.None? {
        return None;
      }
      objectId := v.value.0;
      assert Value().vals == m.vals[0 := Num(objectId)];
      next := Some(ptr + v.value.1);
    }

    // The field name: the string is stored before it is checked.
    method ParseName(buf: Bytes, ptr: nat, limit: nat, depth: nat) returns (next: Option<nat>)
      requires ptr <= limit <= |buf|
      modifies `name
      ensures next.Some? ==> ptr <= next.value <= limit
      ensures AfterTag(OBJECT_INFO, old(Value()), 18, buf[ptr..limit], depth) ==
              if next.None? then None else Parse(OBJECT_INFO, Value(), buf[next.value..limit], depth)
    {
      hide Shaped, ValidSchema, Parse, ParseNested, AfterTag, ReadLen, ValidUtf8;
      StructSchemas();
      ghost var m := Value();
      LenCase(OBJECT_INFO, m, 18, buf, ptr, limit, depth, 1);
      var s := ReadLen(buf[ptr..limit]);
      if s.None? {
        return None;
      }
      name := s.value.0;
      if !ValidUtf8(name) {
        return None;
      }
      assert Value().vals == m.vals[1 := Str(name)];
      next := Some(ptr + s.value.1);
    }

    method ParseHealth(buf: Bytes, ptr: nat, limit: nat, depth: nat) returns (next: Option<nat>)
      requires ptr <= limit <= |buf|
      modifies `health
      ensures next.Some? ==> ptr <= next.value <= limit
      ensures AfterTag(OBJECT_INFO, old(Value()), 24, buf[ptr..limit], depth) ==
              if next.None? then None else Parse(OBJECT_INFO, Value(), buf[next.value..limit], depth)
    {
      hide Shaped, ValidSchema, Parse, ParseNested, AfterTag, ReadVarint64;
      StructSchemas();
      ghost var m := Value();
      VarintCase(OBJECT_INFO, m, 24, buf, ptr, limit, depth, 2);
      var v := ReadVarint32(buf[ptr..limit]);
      Varint32Of64(buf[ptr..limit]);
      if v.None? {
        return None;
      }
      health := v.value.0;
      assert Value().vals == m.vals[2 := Num(health)];
      next := Some(ptr + v.value.1);
    }

    // handle_unusual
    method ParseUnknown(tag: U32, buf: Bytes, ptr: nat, limit: nat, depth: nat) returns (next: Option<nat>)
      requires ptr <= limit <= |buf|
      requires forall i :: 0 <= i < |OBJECT_INFO.fields| && tag / 8 == OBJECT_INFO.fields[i].num ==>
                             !TagMatches(OBJECT_INFO.fields[i].kind, tag)
      modifies `unknown
      ensures next.Some? ==> ptr <= next.value <= limit
      ensures AfterTag(OBJECT_INFO, old(Value()), tag, buf[ptr..limit], depth) ==
              if next.None? then None else Parse(OBJECT_INFO, Value(), buf[next.value..limit], depth)
    {
      hide Shaped, ValidSchema, Parse, ParseNested, AfterTag, ReadField;
      StructSchemas();
      UnknownCase(OBJECT_INFO, Value(), tag, buf, ptr, limit, depth);
      var f := ReadField(tag, buf[ptr..limit], depth);
      if f.None? {
        return None;
      }
      unknown := unknown + [f.value.0];
      next := Some(ptr + f.value.1);
    }

    // The field posInfo: parsing into the sub-message that is already there.
    method ParsePosInfo(buf: Bytes, ptr: nat, limit: nat, depth: nat) returns (next: Option<nat>)
      requires ptr <= limit <= |buf| && Valid()
      modifies Footprint()
      ensures Valid() && fresh(Footprint() - old(Footprint())) && fresh(Cells() - old(Cells()))
      ensures next.Some? ==> ptr <= next.value <= limit
      ensures AfterTag(OBJECT_INFO, old(Value()), 34, buf[ptr..limit], depth) ==
              if next.None? then None else Parse(OBJECT_INFO, Value(), buf[next.value..limit], depth)
    {
      hide Shaped, ValidSchema, Parse, ParseNested, AfterTag, ReadLen;
      StructSchemas();
      ghost var m := Value();
      LenCase(OBJECT_INFO, m, 34, buf, ptr, limit, depth, 3);
      var p := MutablePosInfo();
      next := p.ParseMessage(buf, ptr, limit, depth);
      if next.Some? {
        assert Value().vals == m.vals[3 := Sub(Some(p.Value()))];
      }
    }

    method ParseMessage(buf: Bytes, ptr: nat, limit: nat, depth: nat) returns (next: Option<nat>)
      requires ptr <= limit <= |buf| && Valid()
      modifies Footprint()
      ensures Valid() && fresh(Footprint() - old(Footprint())) && fresh(Cells() - old(Cells()))
      ensures next.Some? <==> NestedResult(OBJECT_INFO, old(Value()), buf[ptr..limit], depth).Some?
      ensures next.Some? ==>
                && next.value == ptr + ReadLen(buf[ptr..limit]).value.1
                && NestedResult(OBJECT_INFO, old(Value()), buf[ptr..limit], depth) == Some(Value())
    {
      hide Parse;
      var size := ReadSize(buf[ptr..limit]);
      if size.None? {
        return None;
      }
      var body, end := ptr + size.value.1, ptr + size.value.1 + size.value.0;
      if end > limit || depth == 0 {
        return None;
      }
      SubSlice(buf, ptr, limit, size.value.1, size.value.0);
      var stop := InternalParse(buf, body, end, depth - 1);
      next := if stop.AtLimit? then Some(end) else None;
    }

    // The cached sizes that the writing pass uses are exact.
    ghost predicate Sized()
      reads Footprint(), posInfo, if posInfo == null then {} else {posInfo.cachedSize}
    {
      posInfo != null ==> posInfo.cachedSize.size == Size(POSITION_INFO, posInfo.Value())
    }

    // Fields in the generated order: name, posInfo, objectId, health.
    method ByteSizeLong() returns (n: nat)
      requires Valid()
      modifies Cells()
      ensures Agree(n, Size(OBJECT_INFO, Value()))
      ensures n <= INT_MAX ==> cachedSize.size == n && Sized()
    {
      hide Shaped, ValidSchema, Size, Serialize, RecordsSize, Agree, ScalarSizeOf, StringSizeOf;
      StructSchemas();
      ghost var m := Value();
      Layout(OBJECT_INFO, m);
      FourFields(OBJECT_INFO, m);
      StringSizeAgrees(name);
      n := StringSizeOf(name);
      ghost var size := ValSize(String, Str(name));
      var p := PosInfoSize();
      AgreeSum(n, size, p, ValSize(Message(POSITION_INFO), m.vals[3]));
      n := n + p;
      size := size + ValSize(Message(POSITION_INFO), m.vals[3]);
      ScalarSizeAgrees(UInt64, objectId);
      ScalarSizeAgrees(UInt32, health);
      ghost var rest := ScalarSizeOf(objectId) + ScalarSizeOf(health) + RecordsSize(unknown);
      AgreeSum(n, size, rest, rest);
      n := n + ScalarSizeOf(objectId);
      n := n + ScalarSizeOf(health);
      n := n + RecordsSize(unknown);
      cachedSize.Set(n);
    }

    // The posInfo term: 1 and MessageSize of the sub-message.
    method PosInfoSize() returns (n: nat)
      requires Valid()
      modifies Cells()
      ensures Valid() && Value() == old(Value())
      ensures Agree(n, ValSize(Message(POSITION_INFO), Value().vals[3]))
      ensures n <= INT_MAX ==> Sized()
    {
      hide Shaped, ValidSchema, Size, EncodeVarint, VarintSize64, LengthDelimitedSizeOf;
      n := 0;
      if posInfo != null {
        var p := posInfo.ByteSizeLong();
        LengthDelimitedAgree(p, Size(POSITION_INFO, posInfo.Value()));
        n := 1 + LengthDelimitedSizeOf(p);
      }
    }

    method InternalSerialize(out: array<Byte>, target: nat) returns (t: nat)
      requires Sized() && target + Size(OBJECT_INFO, Value()) <= out.Length
      modifies out
      ensures t == target + Size(OBJECT_INFO, Value())
      ensures out[..t] == old(out[..target]) + Serialize(OBJECT_INFO, Value())
      ensures forall i :: t <= i < out.Length ==> out[i] == old(out[i])
    {
      hide Shaped, ValidSchema, WriteRecords, ValRecords, Serialize, Size, FieldsBytes, FieldsSize, ValSize;
      hide RecordsSize;
      StructSchemas();
      ghost var m := Value();
      Layout(OBJECT_INFO, m);
      FourFields(OBJECT_INFO, m);
      assert PosInfoBytes() == FieldBytes(OBJECT_INFO, m, 3);
      ghost var scalars := FieldBytes(OBJECT_INFO, m, 0) + FieldBytes(OBJECT_INFO, m, 1)
                           + FieldBytes(OBJECT_INFO, m, 2);
      t := WriteScalar(out, target, 1, UInt64, objectId, objectId);
      t := WriteString(out, t, 2, name);
      t := WriteScalar(out, t, 3, UInt32, health, health);
      assert Value() == m && out[..t] == old(out[..target]) + scalars;
      t := WritePosInfo(out, t);
      t := WriteRaw(out, t, WriteRecords(unknown));
      assert Value() == m;
    }

    // InternalWriteMessage with the cached size, not a fresh one.
    method WritePosInfo(out: array<Byte>, target: nat) returns (t: nat)
      requires Sized() && target + |PosInfoBytes()| <= out.Length
      modifies out
      ensures t == target + |PosInfoBytes()|
      ensures out[..t] == old(out[..target]) + PosInfoBytes()
      ensures forall i :: t <= i < out.Length ==> out[i] == old(out[i])
    {
      hide Shaped, ValidSchema, WriteRecords, ValRecords, Serialize, Size, EncodeVarint;
      StructSchemas();
      if posInfo == null {
        NoSubMessageBytes(4, POSITION_INFO);
        return target;
      }
      SubMessageBytes(4, POSITION_INFO, posInfo.Value());
      SizeExact(POSITION_INFO, posInfo.Value());
      t := WriteLengthDelim(out, target, 4, posInfo.cachedSize.size);
      t := posInfo.InternalSerialize(out, t);
    }

    ghost function PosInfoBytes(): Bytes
      reads Footprint()
    {
      WriteRecords(ValRecords(4, Message(POSITION_INFO), Value().vals[3]))
    }

    method MergeFrom(from: ObjectInfo)
      requires Valid() && from.Valid() && Footprint() !! from.Footprint()
      modifies Footprint()
      ensures Valid() && fresh(Footprint() - old(Footprint())) && fresh(Cells() - old(Cells()))
      ensures Value() == Merge(OBJECT_INFO, old(Value()), from.Value())
    {
      hide Shaped, Merge, MergeVal, Default;
      ghost var a, b := Value(), from.Value();
      if from.name != [] {
        name := from.name;
      }
      MergePosInfo(from);
      assert from.Value() == b;
      if from.objectId != 0 {
        objectId := from.objectId;
      }
      if from.health != 0 {
        health := from.health;
      }
      unknown := unknown + from.unknown;
      Merged(a, b, Value());
    }

    method MergePosInfo(from: ObjectInfo)
      requires Valid() && from.Valid() && Footprint() !! from.Footprint()
      modifies Footprint()
      ensures Valid() && fresh(Footprint() - old(Footprint())) && fresh(Cells() - old(Cells()))
      ensures unchanged(`objectId, `name, `health, `unknown)
      ensures Value().vals[3] == MergeVal(Message(POSITION_INFO), old(Value().vals[3]), from.Value().vals[3])
    {
      hide Shaped, Merge, Default;
      if from.posInfo != null {
        var p := MutablePosInfo();
        p.MergeFrom(from.posInfo);
      }
    }

    method CopyFrom(from: ObjectInfo)
      requires Valid() && from.Valid() && (from != this ==> Footprint() !! from.Footprint())
      modifies Footprint()
      ensures Valid() && fresh(Footprint() - old(Footprint())) && fresh(Cells() - old(Cells()))
      ensures Value() == old(from.Value())
    {
      if from == this {
        return;
      }
      Clear();
      MergeFrom(from);
      MergeDefaultLeft(OBJECT_INFO, from.Value());
    }
  }

  lemma {:induction false} Merged(a: Msg, b: Msg, m: Msg)
    requires Shaped(OBJECT_INFO, a) && Shaped(OBJECT_INFO, b)
    requires a.vals[0].Num? && a.vals[1].Str? && a.vals[2].Num? && b.vals[0].Num? && b.vals[1].Str? && b.vals[2].Num?
    requires m == Msg([if b.vals[0].n != 0 then b.vals[0] else a.vals[0],
                       if b.vals[1].s != [] then b.vals[1] else a.vals[1],
                       if b.vals[2].n != 0 then b.vals[2] else a.vals[2],
                       MergeVal(Message(POSITION_INFO), a.vals[3], b.vals[3])], a.unknown + b.unknown)
    ensures m == Merge(OBJECT_INFO, a, b)
  {
    hide Merge;
    MergeIs(OBJECT_INFO, a, b, m);
  }
}
