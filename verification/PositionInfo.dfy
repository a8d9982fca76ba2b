/**
  Protocol::PositionInfo (Protocol/Struct.pb.cc:492-683): two floats and an
  enum, each method against the codec of POSITION_INFO.
 */
module PositionInfos {
  import opened Wire
  import opened Records
  import opened Codec
  import opened CodecLaws
  import opened Schemas
  import opened Streams
  import opened MessageBytes

  class PositionInfo {
    var posX: U32    // the bits of the float
    var posY: U32
    var moveDir: I32
    var unknown: seq<Record>
    const cachedSize: CachedSize

    constructor ()
      ensures Value() == Default(POSITION_INFO)
      ensures fresh(cachedSize)
    {
      posX, posY, moveDir, unknown := 0, 0, 0, [];
      cachedSize := new CachedSize();
    }

    ghost function Value(): (m: Msg)
      reads this
      ensures Shaped(POSITION_INFO, m)
    {
      Msg([Num(posX), Num(posY), Num(moveDir)], unknown)
    }

    // Which field goes out behind which tag.
    lemma {:induction false} Written()
      ensures Serialize(POSITION_INFO, Value()) ==
              FixedField(13, posX) + FixedField(21, posY)
              + VarintField(24, if moveDir < 0 then moveDir + 18446744073709551616 else moveDir)
              + WriteRecords(unknown)
    {
      PositionBytes(posX, posY, moveDir, unknown);
    }

    method Clear()
      modifies this
      ensures Value() == Default(POSITION_INFO)
    {
      posX, posY, moveDir := 0, 0, 0;
      unknown := [];
    }

    method InternalParse(buf: Bytes, start: nat, limit: nat, depth: nat) returns (end: ParseEnd)
      requires start <= limit <= |buf|
      modifies this
      ensures end.AtLimit? <==> Parse(POSITION_INFO, old(Value()), buf[start..limit], depth).Some?
      ensures end.AtLimit? ==> Parse(POSITION_INFO, old(Value()), buf[start..limit], depth) == Some(Value())
    {
      hide Shaped, ValidSchema, Parse, ParseNested, AfterTag, ReadField, ReadTag, ReadVarint64, FromLE32;
      StructSchemas();
      var ptr := start;
      while ptr < limit
        invariant start <= ptr <= limit
        invariant Parse(POSITION_INFO, Value(), buf[ptr..limit], depth) ==
                  Parse(POSITION_INFO, old(Value()), buf[start..limit], depth)
      {
        ghost var m := Value();
        ParseAt(POSITION_INFO, m, buf, ptr, limit, depth);
        var t := ReadTag(buf[ptr..limit]);
        if t.None? {
          return Failed;
        }
        var tag := t.value.0;
        ptr := ptr + t.value.1;
        if tag / 8 == 1 && tag % 256 == 13 {
          Fixed32Case(POSITION_INFO, m, tag, buf, ptr, limit, depth, 0);
          if limit - ptr < 4 {
            return Failed;
          }
          posX := FromLE32(buf[ptr..ptr + 4]);
          assert Value().vals == m.vals[0 := Num(posX)];
          ptr := ptr + 4;
        } else if tag / 8 == 2 && tag % 256 == 21 {
          Fixed32Case(POSITION_INFO, m, tag, buf, ptr, limit, depth, 1);
          if limit - ptr < 4 {
            return Failed;
          }
          posY := FromLE32(buf[ptr..ptr + 4]);
          assert Value().vals == m.vals[1 := Num(posY)];
          ptr := ptr + 4;
        } else if tag / 8 == 3 && tag % 256 == 24 {
          VarintCase(POSITION_INFO, m, tag, buf, ptr, limit, depth, 2);
          var v := ReadVarint64(buf[ptr..limit]);
          if v.None? {
            return Failed;
          }
          moveDir := TruncateToI32(v.value.0);
          assert Value().vals == m.vals[2 := Num(moveDir)];
          ptr := ptr + v.value.1;
        } else if tag == 0 || tag % 8 == 4 {
          return AtTag(tag);
        } else {
          UnknownCase(POSITION_INFO, m, tag, buf, ptr, limit, depth);
          var f := ReadField(tag, buf[ptr..limit], depth);
          if f.None? {
            return Failed;
          }
          unknown := unknown + [f.value.0];
          ptr := ptr + f.value.1;
        }
      }
      ParseDone(POSITION_INFO, Value(), buf, limit, depth);
      end := AtLimit;
    }

    // ParseContext::ParseMessage on this object: a length, then the message
    // inside that limit.  Gives the position behind it.
    method ParseMessage(buf: Bytes, ptr: nat, limit: nat, depth: nat) returns (next: Option<nat>)
      requires ptr <= limit <= |buf|
      modifies this
      ensures next.Some? <==> NestedResult(POSITION_INFO, old(Value()), buf[ptr..limit], depth).Some?
      ensures next.Some? ==>
                && next.value == ptr + ReadLen(buf[ptr..limit]).value.1
                && NestedResult(POSITION_INFO, old(Value()), buf[ptr..limit], depth) == Some(Value())
    {
      hide Parse;
      var size := ReadSize(buf[ptr..limit]);
      if size.None? {
        return None;
      }
      var body, end := ptr + size.value.1, ptr + size.value.1 + size.value.0;
      if end > limit || depth == 0 {
        return None;
      }
      SubSlice(buf, ptr, limit, size.value.1, size.value.0);
      var stop := InternalParse(buf, body, end, depth - 1);
      next := if stop.AtLimit? then Some(end) else None;
    }

    method ByteSizeLong() returns (n: nat)
      modifies cachedSize
      ensures n == Size(POSITION_INFO, Value())
      ensures n <= INT_MAX ==> cachedSize.size == n
    {
      hide EncodeVarint, VarintSize, VarintSize64, ValidSchema, Size, FieldsBytes, RecordsSize;
      StructSchemas();
      Layout(POSITION_INFO, Value());
      ThreeFields(POSITION_INFO, Value());
      n := 0;
      if posX != 0 {
        n := n + 1 + 4;
      }
      if posY != 0 {
        n := n + 1 + 4;
      }
      if moveDir != 0 {
        VarintSize64Exact(SignExtend(moveDir));
        n := n + 1 + VarintSize64(SignExtend(moveDir));
      }
      n := n + RecordsSize(unknown);
      cachedSize.Set(n);
    }

    method InternalSerialize(out: array<Byte>, target: nat) returns (t: nat)
      requires target + Size(POSITION_INFO, Value()) <= out.Length
      modifies out
      ensures t == target + Size(POSITION_INFO, Value())
      ensures out[..t] == old(out[..target]) + Serialize(POSITION_INFO, Value())
      ensures forall i :: t <= i < out.Length ==> out[i] == old(out[i])
    {
      hide Shaped, ValidSchema, WriteRecords, ValRecords, Serialize, Size;
      StructSchemas();
      Layout(POSITION_INFO, Value());
      ThreeFields(POSITION_INFO, Value());
      t := WriteFloat(out, target, 1, posX);
      t := WriteFloat(out, t, 2, posY);
      t := WriteScalar(out, t, 3, Enum, moveDir, SignExtend(moveDir));
      t := WriteRaw(out, t, WriteRecords(unknown));
    }

    method MergeFrom(from: PositionInfo)
      requires from != this
      modifies this
      ensures Value() == Merge(POSITION_INFO, old(Value()), from.Value())
    {
      if from.posX != 0 {
        posX := from.posX;
      }
      if from.posY != 0 {
        posY := from.posY;
      }
      if from.moveDir != 0 {
        moveDir := from.moveDir;
      }
      unknown := unknown + from.unknown;
      assert Value().vals == Merge(POSITION_INFO, old(Value()), from.Value()).vals;
    }

    method CopyFrom(from: PositionInfo)
      modifies this
      ensures Value() == old(from.Value())
    {
      if from == this {
        return;
      }
      Clear();
      MergeFrom(from);
      MergeDefaultLeft(POSITION_INFO, from.Value());
    }
  }
}
