/**
  Protocol::REQ_RESPAWN (Protocol/Protocol.pb.cc:2877-3017): a varint and a
  string, each method against the codec of REQ_RESPAWN.
 */
module Respawns {
  import opened Wire
  import opened Records
  import opened Codec
  import opened CodecLaws
  import S = Schemas
  import opened Streams
  import opened MessageBytes

  class REQ_RESPAWN {
    var objectId: U64
    var name: Bytes
    var unknown: seq<Record>
    const cachedSize: CachedSize

    constructor ()
      ensures Value() == Default(S.REQ_RESPAWN) && fresh(cachedSize)
    {
      objectId, name, unknown := 0, [], [];
      cachedSize := new CachedSize();
    }

    ghost function Value(): (m: Msg)
      reads this
      ensures Shaped(S.REQ_RESPAWN, m)
    {
      Msg([Num(objectId), Str(name)], unknown)
    }

    // Which field goes out behind which tag.
    lemma {:induction false} Written()
      ensures Serialize(S.REQ_RESPAWN, Value()) ==
              VarintField(8, objectId) + TextField(18, name) + WriteRecords(unknown)
    {
      RespawnBytes(objectId, name, unknown);
    }

    method Clear()
      modifies this
      ensures Value() == Default(S.REQ_RESPAWN)
    {
      name := [];
      objectId := 0;
      unknown := [];
    }

    method InternalParse(buf: Bytes, start: nat, limit: nat, depth: nat) returns (end: ParseEnd)
      requires start <= limit <= |buf|
      modifies this
      ensures end.AtLimit? <==> Parse(S.REQ_RESPAWN, old(Value()), buf[start..limit], depth).Some?
      ensures end.AtLimit? ==> Parse(S.REQ_RESPAWN, old(Value()), buf[start..limit], depth) == Some(Value())
    {
      hide Shaped, ValidSchema, Parse, ParseNested, AfterTag, ReadField, ReadTag, ReadVarint64, ReadLen, ValidUtf8;
      S.RequestSchemas();
      var ptr := start;
      while ptr < limit
        invariant start <= ptr <= limit
        invariant Parse(S.REQ_RESPAWN, Value(), buf[ptr..limit], depth) ==
                  Parse(S.REQ_RESPAWN, old(Value()), buf[start..limit], depth)
      {
        ghost var m := Value();
        ParseAt(S.REQ_RESPAWN, m, buf, ptr, limit, depth);
        var t := ReadTag(buf[ptr..limit]);
        if t.None? {
          return Failed;
        }
        var tag := t.value.0;
        ptr := ptr + t.value.1;
        if tag / 8 == 1 && tag % 256 == 8 {
          VarintCase(S.REQ_RESPAWN, m, tag, buf, ptr, limit, depth, 0);
          var v := ReadVarint64(buf[ptr..limit]);
          if v.None? {
            return Failed;
          }
          objectId := v.value.0;
          assert Value().vals == m.vals[0 := Num(objectId)];
          ptr := ptr + v.value.1;
        } else if tag / 8 == 2 && tag % 256 == 18 {
          LenCase(S.REQ_RESPAWN, m, tag, buf, ptr, limit, depth, 1);
          var s := ReadLen(buf[ptr..limit]);
          if s.None? {
            return Failed;
          }
          name := s.value.0;
          if !ValidUtf8(name) {
            return Failed;
          }
          assert Value().vals == m.vals[1 := Str(name)];
          ptr := ptr + s.value.1;
        } else if tag == 0 || tag % 8 == 4 {
          return AtTag(tag);
        } else {
          UnknownCase(S.REQ_RESPAWN, m, tag, buf, ptr, limit, depth);
          var f := ReadField(tag, buf[ptr..limit], depth);
          if f.None? {
            return Failed;
          }
          unknown := unknown + [f.value.0];
          ptr := ptr + f.value.1;
        }
      }
      ParseDone(S.REQ_RESPAWN, Value(), buf, limit, depth);
      end := AtLimit;
    }

    method ByteSizeLong() returns (n: nat)
      modifies cachedSize
      ensures Agree(n, Size(S.REQ_RESPAWN, Value()))
      ensures n <= INT_MAX ==> cachedSize.size == n
    {
      hide Shaped, ValidSchema, Size, Serialize, RecordsSize, Agree, ScalarSizeOf, StringSizeOf;
      S.RequestSchemas();
      ghost var m := Value();
      Layout(S.REQ_RESPAWN, m);
      TwoFields(S.REQ_RESPAWN, m);
      StringSizeAgrees(name);
      ScalarSizeAgrees(UInt64, objectId);
      n := StringSizeOf(name);
      ghost var rest := ScalarSizeOf(objectId) + RecordsSize(unknown);
      AgreeSum(n, ValSize(String, Str(name)), rest, rest);
      n := n + ScalarSizeOf(objectId);
      n := n + RecordsSize(unknown);
      cachedSize.Set(n);
    }

    method InternalSerialize(out: array<Byte>, target: nat) returns (t: nat)
      requires target + Size(S.REQ_RESPAWN, Value()) <= out.Length
      modifies out
      ensures t == target + Size(S.REQ_RESPAWN, Value())
      ensures out[..t] == old(out[..target]) + Serialize(S.REQ_RESPAWN, Value())
      ensures forall i :: t <= i < out.Length ==> out[i] == old(out[i])
    {
      hide Shaped, ValidSchema, WriteRecords, ValRecords, Serialize, Size;
      S.RequestSchemas();
      Layout(S.REQ_RESPAWN, Value());
      TwoFields(S.REQ_RESPAWN, Value());
      t := WriteScalar(out, target, 1, UInt64, objectId, objectId);
      t := WriteString(out, t, 2, name);
      t := WriteRaw(out, t, WriteRecords(unknown));
    }

    method MergeFrom(from: REQ_RESPAWN)
      requires from != this
      modifies this
      ensures Value() == Merge(S.REQ_RESPAWN, old(Value()), from.Value())
    {
      if from.name != [] {
        name := from.name;
      }
      if from.objectId != 0 {
        objectId := from.objectId;
      }
      unknown := unknown + from.unknown;
      assert Value().vals == Merge(S.REQ_RESPAWN, old(Value()), from.Value()).vals;
    }

    method CopyFrom(from: REQ_RESPAWN)
      modifies this
      ensures Value() == old(from.Value())
    {
      if from == this {
        return;
      }
      Clear();
      MergeFrom(from);
      MergeDefaultLeft(S.REQ_RESPAWN, from.Value());
    }
  }
}
