/**
  Protocol::RES_DESPAWN (Protocol/Protocol.pb.cc:3510-3635): one repeated
  varint, read packed or single and written packed, against the codec of
  RES_DESPAWN.
 */
module Despawns {
  import opened Wire
  import opened Records
  import opened Codec
  import opened CodecLaws
  import S = Schemas
  import opened Streams
  import opened MessageBytes

  class RES_DESPAWN {
    var ids: seq<U64>
    var unknown: seq<Record>
    const idsCachedByteSize: CachedSize
    const cachedSize: CachedSize

    constructor ()
      ensures Valid() && Value() == Default(S.RES_DESPAWN)
      ensures fresh(idsCachedByteSize) && fresh(cachedSize)
    {
      ids, unknown := [], [];
      idsCachedByteSize := new CachedSize();
      cachedSize := new CachedSize();
    }

    ghost predicate Valid() {
      idsCachedByteSize != cachedSize
    }

    ghost function Value(): (m: Msg)
      reads this
      ensures Shaped(S.RES_DESPAWN, m)
    {
      Msg([Ints(ids)], unknown)
    }

    // Which field goes out behind which tag.
    lemma {:induction false} Written()
      ensures Serialize(S.RES_DESPAWN, Value()) == PackedField(10, ids) + WriteRecords(unknown)
    {
      DespawnBytes(ids, unknown);
    }

    method Clear()
      modifies this
      ensures Value() == Default(S.RES_DESPAWN)
    {
      ids := [];
      unknown := [];
    }

    method InternalParse(buf: Bytes, start: nat, limit: nat, depth: nat) returns (end: ParseEnd)
      requires start <= limit <= |buf|
      modifies this
      ensures end.AtLimit? <==> Parse(S.RES_DESPAWN, old(Value()), buf[start..limit], depth).Some?
      ensures end.AtLimit? ==> Parse(S.RES_DESPAWN, old(Value()), buf[start..limit], depth) == Some(Value())
    {
      hide Shaped, ValidSchema, Parse, ParseNested, AfterTag, ReadField, ReadTag, ReadVarint64, ReadLen, DecodePacked;
      S.ScalarResponseSchemas();
      var ptr := start;
      while ptr < limit
        invariant start <= ptr <= limit
        invariant Parse(S.RES_DESPAWN, Value(), buf[ptr..limit], depth) ==
                  Parse(S.RES_DESPAWN, old(Value()), buf[start..limit], depth)
      {
        ghost var m := Value();
        ParseAt(S.RES_DESPAWN, m, buf, ptr, limit, depth);
        var t := ReadTag(buf[ptr..limit]);
        if t.None? {
          return Failed;
        }
        var tag := t.value.0;
        ptr := ptr + t.value.1;
        if tag / 8 == 1 && tag % 256 == 10 {
          LenCase(S.RES_DESPAWN, m, tag, buf, ptr, limit, depth, 0);
          var next := PackedUInt64Parser(buf, ptr, limit);
          if next.None? {
            return Failed;
          }
          assert Value().vals == m.vals[0 := Ints(ids)];
          ptr := next.value;
        } else if tag / 8 == 1 && tag % 256 == 8 {
          VarintCase(S.RES_DESPAWN, m, tag, buf, ptr, limit, depth, 0);
          var v := ReadVarint64(buf[ptr..limit]);
          if v.None? {
            return Failed;
          }
          ids := ids + [v.value.0];
          assert Value().vals == m.vals[0 := Ints(ids)];
          ptr := ptr + v.value.1;
        } else if tag == 0 || tag % 8 == 4 {
          return AtTag(tag);
        } else {
          UnknownCase(S.RES_DESPAWN, m, tag, buf, ptr, limit, depth);
          var f := ReadField(tag, buf[ptr..limit], depth);
          if f.None? {
            return Failed;
          }
          unknown := unknown + [f.value.0];
          ptr := ptr + f.value.1;
        }
      }
      ParseDone(S.RES_DESPAWN, Value(), buf, limit, depth);
      end := AtLimit;
    }

    // A length, then varints that must end exactly there.
    method PackedUInt64Parser(buf: Bytes, ptr: nat, limit: nat) returns (next: Option<nat>)
      requires ptr <= limit <= |buf|
      modifies `ids
      ensures next.Some? <==>
              ReadLen(buf[ptr..limit]).Some? && DecodePacked(ReadLen(buf[ptr..limit]).value.0).Some?
      ensures next.Some? ==>
                && next.value == ptr + ReadLen(buf[ptr..limit]).value.1
                && ids == old(ids) + DecodePacked(ReadLen(buf[ptr..limit]).value.0).value
    {
      hide DecodePacked, RawVarint;
      var size := ReadSize(buf[ptr..limit]);
      if size.None? {
        return None;
      }
      var p, end := ptr + size.value.1, ptr + size.value.1 + size.value.0;
      if end > limit {
        return None;
      }
      SubSlice(buf, ptr, limit, size.value.1, size.value.0);
      next := ReadPackedVarints(buf, p, end);
    }

    // The loop over a chunk: every varint in it is one more id.
    method ReadPackedVarints(buf: Bytes, ptr: nat, end: nat) returns (next: Option<nat>)
      requires ptr <= end <= |buf|
      modifies `ids
      ensures next.Some? <==> DecodePacked(buf[ptr..end]).Some?
      ensures next.Some? ==> next.value == end && ids == old(ids) + DecodePacked(buf[ptr..end]).value
    {
      hide DecodePacked, ReadVarint64, Onto;
      ghost var data := buf[ptr..end];
      ghost var read := [];
      var p := ptr;
      OntoStart(DecodePacked(data));
      while p < end
        invariant ptr <= p <= end
        invariant ids == old(ids) + read
        invariant DecodePacked(data) == Onto(read, DecodePacked(buf[p..end]))
      {
        ghost var rest := buf[p..end];
        var v := ReadVarint64(buf[p..end]);
        DecodePackedStep(rest, read);
        if v.None? {
          return None;
        }
        assert rest[v.value.1..] == buf[p + v.value.1..end];
        ids := ids + [v.value.0];
        read := read + [v.value.0];
        p := p + v.value.1;
      }
      assert buf[p..end] == [];
      OntoEnd(read);
      next := Some(end);
    }

    // The cached size that the writing pass uses is exact.
    ghost predicate Sized()
      reads this, idsCachedByteSize
    {
      idsCachedByteSize.size == PackedSize(ids)
    }

    method ByteSizeLong() returns (n: nat)
      requires Valid()
      modifies idsCachedByteSize, cachedSize
      ensures Agree(n, Size(S.RES_DESPAWN, Value()))
      ensures n <= INT_MAX ==> cachedSize.size == n && Sized()
    {
      hide Shaped, ValidSchema, Size, Serialize, RecordsSize, VarintSize;
      S.ScalarResponseSchemas();
      ghost var m := Value();
      Layout(S.RES_DESPAWN, m);
      OneField(S.RES_DESPAWN, m);
      n := 0;
      var dataSize := UInt64Size();
      if dataSize > 0 {
        n := n + 1 + VarintSize64(SignExtend(TruncateToI32(dataSize)));
        VarintSize64Exact(SignExtend(TruncateToI32(dataSize)));
      }
      idsCachedByteSize.Set(dataSize);
      n := n + dataSize;
      n := n + RecordsSize(unknown);
      cachedSize.Set(n);
    }

    // WireFormatLite::UInt64Size
    method UInt64Size() returns (n: nat)
      ensures n == PackedSize(ids)
    {
      n := 0;
      for i := 0 to |ids|
        invariant n == PackedSize(ids[..i])
      {
        VarintSize64Exact(ids[i]);
        n := n + VarintSize64(ids[i]);
        assert ids[..i + 1][..i] == ids[..i];
      }
      assert ids[..|ids|] == ids;
    }

    method InternalSerialize(out: array<Byte>, target: nat) returns (t: nat)
      requires Sized() && target + Size(S.RES_DESPAWN, Value()) <= out.Length
      modifies out
      ensures t == target + Size(S.RES_DESPAWN, Value())
      ensures out[..t] == old(out[..target]) + Serialize(S.RES_DESPAWN, Value())
      ensures forall i :: t <= i < out.Length ==> out[i] == old(out[i])
    {
      hide Shaped, ValidSchema, Size, Serialize, WriteRecords, FieldsBytes, FieldsSize, ValSize, RecordsSize;
      hide ValRecords;
      hide EncodePacked, PackedSize, Tag, EncodeVarint;
      S.ScalarResponseSchemas();
      ghost var m := Value();
      Layout(S.RES_DESPAWN, m);
      OneField(S.RES_DESPAWN, m);
      IdsBytes(ids);
      var byteSize := idsCachedByteSize.size;
      t := target;
      if byteSize > 0 {
        t := WriteUInt64Packed(out, t, byteSize);
      }
      t := WriteRaw(out, t, WriteRecords(unknown));
    }

    // Tag, the given length, then every value (a do-while in the library).
    method WriteUInt64Packed(out: array<Byte>, target: nat, byteSize: nat) returns (t: nat)
      requires ids != []
      requires target + |Tag(1, 2) + EncodeVarint(byteSize) + EncodePacked(ids)| <= out.Length
      modifies out
      ensures t == target + |Tag(1, 2) + EncodeVarint(byteSize) + EncodePacked(ids)|
      ensures out[..t] == old(out[..target]) + (Tag(1, 2) + EncodeVarint(byteSize) + EncodePacked(ids))
      ensures forall i :: t <= i < out.Length ==> out[i] == old(out[i])
    {
      hide EncodeVarint, EncodePacked, Tag;
      ghost var before := old(out[..target]);
      t := WriteLengthDelim(out, target, 1, byteSize);
      t := WriteValues(out, t);
      assert before + (Tag(1, 2) + EncodeVarint(byteSize)) + EncodePacked(ids)
          == before + (Tag(1, 2) + EncodeVarint(byteSize) + EncodePacked(ids));
    }

    method WriteValues(out: array<Byte>, target: nat) returns (t: nat)
      requires target + |EncodePacked(ids)| <= out.Length
      modifies out
      ensures t == target + |EncodePacked(ids)|
      ensures out[..t] == old(out[..target]) + EncodePacked(ids)
      ensures forall i :: t <= i < out.Length ==> out[i] == old(out[i])
    {
      hide EncodeVarint, EncodePacked;
      ghost var goal := old(out[..target]) + EncodePacked(ids);
      t := target;
      assert ids[0..] == ids;
      for i := 0 to |ids|
        invariant t + |EncodePacked(ids[i..])| == |goal|
        invariant out[..t] + EncodePacked(ids[i..]) == goal
        invariant forall j :: t <= j < out.Length ==> out[j] == old(out[j])
      {
        ghost var before, rest := out[..t], EncodePacked(ids[i + 1..]);
        PackedFrom(ids, i);
        t := WriteVarint(out, t, ids[i]);
        assert out[..t] + rest == before + (EncodeVarint(ids[i]) + rest);
      }
      PackedFrom(ids, |ids|);
    }

    method MergeFrom(from: RES_DESPAWN)
      requires from != this
      modifies this
      ensures Value() == Merge(S.RES_DESPAWN, old(Value()), from.Value())
    {
      ids := ids + from.ids;
      unknown := unknown + from.unknown;
      assert Value().vals == Merge(S.RES_DESPAWN, old(Value()), from.Value()).vals;
    }

    method CopyFrom(from: RES_DESPAWN)
      modifies this
      ensures Value() == old(from.Value())
    {
      if from == this {
        return;
      }
      Clear();
      MergeFrom(from);
      MergeDefaultLeft(S.RES_DESPAWN, from.Value());
    }
  }

  // The values already read, in front of those still to come.
  function Onto(read: seq<U64>, rest: Option<seq<U64>>): Option<seq<U64>> {
    match rest
    case None => None
    case Some(vs) => Some(read + vs)
  }

  lemma {:induction false} OntoStart(rest: Option<seq<U64>>)
    ensures Onto([], rest) == rest
  {
    assert rest.Some? ==> [] + rest.value == rest.value;
  }

  lemma {:induction false} OntoEnd(read: seq<U64>)
    ensures Onto(read, DecodePacked([])) == Some(read)
  {
    assert read + [] == read;
  }

  lemma {:induction false} DecodePackedStep(b: Bytes, read: seq<U64>)
    requires b != []
    ensures var r := ReadVarint64(b);
            Onto(read, DecodePacked(b)) ==
            if r.None? then None else Onto(read + [r.value.0], DecodePacked(b[r.value.1..]))
  {
    hide ReadVarint64;
    if ReadVarint64(b).Some? {
      var (v, k) := ReadVarint64(b).value;
      if DecodePacked(b[k..]).Some? {
        assert read + ([v] + DecodePacked(b[k..]).value) == read + [v] + DecodePacked(b[k..]).value;
      }
    }
  }

  lemma {:induction false} PackedFrom(ids: seq<U64>, i: nat)
    requires i <= |ids|
    ensures EncodePacked(ids[i..]) ==
            if i == |ids| then [] else EncodeVarint(ids[i]) + EncodePacked(ids[i + 1..])
  {
    if i < |ids| {
      assert ids[i..][1..] == ids[i + 1..];
    }
  }

  lemma {:induction false} IdsBytes(ids: seq<U64>)
    ensures PackedSize(ids) > 0 <==> ids != []
    ensures WriteRecords(ValRecords(1, Packed, Ints(ids))) ==
            if ids == [] then [] else Tag(1, 2) + EncodeVarint(PackedSize(ids)) + EncodePacked(ids)
  {
    if ids != [] {
      var r := Len(1, EncodePacked(ids));
      WriteOne(r);
      PackedSizeExact(ids);
      assert Tag(1, 2) + EncodeVarint(PackedSize(ids)) + EncodePacked(ids)
          == Tag(1, 2) + (EncodeVarint(PackedSize(ids)) + EncodePacked(ids));
    }
  }
}
