/**
  What the generated message classes share: the cached size cell, the places
  where a parse loop can stop, and writing into an output array.
 */
module Streams {
  import opened Wire
  import opened Records
  import opened Codec
  import opened CodecLaws

  // _cached_size_: the size pass stores here what the writing pass reads.
  class CachedSize {
    var size: I32

    constructor ()
      ensures size == 0
    {
      size := 0;
    }

    // ToCachedSize keeps the low 32 bits.
    method Set(n: nat)
      modifies this
      ensures size == TruncateToI32(n)
      ensures n <= INT_MAX ==> size == n
    {
      size := TruncateToI32(n);
    }
  }

  // How _InternalParse ends: at the limit it was given, at a zero or
  // end-group tag, or with a null pointer.  Only the first is accepted.
  datatype ParseEnd = AtLimit | AtTag(tag: U32) | Failed

  // A bool as the number the codec holds.
  function BoolNum(b: bool): int {
    if b then 1 else 0
  }

  // -------------------------------------------------------------- input side

  // The rest of a parse when a tag has just been read.
  function AfterTag(s: Schema, m: Msg, tag: U32, b: Bytes, depth: nat): (r: Option<Msg>)
    requires Shaped(s, m)
    ensures r.Some? ==> Shaped(s, r.value)
  {
    match ReadField(tag, b, depth)
    case None => None
    case Some((f, n)) =>
      match Apply(s, m, f, depth)
      case None => None
      case Some(m') => Parse(s, m', b[n..], depth)
  }

  lemma {:induction false} ParseAt(s: Schema, m: Msg, buf: Bytes, ptr: nat, limit: nat, depth: nat)
    requires Shaped(s, m) && ptr < limit <= |buf|
    ensures Parse(s, m, buf[ptr..limit], depth) ==
            match ReadTag(buf[ptr..limit])
            case None => None
            case Some((tag, k)) =>
              if tag == 0 || tag % 8 == 4 then None
              else AfterTag(s, m, tag, buf[ptr + k..limit], depth)
  {
    hide ReadField, ReadTag, Apply;
    var b := buf[ptr..limit];
    if ReadTag(b).Some? {
      var (tag, k) := ReadTag(b).value;
      var c := buf[ptr + k..limit];
      assert b[k..] == c;
      if tag != 0 && tag % 8 != 4 && ReadField(tag, c, depth).Some? {
        var (f, n) := ReadField(tag, c, depth).value;
        assert ReadRecord(b, depth) == Some((f, k + n));
        ReadRecordsStep(b, f, k + n, depth);
        assert b[k + n..] == c[n..];
      }
    }
  }

  // ExpectTag: a byte below 128 is a whole tag.
  lemma {:induction false} ExpectedTag(s: Schema, m: Msg, buf: Bytes, ptr: nat, limit: nat, depth: nat, tag: nat)
    requires Shaped(s, m) && ptr < limit <= |buf| && buf[ptr] == tag < 128 && tag != 0 && tag % 8 != 4
    ensures Parse(s, m, buf[ptr..limit], depth) == AfterTag(s, m, tag, buf[ptr + 1..limit], depth)
  {
    hide AfterTag, Parse;
    ParseAt(s, m, buf, ptr, limit, depth);
  }

  lemma {:induction false} AfterTagAt(s: Schema, m: Msg, tag: U32, buf: Bytes, ptr: nat, limit: nat, depth: nat,
      f: Record, n: nat)
    requires Shaped(s, m) && ptr <= limit <= |buf|
    requires ReadField(tag, buf[ptr..limit], depth) == Some((f, n))
    ensures n <= limit - ptr
    ensures AfterTag(s, m, tag, buf[ptr..limit], depth) ==
            match Apply(s, m, f, depth)
            case None => None
            case Some(m') => Parse(s, m', buf[ptr + n..limit], depth)
  {
    hide ReadField, Apply, Parse;
    assert buf[ptr..limit][n..] == buf[ptr + n..limit];
  }

  lemma {:induction false} SubSlice(buf: Bytes, ptr: nat, limit: nat, k: nat, n: nat)
    requires ptr + k + n <= limit <= |buf|
    ensures buf[ptr..limit][k..k + n] == buf[ptr + k..ptr + k + n]
  {
    var a, b := buf[ptr..limit][k..k + n], buf[ptr + k..ptr + k + n];
    assert forall i :: 0 <= i < n ==> a[i] == buf[ptr..limit][k + i] == b[i];
  }

  lemma {:induction false} ParseDone(s: Schema, m: Msg, buf: Bytes, ptr: nat, depth: nat)
    requires Shaped(s, m) && ptr <= |buf|
    ensures Parse(s, m, buf[ptr..ptr], depth) == Some(m)
  {
  }

  // Storing v in field i and going on at ptr.
  function Continue(s: Schema, m: Msg, i: nat, v: Option<Value>, buf: Bytes, ptr: nat, limit: nat,
      depth: nat): Option<Msg>
    requires Shaped(s, m) && i < |s.fields| && ptr <= limit <= |buf|
    requires v.Some? ==> ShapedVal(s.fields[i].kind, v.value)
  {
    match v
    case None => None
    case Some(x) => Parse(s, m.(vals := m.vals[i := x]), buf[ptr..limit], depth)
  }

  // The rest of a parse from a payload of each wire type for field i.
  function AfterVarint(s: Schema, m: Msg, i: nat, buf: Bytes, ptr: nat, limit: nat, depth: nat): Option<Msg>
    requires Shaped(s, m) && i < |s.fields| && ptr <= limit <= |buf|
    requires s.fields[i].kind in {UInt64, UInt32, Bool, Enum, Packed}
  {
    var r := ReadVarint64(buf[ptr..limit]);
    if r.None? then None
    else Continue(s, m, i, ApplyVal(s.fields[i].kind, m.vals[i], Varint(s.fields[i].num, r.value.0), depth),
                  buf, ptr + r.value.1, limit, depth)
  }

  function AfterFixed32(s: Schema, m: Msg, i: nat, buf: Bytes, ptr: nat, limit: nat, depth: nat): Option<Msg>
    requires Shaped(s, m) && i < |s.fields| && ptr <= limit <= |buf| && s.fields[i].kind.Float?
  {
    if limit - ptr < 4 then None
    else Continue(s, m, i, Some(Num(FromLE32(buf[ptr..ptr + 4]))), buf, ptr + 4, limit, depth)
  }

  function AfterLen(s: Schema, m: Msg, i: nat, buf: Bytes, ptr: nat, limit: nat, depth: nat): Option<Msg>
    requires Shaped(s, m) && i < |s.fields| && ptr <= limit <= |buf|
    requires WireMatches(s.fields[i].kind, Len(s.fields[i].num, []))
  {
    var r := ReadLen(buf[ptr..limit]);
    if r.None? then None
    else Continue(s, m, i, ApplyVal(s.fields[i].kind, m.vals[i], Len(s.fields[i].num, r.value.0), depth),
                  buf, ptr + r.value.1, limit, depth)
  }

  // A length-delimited sub-message parsed into m.
  function NestedResult(s: Schema, m: Msg, b: Bytes, depth: nat): (r: Option<Msg>)
    requires Shaped(s, m)
    ensures r.Some? ==> Shaped(s, r.value)
  {
    var l := ReadLen(b);
    if l.None? then None else ParseNested(s, m, l.value.0, depth)
  }

  function AfterUnknown(s: Schema, m: Msg, tag: U32, buf: Bytes, ptr: nat, limit: nat, depth: nat): Option<Msg>
    requires Shaped(s, m) && ptr <= limit <= |buf|
  {
    var r := ReadField(tag, buf[ptr..limit], depth);
    if r.None? then None
    else Parse(s, m.(unknown := m.unknown + [r.value.0]), buf[ptr + r.value.1..limit], depth)
  }

  lemma {:induction false} KnownField(s: Schema, m: Msg, tag: U32, buf: Bytes, ptr: nat, limit: nat, depth: nat,
      i: nat, f: Record, n: nat)
    requires ValidSchema(s) && Shaped(s, m) && ptr <= limit <= |buf| && i < |s.fields|
    requires ReadField(tag, buf[ptr..limit], depth) == Some((f, n))
    requires f.num == s.fields[i].num && WireMatches(s.fields[i].kind, f)
    ensures ptr + n <= limit
    ensures AfterTag(s, m, tag, buf[ptr..limit], depth) ==
            Continue(s, m, i, ApplyVal(s.fields[i].kind, m.vals[i], f, depth), buf, ptr + n, limit, depth)
  {
    hide ReadField, Parse, ApplyVal;
    TargetOf(s, i, f);
    AfterTagAt(s, m, tag, buf, ptr, limit, depth, f, n);
  }

  // The cases of a generated switch: the tag that matches field i.
  lemma {:induction false} VarintCase(s: Schema, m: Msg, tag: U32, buf: Bytes, ptr: nat, limit: nat, depth: nat, i: nat)
    requires ValidSchema(s) && Shaped(s, m) && ptr <= limit <= |buf| && i < |s.fields|
    requires tag == 8 * s.fields[i].num && s.fields[i].kind in {UInt64, UInt32, Bool, Enum, Packed}
    ensures AfterTag(s, m, tag, buf[ptr..limit], depth) == AfterVarint(s, m, i, buf, ptr, limit, depth)
  {
    hide ReadVarint64, Parse, Apply, ApplyVal;
    assert tag / 8 == s.fields[i].num && tag % 8 == 0;
    match ReadVarint64(buf[ptr..limit]) {
      case None =>
      case Some((v, n)) => KnownField(s, m, tag, buf, ptr, limit, depth, i, Varint(s.fields[i].num, v), n);
    }
  }

  lemma {:induction false} Fixed32Case(s: Schema, m: Msg, tag: U32, buf: Bytes, ptr: nat, limit: nat, depth: nat,
      i: nat)
    requires ValidSchema(s) && Shaped(s, m) && ptr <= limit <= |buf| && i < |s.fields|
    requires tag == 8 * s.fields[i].num + 5 && s.fields[i].kind.Float?
    ensures AfterTag(s, m, tag, buf[ptr..limit], depth) == AfterFixed32(s, m, i, buf, ptr, limit, depth)
  {
    hide Parse, Apply, FromLE32;
    assert tag / 8 == s.fields[i].num && tag % 8 == 5;
    if limit - ptr >= 4 {
      assert buf[ptr..limit][..4] == buf[ptr..ptr + 4];
      KnownField(s, m, tag, buf, ptr, limit, depth, i, Fixed32(s.fields[i].num, FromLE32(buf[ptr..ptr + 4])), 4);
    }
  }

  lemma {:induction false} LenCase(s: Schema, m: Msg, tag: U32, buf: Bytes, ptr: nat, limit: nat, depth: nat, i: nat)
    requires ValidSchema(s) && Shaped(s, m) && ptr <= limit <= |buf| && i < |s.fields|
    requires tag == 8 * s.fields[i].num + 2
    requires WireMatches(s.fields[i].kind, Len(s.fields[i].num, []))
    ensures AfterTag(s, m, tag, buf[ptr..limit], depth) == AfterLen(s, m, i, buf, ptr, limit, depth)
  {
    hide ReadLen, Parse, Apply, ApplyVal;
    assert tag / 8 == s.fields[i].num && tag % 8 == 2;
    match ReadLen(buf[ptr..limit]) {
      case None =>
      case Some((data, n)) => KnownField(s, m, tag, buf, ptr, limit, depth, i, Len(s.fields[i].num, data), n);
    }
  }

  // handle_unusual: the field is kept as it is.  A field number the schema
  // does not know, or one of its numbers with another wire type.
  lemma {:induction false} UnknownCase(s: Schema, m: Msg, tag: U32, buf: Bytes, ptr: nat, limit: nat, depth: nat)
    requires ValidSchema(s) && Shaped(s, m) && ptr <= limit <= |buf|
    requires forall i :: 0 <= i < |s.fields| && tag / 8 == s.fields[i].num ==> !TagMatches(s.fields[i].kind, tag)
    ensures AfterTag(s, m, tag, buf[ptr..limit], depth) == AfterUnknown(s, m, tag, buf, ptr, limit, depth)
  {
    hide Parse;
    if ReadField(tag, buf[ptr..limit], depth).Some? {
      var (f, n) := ReadField(tag, buf[ptr..limit], depth).value;
      ReadFieldWireType(tag, buf[ptr..limit], depth);
      assert Target(s, f).None?;
      AfterTagAt(s, m, tag, buf, ptr, limit, depth, f, n);
    }
  }

  predicate TagMatches(k: Kind, tag: U32) {
    match k
    case Float => tag % 8 == 5
    case String => tag % 8 == 2
    case Message(_) => tag % 8 == 2
    case Repeated(_) => tag % 8 == 2
    case Packed => tag % 8 == 2 || tag % 8 == 0
    case _ => tag % 8 == 0
  }

  lemma {:induction false} ReadFieldWireType(tag: U32, b: Bytes, depth: nat)
    requires ReadField(tag, b, depth).Some?
    ensures WireType(ReadField(tag, b, depth).value.0) == tag % 8
  {
    hide ReadGroup, ReadLen, ReadVarint64, FromLE64, FromLE32;
  }

  // ------------------------------------------------------------- output side

  // UnsafeVarint: seven bits a byte, low bits first.
  method WriteVarint(out: array<Byte>, target: nat, v: nat) returns (t: nat)
    requires target + |EncodeVarint(v)| <= out.Length
    modifies out
    ensures t == target + |EncodeVarint(v)|
    ensures out[..t] == old(out[..target]) + EncodeVarint(v)
    ensures forall i :: t <= i < out.Length ==> out[i] == old(out[i])
  {
    var n := v;
    t := target;
    while n >= 128
      invariant target <= t && t + |EncodeVarint(n)| == target + |EncodeVarint(v)|
      invariant out[..t] + EncodeVarint(n) == old(out[..target]) + EncodeVarint(v)
      invariant forall i :: t <= i < out.Length ==> out[i] == old(out[i])
    {
      ghost var before := out[..t];
      out[t] := 128 + n % 128;
      assert out[..t + 1] == before + [128 + n % 128];
      t := t + 1;
      assert before + EncodeVarint(n) == before + [128 + n % 128] + EncodeVarint(n / 128);
      n := n / 128;
    }
    ghost var before := out[..t];
    out[t] := n;
    assert out[..t + 1] == before + [n];
    t := t + 1;
  }

  method WriteRaw(out: array<Byte>, target: nat, data: Bytes) returns (t: nat)
    requires target + |data| <= out.Length
    modifies out
    ensures t == target + |data|
    ensures out[..t] == old(out[..target]) + data
    ensures forall i :: t <= i < out.Length ==> out[i] == old(out[i])
  {
    var i := 0;
    while i < |data|
      invariant i <= |data|
      invariant out[..target + i] == old(out[..target]) + data[..i]
      invariant forall j :: target + i <= j < out.Length ==> out[j] == old(out[j])
    {
      ghost var before := out[..target + i];
      out[target + i] := data[i];
      assert out[..target + i + 1] == before + [data[i]];
      assert data[..i + 1] == data[..i] + [data[i]];
      i := i + 1;
    }
    t := target + |data|;
    assert data[..|data|] == data;
  }

  // WriteUInt64ToArray, WriteUInt32ToArray, WriteBoolToArray and
  // WriteEnumToArray: a tag and a varint.
  method WriteVarintField(out: array<Byte>, target: nat, num: FieldNum, v: U64) returns (t: nat)
    requires target + |WriteRecord(Varint(num, v))| <= out.Length
    modifies out
    ensures t == target + |WriteRecord(Varint(num, v))|
    ensures out[..t] == old(out[..target]) + WriteRecord(Varint(num, v))
    ensures forall i :: t <= i < out.Length ==> out[i] == old(out[i])
  {
    t := WriteVarint(out, target, 8 * num);
    t := WriteVarint(out, t, v);
  }

  // WriteFloatToArray: a tag and four bytes, low byte first.
  method WriteFixed32Field(out: array<Byte>, target: nat, num: FieldNum, bits: U32) returns (t: nat)
    requires target + |WriteRecord(Fixed32(num, bits))| <= out.Length
    modifies out
    ensures t == target + |WriteRecord(Fixed32(num, bits))|
    ensures out[..t] == old(out[..target]) + WriteRecord(Fixed32(num, bits))
    ensures forall i :: t <= i < out.Length ==> out[i] == old(out[i])
  {
    t := WriteVarint(out, target, 8 * num + 5);
    t := WriteRaw(out, t, LE32(bits));
  }

  // WriteLengthDelim: a tag and a length; the body follows.
  method WriteLengthDelim(out: array<Byte>, target: nat, num: FieldNum, size: nat) returns (t: nat)
    requires target + |Tag(num, 2)| + |EncodeVarint(size)| <= out.Length
    modifies out
    ensures t == target + |Tag(num, 2)| + |EncodeVarint(size)|
    ensures out[..t] == old(out[..target]) + (Tag(num, 2) + EncodeVarint(size))
    ensures forall i :: t <= i < out.Length ==> out[i] == old(out[i])
  {
    t := WriteVarint(out, target, 8 * num + 2);
    t := WriteVarint(out, t, size);
  }

  // WriteStringMaybeAliased
  method WriteStringField(out: array<Byte>, target: nat, num: FieldNum, data: Bytes) returns (t: nat)
    requires target + |WriteRecord(Len(num, data))| <= out.Length
    modifies out
    ensures t == target + |WriteRecord(Len(num, data))|
    ensures out[..t] == old(out[..target]) + WriteRecord(Len(num, data))
    ensures forall i :: t <= i < out.Length ==> out[i] == old(out[i])
  {
    t := WriteLengthDelim(out, target, num, |data|);
    t := WriteRaw(out, t, data);
  }

  // The block every generated writer repeats for a scalar or string field:
  // write it unless it has its default value.
  method WriteScalar(out: array<Byte>, target: nat, num: FieldNum, ghost k: Kind, n: int, wire: U64) returns (t: nat)
    requires k in {UInt64, UInt32, Bool, Enum} && ShapedVal(k, Num(n))
    requires wire == if k.Enum? then SignExtend(n) else n
    requires target + |WriteRecords(ValRecords(num, k, Num(n)))| <= out.Length
    modifies out
    ensures t == target + |WriteRecords(ValRecords(num, k, Num(n)))|
    ensures out[..t] == old(out[..target]) + WriteRecords(ValRecords(num, k, Num(n)))
    ensures forall i :: t <= i < out.Length ==> out[i] == old(out[i])
  {
    t := target;
    if n != 0 {
      WriteOne(Varint(num, wire));
      t := WriteVarintField(out, target, num, wire);
    }
  }

  method WriteFloat(out: array<Byte>, target: nat, num: FieldNum, bits: U32) returns (t: nat)
    requires target + |WriteRecords(ValRecords(num, Float, Num(bits)))| <= out.Length
    modifies out
    ensures t == target + |WriteRecords(ValRecords(num, Float, Num(bits)))|
    ensures out[..t] == old(out[..target]) + WriteRecords(ValRecords(num, Float, Num(bits)))
    ensures forall i :: t <= i < out.Length ==> out[i] == old(out[i])
  {
    t := target;
    if bits != 0 {
      WriteOne(Fixed32(num, bits));
      t := WriteFixed32Field(out, target, num, bits);
    }
  }

  method WriteString(out: array<Byte>, target: nat, num: FieldNum, s: Bytes) returns (t: nat)
    requires target + |WriteRecords(ValRecords(num, String, Str(s)))| <= out.Length
    modifies out
    ensures t == target + |WriteRecords(ValRecords(num, String, Str(s)))|
    ensures out[..t] == old(out[..target]) + WriteRecords(ValRecords(num, String, Str(s)))
    ensures forall i :: t <= i < out.Length ==> out[i] == old(out[i])
  {
    t := target;
    if s != [] {
      WriteOne(Len(num, s));
      t := WriteStringField(out, target, num, s);
    }
  }

  // The bytes of one field, and of the fields from i on.
  function FieldBytes(s: Schema, m: Msg, i: nat): Bytes
    requires Shaped(s, m) && i < |s.fields|
  {
    WriteRecords(ValRecords(s.fields[i].num, s.fields[i].kind, m.vals[i]))
  }

  function FieldSize(s: Schema, m: Msg, i: nat): nat
    requires Shaped(s, m) && i < |s.fields|
  {
    ValSize(s.fields[i].kind, m.vals[i])
  }

  function BytesFrom(s: Schema, m: Msg, i: nat): Bytes
    requires Shaped(s, m) && i <= |s.fields|
  {
    WriteRecords(RecordsFrom(s, m, i))
  }

  lemma {:induction false} BytesFromStep(s: Schema, m: Msg, i: nat)
    requires ValidSchema(s) && Shaped(s, m) && i < |s.fields|
    ensures BytesFrom(s, m, i) == FieldBytes(s, m, i) + BytesFrom(s, m, i + 1)
    ensures |FieldBytes(s, m, i)| == ValSize(s.fields[i].kind, m.vals[i])
    ensures |BytesFrom(s, m, i)| == SizeFrom(s, m, i)
  {
    var f := s.fields[i];
    WriteRecordsConcat(ValRecords(f.num, f.kind, m.vals[i]), RecordsFrom(s, m, i + 1));
    ValSizeExact(f.num, f.kind, m.vals[i]);
    SizeFromExact(s, m, i);
  }

  // A message is the bytes of its fields, then its unknown fields.
  lemma {:induction false} LayoutFrom(s: Schema, m: Msg, i: nat)
    requires ValidSchema(s) && Shaped(s, m) && i <= |s.fields|
    ensures BytesFrom(s, m, i) == FieldsBytes(s, m, i) + WriteRecords(m.unknown)
    ensures SizeFrom(s, m, i) == FieldsSize(s, m, i) + RecordsSize(m.unknown)
    decreases |s.fields| - i
  {
    hide ValSize, ValRecords, WriteRecords, RecordsSize, FieldBytes, ValidSchema, Shaped;
    if i < |s.fields| {
      BytesFromStep(s, m, i);
      LayoutFrom(s, m, i + 1);
      assert FieldBytes(s, m, i) + (FieldsBytes(s, m, i + 1) + WriteRecords(m.unknown))
          == FieldBytes(s, m, i) + FieldsBytes(s, m, i + 1) + WriteRecords(m.unknown);
    }
  }

  function FieldsBytes(s: Schema, m: Msg, i: nat): Bytes
    requires Shaped(s, m) && i <= |s.fields|
    decreases |s.fields| - i
  {
    if i == |s.fields| then [] else FieldBytes(s, m, i) + FieldsBytes(s, m, i + 1)
  }

  function FieldsSize(s: Schema, m: Msg, i: nat): nat
    requires Shaped(s, m) && i <= |s.fields|
    decreases |s.fields| - i
  {
    if i == |s.fields| then 0 else FieldSize(s, m, i) + FieldsSize(s, m, i + 1)
  }

  lemma {:induction false} Layout(s: Schema, m: Msg)
    requires ValidSchema(s) && Shaped(s, m)
    ensures |Serialize(s, m)| == Size(s, m)
    ensures Serialize(s, m) == FieldsBytes(s, m, 0) + WriteRecords(m.unknown)
    ensures Size(s, m) == FieldsSize(s, m, 0) + RecordsSize(m.unknown)
  {
    SizeExact(s, m);
    LayoutFrom(s, m, 0);
  }

  lemma {:induction false} FourFields(s: Schema, m: Msg)
    requires Shaped(s, m) && |s.fields| == 4
    ensures FieldsBytes(s, m, 0) ==
            FieldBytes(s, m, 0) + FieldBytes(s, m, 1) + FieldBytes(s, m, 2) + FieldBytes(s, m, 3)
    ensures FieldsSize(s, m, 0) ==
            FieldSize(s, m, 0) + FieldSize(s, m, 1) + FieldSize(s, m, 2) + FieldSize(s, m, 3)
  {
    hide FieldBytes, FieldSize;
    assert FieldsBytes(s, m, 3) == FieldBytes(s, m, 3) + FieldsBytes(s, m, 4);
    assert FieldsBytes(s, m, 2) == FieldBytes(s, m, 2) + FieldsBytes(s, m, 3);
    assert FieldsSize(s, m, 3) == FieldSize(s, m, 3) + FieldsSize(s, m, 4);
    assert FieldsSize(s, m, 2) == FieldSize(s, m, 2) + FieldsSize(s, m, 3);
  }

  lemma {:induction false} ThreeFields(s: Schema, m: Msg)
    requires Shaped(s, m) && |s.fields| == 3
    ensures FieldsBytes(s, m, 0) == FieldBytes(s, m, 0) + FieldBytes(s, m, 1) + FieldBytes(s, m, 2)
    ensures FieldsSize(s, m, 0) == FieldSize(s, m, 0) + FieldSize(s, m, 1) + FieldSize(s, m, 2)
  {
    hide FieldBytes, FieldSize;
    assert FieldsBytes(s, m, 2) == FieldBytes(s, m, 2) + FieldsBytes(s, m, 3);
    assert FieldsSize(s, m, 2) == FieldSize(s, m, 2) + FieldsSize(s, m, 3);
  }

  lemma {:induction false} TwoFields(s: Schema, m: Msg)
    requires Shaped(s, m) && |s.fields| == 2
    ensures FieldsBytes(s, m, 0) == FieldBytes(s, m, 0) + FieldBytes(s, m, 1)
    ensures FieldsSize(s, m, 0) == FieldSize(s, m, 0) + FieldSize(s, m, 1)
  {
    hide FieldBytes, FieldSize;
    assert FieldsBytes(s, m, 1) == FieldBytes(s, m, 1) + FieldsBytes(s, m, 2);
    assert FieldsSize(s, m, 1) == FieldSize(s, m, 1) + FieldsSize(s, m, 2);
  }

  lemma {:induction false} OneField(s: Schema, m: Msg)
    requires Shaped(s, m) && |s.fields| == 1
    ensures FieldsBytes(s, m, 0) == FieldBytes(s, m, 0)
    ensures FieldsSize(s, m, 0) == FieldSize(s, m, 0)
  {
    hide FieldBytes, FieldSize;
    assert FieldsBytes(s, m, 1) == [];
  }

  // ReadVarint32 and ReadVarint64 take the same bytes.
  lemma {:induction false} Varint32Of64(b: Bytes)
    ensures ReadVarint32(b) ==
            match ReadVarint64(b)
            case None => None
            case Some((v, k)) => Some((v % TWO_32, k))
  {
  }

  // ------------------------------------------------------------------- sizes

  // WireFormatLite::LengthDelimitedSize, with its cast to 32 bits.
  function LengthDelimitedSizeOf(length: nat): nat {
    length + VarintSize64(length % TWO_32)
  }

  // A computed size and the true one: equal, or both beyond INT_MAX.
  predicate Agree(n: nat, size: nat) {
    n == size || (n > INT_MAX && size > INT_MAX)
  }

  // The generated size of a varint field and of a string field.
  function ScalarSizeOf(n: U64): nat {
    if n == 0 then 0 else 1 + VarintSize64(n)
  }

  function StringSizeOf(s: Bytes): nat {
    if s == [] then 0 else 1 + LengthDelimitedSizeOf(|s|)
  }

  lemma {:induction false} ScalarSizeAgrees(k: Kind, n: U64)
    requires k in {UInt64, UInt32, Bool} && ShapedVal(k, Num(n))
    ensures ScalarSizeOf(n) == ValSize(k, Num(n))
  {
    VarintSize64Exact(n);
    EncodeLengthBounds(n);
  }

  lemma {:induction false} StringSizeAgrees(s: Bytes)
    ensures Agree(StringSizeOf(s), ValSize(String, Str(s)))
  {
    LengthDelimitedAgree(|s|, |s|);
  }

  lemma {:induction false} LengthDelimitedAgree(n: nat, size: nat)
    requires Agree(n, size)
    ensures Agree(LengthDelimitedSizeOf(n), LengthDelimitedSize(size))
    ensures Agree(1 + LengthDelimitedSizeOf(n), 1 + LengthDelimitedSize(size))
  {
    VarintSize64Exact(n % TWO_32);
  }

  lemma {:induction false} AgreeSum(m: nat, a: nat, n: nat, b: nat)
    requires Agree(m, a) && (n == b || Agree(n, b))
    ensures Agree(m + n, a + b)
    ensures m + n <= INT_MAX ==> m + n == a + b && m == a && n == b
  {
  }

  lemma {:induction false} SubMessageBytes(num: FieldNum, sub: Schema, x: Msg)
    requires num <= 15 && ValidSchema(sub) && Shaped(sub, x)
    ensures WriteRecords(ValRecords(num, Message(sub), Sub(Some(x)))) ==
            Tag(num, 2) + EncodeVarint(Size(sub, x)) + Serialize(sub, x)
  {
    var r := Len(num, Serialize(sub, x));
    WriteOne(r);
    SizeExact(sub, x);
    assert Tag(num, 2) + EncodeVarint(Size(sub, x)) + Serialize(sub, x)
        == Tag(num, 2) + (EncodeVarint(Size(sub, x)) + Serialize(sub, x));
  }

  lemma {:induction false} NoSubMessageBytes(num: FieldNum, sub: Schema)
    ensures WriteRecords(ValRecords(num, Message(sub), Sub(None))) == []
  {
  }
}
