/**
  How large a parsed message can be when written again.  The canonical
  encoding can be longer than the input (an enum value with its top bit set
  may arrive in five bytes and always leaves in ten), but never more than three
  times as long.
 */
module CodecBounds {
  import opened Wire
  import opened Records
  import opened Codec
  import opened CodecLaws
  import opened CodecTheorems

  // -------------------------------------------- records are read minimally

  lemma {:induction false} RawVarintMinimal(b: Bytes, max: nat)
    requires RawVarint(b, max).Some?
    ensures |EncodeVarint(RawVarint(b, max).value.0)| <= RawVarint(b, max).value.1
  {
    if b[0] >= 128 {
      RawVarintMinimal(b[1..], max - 1);
      var v := RawVarint(b[1..], max - 1).value.0;
      var n := b[0] - 128 + 128 * v;
      assert n / 128 == v;
    }
  }

  lemma {:induction false} ReducedMinimal(b: Bytes, max: nat, modulus: nat)
    requires RawVarint(b, max).Some? && modulus > 0
    ensures |EncodeVarint(RawVarint(b, max).value.0 % modulus)| <= RawVarint(b, max).value.1
  {
    RawVarintMinimal(b, max);
    var v := RawVarint(b, max).value.0;
    assert v % modulus <= v;
    EncodeLengthMonotone(v % modulus, v);
  }

  lemma {:induction false} ReadFieldMinimal(tag: U32, b: Bytes, depth: nat)
    requires ReadField(tag, b, depth).Some?
    ensures |WritePayload(ReadField(tag, b, depth).value.0)| <= ReadField(tag, b, depth).value.1
    ensures WireType(ReadField(tag, b, depth).value.0) == tag % 8
    decreases |b|, 1
  {
    if tag % 8 == 0 {
      ReducedMinimal(b, 10, TWO_64);
    } else if tag % 8 == 2 {
      RawVarintMinimal(b, 5);
    } else if tag % 8 == 3 {
      ReadGroupMinimal(tag / 8, b, depth - 1);
    }
  }

  lemma {:induction false} ReadGroupMinimal(num: FieldNum, b: Bytes, depth: nat)
    requires ReadGroup(num, b, depth).Some?
    ensures |WriteRecords(ReadGroup(num, b, depth).value.0)| + |Tag(num, 4)| <= ReadGroup(num, b, depth).value.1
    decreases |b|, 0
  {
    hide ReadField, ReadGroup;
    var tag, k, n := ReadGroupCases(num, b, depth);
    ReducedMinimal(b, 5, TWO_32);
    if tag % 8 != 4 {
      ReadFieldMinimal(tag, b[k..], depth);
      ReadGroupMinimal(num, b[k + n..], depth);
      GroupMinimalStep(num, tag, b, k, n, depth);
    }
  }

  lemma {:induction false} GroupMinimalStep(num: FieldNum, tag: U32, b: Bytes, k: nat, n: nat, depth: nat)
    requires tag != 0 && tag % 8 != 4 && k + n <= |b| && |EncodeVarint(tag)| <= k
    requires ReadTag(b) == Some((tag, k)) && ReadGroup(num, b, depth).Some?
    requires ReadField(tag, b[k..], depth).Some? && ReadField(tag, b[k..], depth).value.1 == n
    requires var f := ReadField(tag, b[k..], depth).value.0;
             |WritePayload(f)| <= n && WireType(f) == tag % 8
    requires ReadGroup(num, b[k + n..], depth).Some?
    requires |WriteRecords(ReadGroup(num, b[k + n..], depth).value.0)| + |Tag(num, 4)|
             <= ReadGroup(num, b[k + n..], depth).value.1
    ensures |WriteRecords(ReadGroup(num, b, depth).value.0)| + |Tag(num, 4)| <= ReadGroup(num, b, depth).value.1
  {
    hide ReadGroup, ReadTag;
    ReadGroupStep(num, tag, b, k, depth);
    var f := ReadField(tag, b[k..], depth).value.0;
    assert tag == 8 * f.num + WireType(f);
    var fs := ReadGroup(num, b[k + n..], depth).value.0;
    WriteOne(f);
    WriteRecordsConcat([f], fs);
  }

  lemma {:induction false} ReadRecordsMinimal(b: Bytes, depth: nat)
    requires ReadRecords(b, depth).Some?
    ensures |WriteRecords(ReadRecords(b, depth).value)| <= |b|
    decreases |b|
  {
    if b != [] {
      var (r, n) := ReadRecord(b, depth).value;
      var (tag, k) := ReadTag(b).value;
      ReducedMinimal(b, 5, TWO_32);
      ReadFieldMinimal(tag, b[k..], depth);
      assert tag == 8 * r.num + WireType(r);
      ReadRecordsMinimal(b[n..], depth);
      var rs := ReadRecords(b[n..], depth).value;
      assert ([r] + rs)[0] == r && ([r] + rs)[1..] == rs;
    }
  }

  // ------------------------------------------------------- growth of a fold

  // Length of a varint.
  function VL(n: nat): nat {
    |EncodeVarint(n)|
  }

  lemma {:induction false} VLDouble(n: nat)
    ensures VL(2 * n) <= VL(n) + 1
    ensures VL(3 * n) <= VL(n) + 1
  {
    if n > 0 {
      EncodeLengthMonotone(2 * n, 128 * n);
      EncodeLengthMonotone(3 * n, 128 * n);
      assert 128 * n / 128 == n;
    }
  }

  lemma {:induction false} VLSum(a: nat, b: nat)
    ensures VL(a + b) <= VL(a) + VL(b)
  {
    if a >= b {
      EncodeLengthMonotone(a + b, 2 * a);
      VLDouble(a);
    } else {
      EncodeLengthMonotone(a + b, 2 * b);
      VLDouble(b);
    }
  }

  // A length-delimited value whose body grows by at most three times p.
  lemma {:induction false} BodyGrowth(size0: nat, size: nat, p: nat)
    requires size <= size0 + 3 * p
    ensures LengthDelimitedSize(size) <= LengthDelimitedSize(size0) + 3 * p + VL(p) + 1
  {
    VarintSizeExact(size);
    VarintSizeExact(size0);
    EncodeLengthMonotone(size, size0 + 3 * p);
    VLSum(size0, 3 * p);
    VLDouble(p);
  }

  lemma {:induction false} ParseGrowth(s: Schema, m: Msg, b: Bytes, depth: nat)
    requires ValidSchema(s) && Shaped(s, m) && Parse(s, m, b, depth).Some?
    ensures Size(s, Parse(s, m, b, depth).value) <= Size(s, m) + 3 * |b|
    decreases s, 2
  {
    var rs := ReadRecords(b, depth).value;
    ReadRecordsMinimal(b, depth);
    FoldGrowth(s, m, rs, depth);
  }

  lemma {:induction false} FoldGrowth(s: Schema, m: Msg, rs: seq<Record>, depth: nat)
    requires ValidSchema(s) && Shaped(s, m) && Fold(s, m, rs, depth).Some?
    ensures Size(s, Fold(s, m, rs, depth).value) <= Size(s, m) + 3 * |WriteRecords(rs)|
    decreases s, 1, |rs|
  {
    if rs != [] {
      ApplyGrowth(s, m, rs[0], depth);
      FoldGrowth(s, Apply(s, m, rs[0], depth).value, rs[1..], depth);
    }
  }

  lemma {:induction false} ApplyGrowth(s: Schema, m: Msg, r: Record, depth: nat)
    requires ValidSchema(s) && Shaped(s, m) && Apply(s, m, r, depth).Some?
    ensures Size(s, Apply(s, m, r, depth).value) <= Size(s, m) + 3 * |WriteRecord(r)|
    decreases s, 0
  {
    var w := Apply(s, m, r, depth).value;
    var t := Target(s, r);
    if t.None? {
      RecordsSizeAppend(m.unknown, r);
      SizeFromUnknown(s, m, w, 0);
    } else {
      var i := t.value;
      var k := s.fields[i].kind;
      ApplyValGrowth(k, m.vals[i], r, depth);
      SizeFromUpdate(s, m, w, i, 0);
    }
  }

  lemma {:induction false} RecordsSizeAppend(rs: seq<Record>, r: Record)
    ensures RecordsSize(rs + [r]) == RecordsSize(rs) + |WriteRecord(r)|
  {
    RecordsSizeExact(rs + [r]);
    RecordsSizeExact(rs);
    WriteRecordsConcat(rs, [r]);
    WriteOne(r);
  }

  lemma {:induction false} SizeFromUnknown(s: Schema, m: Msg, w: Msg, i: nat)
    requires Shaped(s, m) && Shaped(s, w) && w.vals == m.vals && i <= |s.fields|
    ensures SizeFrom(s, w, i) - RecordsSize(w.unknown) == SizeFrom(s, m, i) - RecordsSize(m.unknown)
    decreases |s.fields| - i
  {
    if i < |s.fields| {
      SizeFromUnknown(s, m, w, i + 1);
    }
  }

  lemma {:induction false} SizeFromUpdate(s: Schema, m: Msg, w: Msg, i: nat, j: nat)
    requires Shaped(s, m) && Shaped(s, w) && i < |s.fields| && j <= |s.fields|
    requires w.unknown == m.unknown && w.vals == m.vals[i := w.vals[i]]
    ensures SizeFrom(s, w, j) == SizeFrom(s, m, j) +
            if j <= i then ValSize(s.fields[i].kind, w.vals[i]) - ValSize(s.fields[i].kind, m.vals[i]) else 0
    decreases |s.fields| - j
  {
    if j < |s.fields| {
      SizeFromUpdate(s, m, w, i, j + 1);
    }
  }

  lemma {:induction false} DefaultValSize(k: Kind)
    ensures ValSize(k, DefaultVal(k)) == 0
  {
    assert PackedSize([]) == 0;
  }

  lemma {:induction false} SizeOfDefault(s: Schema, i: nat)
    requires i <= |s.fields|
    ensures SizeFrom(s, Default(s), i) == 0
    decreases |s.fields| - i
  {
    if i < |s.fields| {
      DefaultValSize(s.fields[i].kind);
      SizeOfDefault(s, i + 1);
    }
  }

  lemma {:induction false} DecodePackedMinimal(b: Bytes)
    requires DecodePacked(b).Some?
    ensures PackedSize(DecodePacked(b).value) <= |b|
    decreases |b|
  {
    if b != [] {
      var (v, k) := ReadVarint64(b).value;
      ReducedMinimal(b, 10, TWO_64);
      VarintSizeExact(v);
      DecodePackedMinimal(b[k..]);
      PackedSizeConcat([v], DecodePacked(b[k..]).value);
      assert [v][..0] == [];
    }
  }

  // Appending values of size p to a packed field.
  lemma {:induction false} PackedGrowth(ns: seq<U64>, vs: seq<U64>, p: nat)
    requires PackedSize(vs) <= p
    ensures ValSize(Packed, Ints(ns + vs)) <= ValSize(Packed, Ints(ns)) + 3 * p + VL(p) + 3
  {
    PackedSizeConcat(ns, vs);
    var n := PackedSize(ns);
    BodyGrowth(n, PackedSize(ns + vs), p);
    VarintSizeExact(0);
  }

  lemma {:induction false} ApplyValGrowth(k: Kind, v: Value, r: Record, depth: nat)
    requires ValidKind(k) && ShapedVal(k, v) && WireMatches(k, r) && ApplyVal(k, v, r, depth).Some?
    ensures ValSize(k, ApplyVal(k, v, r, depth).value) <= ValSize(k, v) + 3 * |WriteRecord(r)|
    decreases k, 1
  {
    if r.Len? {
      LenGrowth(k, v, r, depth);
    } else if r.Varint? {
      VarintGrowth(k, v, r, depth);
    }
  }

  lemma {:induction false} VarintGrowth(k: Kind, v: Value, r: Record, depth: nat)
    requires ValidKind(k) && ShapedVal(k, v) && WireMatches(k, r) && r.Varint?
    requires ApplyVal(k, v, r, depth).Some?
    ensures ValSize(k, ApplyVal(k, v, r, depth).value) <= ValSize(k, v) + 3 * |WriteRecord(r)|
  {
    hide EncodeVarint;
    assert |WriteRecord(r)| >= 1 + VL(r.v);
    match k {
      case UInt64 => VarintSizeExact(r.v);
      case UInt32 =>
        VarintSizeExact(r.v % TWO_32);
        EncodeLengthMonotone(r.v % TWO_32, r.v);
      case Enum => EnumGrowth(r.v);
      case Packed => PackedOne(v.ns, r.v);
      case _ =>
    }
  }

  // A five-byte enum value can become a ten-byte one.
  lemma {:induction false} EnumGrowth(v: U64)
    ensures 1 + VarintSizeSignExtended(TruncateToI32(v)) <= 3 * (1 + VL(v))
  {
    hide EncodeVarint, VarintSizeSignExtended, TruncateToI32;
    var n := TruncateToI32(v);
    TruncateBelow(v);
    SignExtendTruncate(n);
    EncodeLengthBounds(v);
    if n >= 0 {
      EncodeLengthMonotone(n, v);
    }
  }

  lemma {:induction false} PackedOne(ns: seq<U64>, x: U64)
    ensures ValSize(Packed, Ints(ns + [x])) <= ValSize(Packed, Ints(ns)) + 3 * (1 + VL(x))
  {
    PackedSizeConcat(ns, [x]);
    assert PackedSize([x]) == VarintSize(x) by { assert [x][..0] == []; }
    VarintSizeExact(x);
    EncodeLengthBounds(x);
    var n, e := PackedSize(ns), VL(x);
    VarintSizeExact(n + e);
    VarintSizeExact(n);
    VLSum(n, e);
    EncodeLengthBounds(e);
  }

  lemma {:induction false} LenGrowth(k: Kind, v: Value, r: Record, depth: nat)
    requires ValidKind(k) && ShapedVal(k, v) && WireMatches(k, r) && r.Len?
    requires ApplyVal(k, v, r, depth).Some?
    ensures ValSize(k, ApplyVal(k, v, r, depth).value) <= ValSize(k, v) + 3 * |WriteRecord(r)|
    decreases k, 0
  {
    var p := |r.data|;
    assert |WriteRecord(r)| >= 1 + VL(p) + p;
    VarintSizeExact(p);
    VarintSizeExact(0);
    match k {
      case String =>
      case Message(sub) =>
        var x := v.m.GetOr(Default(sub));
        SizeOfDefault(sub, 0);
        ParseGrowth(sub, x, r.data, depth - 1);
        BodyGrowth(Size(sub, x), Size(sub, Parse(sub, x, r.data, depth - 1).value), p);
      case Repeated(sub) =>
        SizeOfDefault(sub, 0);
        ParseGrowth(sub, Default(sub), r.data, depth - 1);
        var x := Parse(sub, Default(sub), r.data, depth - 1).value;
        BodyGrowth(0, Size(sub, x), p);
        assert (v.ms + [x])[..|v.ms|] == v.ms;
        assert RepSize(sub, v.ms + [x]) == RepSize(sub, v.ms) + 1 + LengthDelimitedSize(Size(sub, x));
      case Packed =>
        DecodePackedMinimal(r.data);
        PackedGrowth(v.ns, DecodePacked(r.data).value, p);
      case _ =>
    }
  }

  // ------------------------------------------------------- normalising, at last

  // Nested sizes are part of the total.
  lemma {:induction false} SmallFits(s: Schema, m: Msg)
    requires Shaped(s, m) && Size(s, m) <= MAX_LENGTH
    ensures SizesFit(s, m)
    decreases s, 1
  {
    forall i | 0 <= i < |s.fields| ensures SizesFitVal(s.fields[i].kind, m.vals[i]) {
      ValSizeWithin(s, m, i, 0);
      match s.fields[i].kind {
        case Message(sub) =>
          if m.vals[i].m.Some? {
            SmallFits(sub, m.vals[i].m.value);
          }
        case Repeated(sub) =>
          forall x | x in m.vals[i].ms ensures Size(sub, x) <= MAX_LENGTH && SizesFit(sub, x) {
            RepSizeWithin(sub, m.vals[i].ms, x);
            SmallFits(sub, x);
          }
        case _ =>
      }
    }
  }

  lemma {:induction false} ValSizeWithin(s: Schema, m: Msg, i: nat, j: nat)
    requires Shaped(s, m) && j <= i < |s.fields|
    ensures ValSize(s.fields[i].kind, m.vals[i]) <= SizeFrom(s, m, j)
    decreases i - j
  {
    if j < i {
      ValSizeWithin(s, m, i, j + 1);
    }
  }

  lemma {:induction false} RepSizeWithin(s: Schema, ms: seq<Msg>, x: Msg)
    requires x in ms && forall y | y in ms :: Shaped(s, y)
    ensures Size(s, x) <= RepSize(s, ms)
    decreases |ms|
  {
    var last := |ms| - 1;
    assert ms == ms[..last] + [ms[last]];
    if x != ms[last] {
      RepSizeWithin(s, ms[..last], x);
    }
  }

  // Every accepted input of reasonable length is normalised by serializing.
  lemma {:induction false} ParseNormalisesSmall(s: Schema, b: Bytes, depth: nat)
    requires ValidSchema(s) && Parse(s, Default(s), b, depth).Some?
    requires 3 * |b| <= MAX_LENGTH
    ensures var m := Parse(s, Default(s), b, depth).value;
            && |Serialize(s, m)| <= 3 * |b|
            && Parse(s, Default(s), Serialize(s, m), depth) == Some(m)
  {
    var m := Parse(s, Default(s), b, depth).value;
    SizeOfDefault(s, 0);
    ParseGrowth(s, Default(s), b, depth);
    SizeExact(s, m);
    SmallFits(s, m);
    ParseNormalises(s, b, depth);
  }
}
