/**
  Wire-format records, read without knowing the message they belong to
  (Protocol Buffers Encoding guide: "Message Structure", "Length-Delimited
  Records").  A record is also what an unknown field keeps of its input, so the
  same datatype is the content of UnknownFieldSet; groups nest.
 */
module Records {
  import opened Wire

  datatype Record =
    | Varint(num: FieldNum, v: U64)
    | Fixed64(num: FieldNum, bits64: U64)
    | Len(num: FieldNum, data: Bytes)
    | Group(num: FieldNum, fields: seq<Record>)
    | Fixed32(num: FieldNum, bits32: U32)

  // ---------------------------------------------------------------- reading

  // The payload that follows a tag, as UnknownFieldParse takes it: field
  // number 0 and the wire types 4, 6 and 7 are rejected.  The second
  // component counts the bytes taken.
  function ReadField(tag: U32, b: Bytes, depth: nat): (r: Option<(Record, nat)>)
    ensures r.Some? ==> r.value.0.num == tag / 8 && r.value.1 <= |b|
    decreases |b|, 1
  {
    var num := tag / 8;
    if num == 0 then None
    else if tag % 8 == 0 then
      match ReadVarint64(b)
      case None => None
      case Some((v, k)) => Some((Varint(num, v), k))
    else if tag % 8 == 1 then
      if |b| < 8 then None else Some((Fixed64(num, FromLE64(b[..8])), 8))
    else if tag % 8 == 2 then
      match ReadLen(b)
      case None => None
      case Some((data, k)) => Some((Len(num, data), k))
    else if tag % 8 == 3 then
      if depth == 0 then None
      else
        match ReadGroup(num, b, depth - 1)
        case None => None
        case Some((fields, k)) => Some((Group(num, fields), k))
    else if tag % 8 == 5 then
      if |b| < 4 then None else Some((Fixed32(num, FromLE32(b[..4])), 4))
    else None
  }

  function ReadLen(b: Bytes): (r: Option<(Bytes, nat)>)
    ensures r.Some? ==> |r.value.0| < r.value.1 <= |b| && |r.value.0| <= MAX_LENGTH
  {
    match ReadSize(b)
    case None => None
    case Some((n, k)) => if n <= |b| - k then Some((b[k..k + n], k + n)) else None
  }

  // The fields of a group, up to the end-group tag that closes it.
  function ReadGroup(num: FieldNum, b: Bytes, depth: nat): (r: Option<(seq<Record>, nat)>)
    ensures r.Some? ==> r.value.1 <= |b|
    decreases |b|, 0
  {
    match ReadTag(b)
    case None => None
    case Some((tag, k)) =>
      if tag == 0 then None
      else if tag % 8 == 4 then
        if tag / 8 == num then Some(([], k)) else None
      else
        match ReadField(tag, b[k..], depth)
        case None => None
        case Some((f, n)) =>
          match ReadGroup(num, b[k + n..], depth)
          case None => None
          case Some((fs, l)) => Some(([f] + fs, k + n + l))
  }

  // One record; a zero tag or a stray end-group tag ends the message early,
  // which every caller rejects.
  function ReadRecord(b: Bytes, depth: nat): (r: Option<(Record, nat)>)
    ensures r.Some? ==> 1 <= r.value.1 <= |b|
  {
    match ReadTag(b)
    case None => None
    case Some((tag, k)) =>
      if tag == 0 || tag % 8 == 4 then None
      else
        match ReadField(tag, b[k..], depth)
        case None => None
        case Some((f, n)) => Some((f, k + n))
  }

  function ReadRecords(b: Bytes, depth: nat): (r: Option<seq<Record>>)
    decreases |b|
  {
    if b == [] then Some([])
    else
      match ReadRecord(b, depth)
      case None => None
      case Some((f, k)) =>
        match ReadRecords(b[k..], depth)
        case None => None
        case Some(fs) => Some([f] + fs)
  }

  // ---------------------------------------------------------------- writing

  function WireType(r: Record): (t: nat)
    ensures t in {0, 1, 2, 3, 5}
  {
    match r
    case Varint(_, _) => 0
    case Fixed64(_, _) => 1
    case Len(_, _) => 2
    case Group(_, _) => 3
    case Fixed32(_, _) => 5
  }

  function Tag(num: FieldNum, wireType: nat): (b: Bytes)
    requires wireType < 8
  {
    EncodeVarint(8 * num + wireType)
  }

  function WriteRecord(r: Record): (b: Bytes)
    ensures |b| >= 1
    decreases r, 1
  {
    Tag(r.num, WireType(r)) + WritePayload(r)
  }

  function WritePayload(r: Record): Bytes
    decreases r, 0
  {
    match r
    case Varint(_, v) => EncodeVarint(v)
    case Fixed64(_, n) => LE64(n)
    case Len(_, data) => EncodeVarint(|data|) + data
    case Group(num, fields) => WriteRecords(fields) + Tag(num, 4)
    case Fixed32(_, n) => LE32(n)
  }

  function WriteRecords(rs: seq<Record>): Bytes
    decreases rs, 2
  {
    if rs == [] then [] else WriteRecord(rs[0]) + WriteRecords(rs[1..])
  }

  // Sizes, computed without writing.
  function RecordSize(r: Record): (n: nat)
    decreases r, 1
  {
    VarintSize(8 * r.num + WireType(r)) +
    match r
    case Varint(_, v) => VarintSize(v)
    case Fixed64(_, _) => 8
    case Len(_, data) => LengthDelimitedSize(|data|)
    case Group(num, fields) => RecordsSize(fields) + VarintSize(8 * num + 4)
    case Fixed32(_, _) => 4
  }

  function LengthDelimitedSize(n: nat): nat {
    n + VarintSize(n)
  }

  function RecordsSize(rs: seq<Record>): (n: nat)
    decreases rs, 2
  {
    if rs == [] then 0 else RecordSize(rs[0]) + RecordsSize(rs[1..])
  }

  // ------------------------------------------------------------ round trips

  // Lengths the reader accepts, and groups no deeper than the reader goes.
  predicate Fits(r: Record, depth: nat)
    decreases r
  {
    match r
    case Len(_, data) => |data| <= MAX_LENGTH
    case Group(_, fields) => depth > 0 && (forall f | f in fields :: Fits(f, depth - 1))
    case _ => true
  }

  predicate AllFit(rs: seq<Record>, depth: nat) {
    forall r | r in rs :: Fits(r, depth)
  }

  lemma {:induction false} ReadTagOfWrite(num: FieldNum, wireType: nat, rest: Bytes)
    requires wireType < 8
    ensures ReadTag(Tag(num, wireType) + rest) == Some((8 * num + wireType, |Tag(num, wireType)|))
  {
    var t := 8 * num + wireType;
    RawVarintOfEncode(t, rest, 5);
    EncodeLengthBounds(t);
  }

  lemma {:induction false} ReadLenOfWrite(data: Bytes, rest: Bytes)
    ensures ReadLen(EncodeVarint(|data|) + data + rest) ==
            if |data| <= MAX_LENGTH then Some((data, |EncodeVarint(|data|)| + |data|)) else None
  {
    var e := EncodeVarint(|data|);
    var b := e + data + rest;
    assert b == e + (data + rest);
    RawVarintOfEncode(|data|, data + rest, 5);
    EncodeLengthBounds(|data|);
    if |data| <= MAX_LENGTH {
      assert b[|e|..|e| + |data|] == data;
    }
  }

  lemma {:induction false} ReadScalarOfWrite(r: Record, rest: Bytes, depth: nat)
    requires !r.Group?
    ensures ReadField(8 * r.num + WireType(r), WritePayload(r) + rest, depth) ==
            if Fits(r, depth) then Some((r, |WritePayload(r)|)) else None
  {
    hide EncodeVarint, LE32, FromLE64;
    var tag := 8 * r.num + WireType(r);
    assert tag / 8 == r.num && tag % 8 == WireType(r);
    var b := WritePayload(r) + rest;
    match r {
      case Varint(_, v) =>
        RawVarintOfEncode(v, rest, 10);
        EncodeLengthBounds(v);
      case Fixed64(_, n) =>
        FixedRoundTrip(0, n);
        assert b[..8] == LE64(n);
      case Len(_, data) =>
        ReadLenOfWrite(data, rest);
      case Fixed32(_, n) =>
        FixedRoundTrip(n, 0);
        assert b[..4] == LE32(n);
    }
  }

  lemma {:induction false} ReadFieldGroup(num: FieldNum, b: Bytes, depth: nat)
    ensures ReadField(8 * num + 3, b, depth) ==
            if depth == 0 then None
            else
              match ReadGroup(num, b, depth - 1)
              case None => None
              case Some((fields, k)) => Some((Group(num, fields), k))
  {
    hide ReadGroup, ReadLen, ReadVarint64, FromLE64, FromLE32;
    var tag := 8 * num + 3;
    assert tag / 8 == num && tag % 8 == 3;
  }

  // Reading a written payload gives the record back, and fails only when the
  // record does not fit.
  lemma {:induction false} ReadFieldOfWrite(r: Record, rest: Bytes, depth: nat)
    ensures ReadField(8 * r.num + WireType(r), WritePayload(r) + rest, depth) ==
            if Fits(r, depth) then Some((r, |WritePayload(r)|)) else None
    decreases r, 0
  {
    hide ReadField, ReadGroup;
    if r.Group? {
      ReadFieldGroup(r.num, WritePayload(r) + rest, depth);
      if depth > 0 {
        ReadGroupOfWrite(r.num, r.fields, rest, depth - 1);
      }
    } else {
      ReadScalarOfWrite(r, rest, depth);
    }
  }

  lemma {:induction false} ReadGroupStep(num: FieldNum, tag: U32, b: Bytes, k: nat, depth: nat)
    requires tag != 0 && tag % 8 != 4 && k <= |b|
    requires ReadTag(b) == Some((tag, k))
    ensures ReadGroup(num, b, depth) ==
            match ReadField(tag, b[k..], depth)
            case None => None
            case Some((f, n)) =>
              match ReadGroup(num, b[k + n..], depth)
              case None => None
              case Some((fs, l)) => Some(([f] + fs, k + n + l))
  {
    hide ReadField, ReadTag;
  }

  // How a group that was read starts: with its end tag or with a field.
  lemma {:induction false} ReadGroupCases(num: FieldNum, b: Bytes, depth: nat) returns (tag: U32, k: nat, n: nat)
    requires ReadGroup(num, b, depth).Some?
    ensures ReadTag(b) == Some((tag, k)) && tag != 0 && k + n <= |b| && k >= 1
    ensures tag % 8 == 4 ==> tag == 8 * num + 4 && ReadGroup(num, b, depth) == Some(([], k))
    ensures tag % 8 != 4 ==>
              && ReadField(tag, b[k..], depth).Some? && ReadField(tag, b[k..], depth).value.1 == n
              && ReadGroup(num, b[k + n..], depth).Some?
              && ReadGroup(num, b, depth).value ==
                 ([ReadField(tag, b[k..], depth).value.0] + ReadGroup(num, b[k + n..], depth).value.0,
                  k + n + ReadGroup(num, b[k + n..], depth).value.1)
  {
    hide ReadField, ReadTag;
    tag, k := ReadTag(b).value.0, ReadTag(b).value.1;
    n := if tag % 8 == 4 then 0 else ReadField(tag, b[k..], depth).value.1;
  }

  lemma {:induction false} ReadGroupOfWrite(num: FieldNum, fs: seq<Record>, rest: Bytes, depth: nat)
    ensures ReadGroup(num, WriteRecords(fs) + Tag(num, 4) + rest, depth) == GroupOrNone(num, fs, depth)
    decreases fs, 1
  {
    if fs == [] {
      assert WriteRecords(fs) + Tag(num, 4) + rest == Tag(num, 4) + rest;
      ReadTagOfWrite(num, 4, rest);
    } else {
      ReadFieldOfWrite(fs[0], WriteRecords(fs[1..]) + Tag(num, 4) + rest, depth);
      ReadGroupOfWrite(num, fs[1..], rest, depth);
      ReadGroupOfWriteStep(num, fs, rest, depth);
    }
  }

  function GroupOrNone(num: FieldNum, fs: seq<Record>, depth: nat): Option<(seq<Record>, nat)> {
    if AllFit(fs, depth) then Some((fs, |WriteRecords(fs)| + |Tag(num, 4)|)) else None
  }

  lemma {:induction false} ReadGroupOfWriteStep(num: FieldNum, fs: seq<Record>, rest: Bytes, depth: nat)
    requires fs != []
    requires var f, after := fs[0], WriteRecords(fs[1..]) + Tag(num, 4) + rest;
             && ReadField(8 * f.num + WireType(f), WritePayload(f) + after, depth) ==
                (if Fits(f, depth) then Some((f, |WritePayload(f)|)) else None)
             && ReadGroup(num, after, depth) == GroupOrNone(num, fs[1..], depth)
    ensures ReadGroup(num, WriteRecords(fs) + Tag(num, 4) + rest, depth) == GroupOrNone(num, fs, depth)
  {
    hide ReadField, ReadTag, ReadGroup, GroupOrNone, Fits, WriteRecords, WritePayload, EncodeVarint, WireType;
    var f := fs[0];
    var b := WriteRecords(fs) + Tag(num, 4) + rest;
    var after := WriteRecords(fs[1..]) + Tag(num, 4) + rest;
    var t, p := Tag(f.num, WireType(f)), WritePayload(f);
    GroupLayout(num, fs, rest);
    TagOfRecord(f);
    ReadTagOfWrite(f.num, WireType(f), p + after);
    assert b[|t|..] == p + after;
    assert b[|t| + |p|..] == after;
    GroupOrNoneStep(num, fs, depth);
    ReadGroupStep(num, 8 * f.num + WireType(f), b, |t|, depth);
  }

  lemma {:induction false} TagOfRecord(r: Record)
    ensures 8 * r.num + WireType(r) != 0 && (8 * r.num + WireType(r)) % 8 != 4
  {
  }

  lemma {:induction false} GroupLayout(num: FieldNum, fs: seq<Record>, rest: Bytes)
    requires fs != []
    ensures var f := fs[0];
            && WriteRecords(fs) + Tag(num, 4) + rest == Tag(f.num, WireType(f))
               + (WritePayload(f) + (WriteRecords(fs[1..]) + Tag(num, 4) + rest))
  {
    hide WritePayload, EncodeVarint, WireType;
    var t, p := Tag(fs[0].num, WireType(fs[0])), WritePayload(fs[0]);
    assert WriteRecords(fs) == (t + p) + WriteRecords(fs[1..]);
    Regroup(t, p, WriteRecords(fs[1..]), Tag(num, 4), rest);
  }

  lemma {:induction false} GroupOrNoneStep(num: FieldNum, fs: seq<Record>, depth: nat)
    requires fs != []
    ensures GroupOrNone(num, fs, depth) ==
            if Fits(fs[0], depth) && GroupOrNone(num, fs[1..], depth).Some?
            then Some(([fs[0]] + GroupOrNone(num, fs[1..], depth).value.0,
                       |Tag(fs[0].num, WireType(fs[0]))| + |WritePayload(fs[0])|
                       + GroupOrNone(num, fs[1..], depth).value.1))
            else None
  {
    assert fs == [fs[0]] + fs[1..];
    assert WriteRecords(fs) == WriteRecord(fs[0]) + WriteRecords(fs[1..]);
    assert AllFit(fs, depth) <==> Fits(fs[0], depth) && AllFit(fs[1..], depth) by {
      assert forall r | r in fs :: r == fs[0] || r in fs[1..];
    }
  }

  lemma {:induction false} Regroup(t: Bytes, p: Bytes, w: Bytes, e: Bytes, rest: Bytes)
    ensures ((t + p) + w) + e + rest == t + (p + (w + e + rest))
  {
  }

  lemma {:induction false} ReadRecordOfWrite(r: Record, rest: Bytes, depth: nat)
    ensures ReadRecord(WriteRecord(r) + rest, depth) ==
            if Fits(r, depth) then Some((r, |WriteRecord(r)|)) else None
  {
    var t, p := Tag(r.num, WireType(r)), WritePayload(r);
    var b := WriteRecord(r) + rest;
    assert b == t + (p + rest);
    ReadTagOfWrite(r.num, WireType(r), p + rest);
    assert b[|t|..] == p + rest;
    ReadFieldOfWrite(r, rest, depth);
  }

  lemma {:induction false} ReadRecordsOfWrite(rs: seq<Record>, depth: nat)
    ensures ReadRecords(WriteRecords(rs), depth) == if AllFit(rs, depth) then Some(rs) else None
  {
    if rs != [] {
      var r, tail := rs[0], rs[1..];
      assert rs == [r] + tail;
      var b := WriteRecords(rs);
      ReadRecordOfWrite(r, WriteRecords(tail), depth);
      if Fits(r, depth) {
        assert b[|WriteRecord(r)|..] == WriteRecords(tail);
        ReadRecordsOfWrite(tail, depth);
      }
    }
  }

  // What the reader returns always fits.
  lemma {:induction false} ReadFieldFits(tag: U32, b: Bytes, depth: nat)
    ensures ReadField(tag, b, depth).Some? ==> Fits(ReadField(tag, b, depth).value.0, depth)
    decreases |b|, 1
  {
    if tag / 8 != 0 && tag % 8 == 3 && depth > 0 {
      ReadGroupFits(tag / 8, b, depth - 1);
    }
  }

  lemma {:induction false} ReadGroupFits(num: FieldNum, b: Bytes, depth: nat)
    ensures ReadGroup(num, b, depth).Some? ==> AllFit(ReadGroup(num, b, depth).value.0, depth)
    decreases |b|, 0
  {
    hide ReadField, ReadTag, ReadGroup;
    if ReadGroup(num, b, depth).Some? {
      var tag, k, n := ReadGroupCases(num, b, depth);
      if tag % 8 != 4 {
        ReadFieldFits(tag, b[k..], depth);
        ReadGroupFits(num, b[k + n..], depth);
      }
    }
  }

  lemma {:induction false} ReadRecordsFit(b: Bytes, depth: nat)
    ensures ReadRecords(b, depth).Some? ==> AllFit(ReadRecords(b, depth).value, depth)
    decreases |b|
  {
    if b != [] && ReadRecord(b, depth).Some? {
      var (tag, k) := ReadTag(b).value;
      ReadFieldFits(tag, b[k..], depth);
      ReadRecordsFit(b[ReadRecord(b, depth).value.1..], depth);
    }
  }

  // --------------------------------------------------------- concatenation

  // More input after a complete item changes nothing before it.
  lemma {:induction false} RawVarintExtend(b: Bytes, c: Bytes, max: nat)
    requires RawVarint(b, max).Some?
    ensures RawVarint(b + c, max) == RawVarint(b, max)
  {
    if b[0] >= 128 {
      assert (b + c)[1..] == b[1..] + c;
      RawVarintExtend(b[1..], c, max - 1);
    }
  }

  lemma {:induction false} ReadFieldExtend(tag: U32, b: Bytes, c: Bytes, depth: nat)
    requires ReadField(tag, b, depth).Some?
    ensures ReadField(tag, b + c, depth) == ReadField(tag, b, depth)
    decreases |b|, 1
  {
    if tag % 8 == 0 {
      RawVarintExtend(b, c, 10);
    } else if tag % 8 == 1 {
      assert (b + c)[..8] == b[..8];
    } else if tag % 8 == 2 {
      RawVarintExtend(b, c, 5);
      var (n, k) := ReadSize(b).value;
      assert (b + c)[k..k + n] == b[k..k + n];
    } else if tag % 8 == 3 {
      ReadGroupExtend(tag / 8, b, c, depth - 1);
    } else if tag % 8 == 5 {
      assert (b + c)[..4] == b[..4];
    }
  }

  lemma {:induction false} ReadGroupExtend(num: FieldNum, b: Bytes, c: Bytes, depth: nat)
    requires ReadGroup(num, b, depth).Some?
    ensures ReadGroup(num, b + c, depth) == ReadGroup(num, b, depth)
    decreases |b|, 0
  {
    hide ReadField, ReadGroup;
    var tag, k, n := ReadGroupCases(num, b, depth);
    RawVarintExtend(b, c, 5);
    if tag % 8 == 4 {
      ReadGroupEnd(num, b + c, k, depth);
    } else {
      ReadFieldExtend(tag, b[k..], c, depth);
      ReadGroupExtend(num, b[k + n..], c, depth);
      ReadGroupExtendStep(num, tag, b, c, k, n, depth);
    }
  }

  lemma {:induction false} ReadGroupEnd(num: FieldNum, b: Bytes, k: nat, depth: nat)
    requires ReadTag(b) == Some((8 * num + 4, k))
    ensures ReadGroup(num, b, depth) == Some(([], k))
  {
    hide ReadField, ReadTag;
  }

  lemma {:induction false} ReadGroupExtendStep(num: FieldNum, tag: U32, b: Bytes, c: Bytes, k: nat, n: nat, depth: nat)
    requires tag != 0 && tag % 8 != 4 && k + n <= |b|
    requires ReadTag(b) == ReadTag(b + c) == Some((tag, k))
    requires ReadField(tag, b[k..], depth).Some? && ReadField(tag, b[k..], depth).value.1 == n
    requires ReadField(tag, b[k..] + c, depth) == ReadField(tag, b[k..], depth)
    requires ReadGroup(num, b[k + n..] + c, depth) == ReadGroup(num, b[k + n..], depth)
    ensures ReadGroup(num, b + c, depth) == ReadGroup(num, b, depth)
  {
    hide ReadField, ReadTag, ReadGroup;
    var bc := b + c;
    assert bc[k..] == b[k..] + c;
    assert bc[k + n..] == b[k + n..] + c;
    ReadGroupStep(num, tag, b, k, depth);
    ReadGroupStep(num, tag, bc, k, depth);
  }

  lemma {:induction false} ReadRecordExtend(b: Bytes, c: Bytes, depth: nat)
    requires ReadRecord(b, depth).Some?
    ensures ReadRecord(b + c, depth) == ReadRecord(b, depth)
  {
    RawVarintExtend(b, c, 5);
    var (tag, k) := ReadTag(b).value;
    assert (b + c)[k..] == b[k..] + c;
    ReadFieldExtend(tag, b[k..], c, depth);
  }

  lemma {:induction false} ReadRecordsStep(b: Bytes, f: Record, k: nat, depth: nat)
    requires b != [] && ReadRecord(b, depth) == Some((f, k))
    ensures ReadRecords(b, depth) ==
            match ReadRecords(b[k..], depth)
            case None => None
            case Some(fs) => Some([f] + fs)
  {
  }

  lemma {:induction false} ReadRecordsConcat(b: Bytes, c: Bytes, depth: nat)
    requires ReadRecords(b, depth).Some?
    ensures ReadRecords(b + c, depth) == Then(ReadRecords(b, depth).value, ReadRecords(c, depth))
    decreases |b|
  {
    if b == [] {
      assert b + c == c;
      assert ReadRecords(c, depth).Some? ==> [] + ReadRecords(c, depth).value == ReadRecords(c, depth).value;
    } else {
      ReadRecordExtend(b, c, depth);
      ReadRecordsConcat(b[ReadRecord(b, depth).value.1..], c, depth);
      ReadRecordsConcatStep(b, c, depth);
    }
  }

  function Then(rs: seq<Record>, more: Option<seq<Record>>): Option<seq<Record>> {
    match more
    case None => None
    case Some(ss) => Some(rs + ss)
  }

  lemma {:induction false} ReadRecordsConcatStep(b: Bytes, c: Bytes, depth: nat)
    requires b != [] && ReadRecords(b, depth).Some?
    requires ReadRecord(b, depth).Some? && ReadRecord(b + c, depth) == ReadRecord(b, depth)
    requires var tail := b[ReadRecord(b, depth).value.1..];
             && ReadRecords(tail, depth).Some?
             && ReadRecords(tail + c, depth) == Then(ReadRecords(tail, depth).value, ReadRecords(c, depth))
    ensures ReadRecords(b + c, depth) == Then(ReadRecords(b, depth).value, ReadRecords(c, depth))
  {
    hide ReadRecord, ReadRecords;
    var (f, k) := ReadRecord(b, depth).value;
    var bc, tail := b + c, b[k..];
    ReadRecordsStep(b, f, k, depth);
    ReadRecordsStep(bc, f, k, depth);
    assert bc[k..] == tail + c;
    if ReadRecords(c, depth).Some? {
      var rest, rs := ReadRecords(tail, depth).value, ReadRecords(c, depth).value;
      assert [f] + (rest + rs) == ([f] + rest) + rs;
    }
  }

  lemma {:induction false} WriteRecordsConcat(rs: seq<Record>, ss: seq<Record>)
    ensures WriteRecords(rs + ss) == WriteRecords(rs) + WriteRecords(ss)
  {
    if rs == [] {
      assert rs + ss == ss;
    } else {
      assert (rs + ss)[1..] == rs[1..] + ss;
      WriteRecordsConcat(rs[1..], ss);
    }
  }

  // ------------------------------------------------------------------ sizes

  lemma {:induction false} RecordSizeExact(r: Record)
    ensures RecordSize(r) == |WriteRecord(r)|
    decreases r, 1
  {
    hide EncodeVarint, VarintSize, LE32;
    VarintSizeExact(8 * r.num + WireType(r));
    match r {
      case Varint(_, v) => VarintSizeExact(v);
      case Len(_, data) => VarintSizeExact(|data|);
      case Group(num, fields) =>
        VarintSizeExact(8 * num + 4);
        RecordsSizeExact(fields);
      case _ =>
    }
  }

  lemma {:induction false} RecordsSizeExact(rs: seq<Record>)
    ensures RecordsSize(rs) == |WriteRecords(rs)|
    decreases rs, 2
  {
    if rs != [] {
      RecordSizeExact(rs[0]);
      RecordsSizeExact(rs[1..]);
    }
  }
}
