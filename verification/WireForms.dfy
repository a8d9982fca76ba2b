/**
  The wire format byte by byte (Protocol Buffers Encoding guide: "Base 128
  Varints", "Message Structure", "Groups"; section 4 of RFC 3629 for UTF-8),
  written without the functions of Wire and Records that it is compared with.
 */
module WireForms {
  import opened Wire
  import opened Records

  // ---------------------------------------------------------------- varints

  type Seven = n: int | 0 <= n < 128

  // Groups of seven bits as bytes, low group first, where the top bit says that
  // more follow; and the number they are the digits of.
  function GroupBytes(gs: seq<Seven>): (b: Bytes)
    ensures |b| == |gs|
  {
    if |gs| <= 1 then gs else [gs[0] as int + 128] + GroupBytes(gs[1..])
  }

  function GroupValue(gs: seq<Seven>): nat {
    if gs == [] then 0 else gs[0] + 128 * GroupValue(gs[1..])
  }

  // The encoding of a number is the shortest way to write it in groups.
  lemma {:induction false} EncodedGroups(n: nat, gs: seq<Seven>)
    requires gs != []
    ensures EncodeVarint(n) == GroupBytes(gs) <==>
            GroupValue(gs) == n && (|gs| == 1 || gs[|gs| - 1] != 0)
    decreases |gs|
  {
    if |gs| == 1 {
      assert gs[1..] == [] && GroupValue(gs) == gs[0];
    } else {
      var tail := gs[1..];
      assert GroupBytes(gs)[0] == gs[0] as int + 128 && GroupBytes(gs)[1..] == GroupBytes(tail);
      PositiveGroups(tail);
      if n >= 128 {
        EncodedGroups(n / 128, tail);
        assert EncodeVarint(n)[0] == 128 + n % 128 && EncodeVarint(n)[1..] == EncodeVarint(n / 128);
      }
    }
  }

  lemma {:induction false} PositiveGroups(gs: seq<Seven>)
    requires gs != []
    ensures gs[|gs| - 1] != 0 ==> GroupValue(gs) > 0
  {
    if |gs| > 1 {
      PositiveGroups(gs[1..]);
    }
  }

  lemma {:induction false} RawVarintOfGroups(gs: seq<Seven>, rest: Bytes, max: nat)
    requires gs != []
    ensures RawVarint(GroupBytes(gs) + rest, max) == if |gs| <= max then Some((GroupValue(gs), |gs|)) else None
    decreases |gs|
  {
    var b := GroupBytes(gs) + rest;
    if |gs| > 1 {
      assert b[1..] == GroupBytes(gs[1..]) + rest;
      if max > 0 {
        RawVarintOfGroups(gs[1..], rest, max - 1);
      }
    } else {
      assert gs[1..] == [] && GroupValue(gs) == gs[0];
    }
  }

  // Any varint, of the shortest form or not: ten bytes at most, of which 64 or
  // 32 bits are kept, and five for a tag or a length.
  lemma {:induction false} VarintOfGroups(gs: seq<Seven>, rest: Bytes)
    requires gs != []
    ensures ReadVarint64(GroupBytes(gs) + rest) ==
            if |gs| <= 10 then Some((GroupValue(gs) % 18446744073709551616, |gs|)) else None
    ensures ReadVarint32(GroupBytes(gs) + rest) ==
            if |gs| <= 10 then Some((GroupValue(gs) % 4294967296, |gs|)) else None
    ensures ReadTag(GroupBytes(gs) + rest) ==
            if |gs| <= 5 then Some((GroupValue(gs) % 4294967296, |gs|)) else None
    ensures ReadSize(GroupBytes(gs) + rest) ==
            if |gs| <= 5 && GroupValue(gs) <= 2147483631 then Some((GroupValue(gs), |gs|)) else None
  {
    RawVarintOfGroups(gs, rest, 10);
    RawVarintOfGroups(gs, rest, 5);
  }

  // A varint that the input breaks off is no varint.
  lemma {:induction false} OpenVarint(b: Bytes, max: nat)
    requires forall i :: 0 <= i < |b| ==> b[i] >= 128
    ensures RawVarint(b, max).None?
  {
    if b != [] && max > 0 {
      OpenVarint(b[1..], max - 1);
    }
  }

  // ------------------------------------------------------ fixed and signed

  // Low byte first.
  function Number32(b: Bytes): int
    requires |b| == 4
  {
    var b0: int, b1: int, b2: int, b3: int := b[0], b[1], b[2], b[3];
    b0 + 256 * b1 + 65536 * b2 + 16777216 * b3
  }

  lemma {:induction false} FixedBytes(n: U32, b: Bytes)
    requires |b| == 4
    ensures LE32(n) == b <==> n == Number32(b)
    ensures FromLE32(b) == Number32(b)
  {
    FixedRoundTrip(n, 0);
    if n == Number32(b) {
      var b0: int, b1: int, b2: int, b3: int := b[0], b[1], b[2], b[3];
      assert n / 16777216 == b3 && n / 65536 == b2 + 256 * b3 && n / 256 == b1 + 256 * b2 + 65536 * b3;
      assert (b1 + 256 * b2 + 65536 * b3) % 256 == b1 && (b2 + 256 * b3) % 256 == b2;
      assert n % 256 == b0;
      assert LE32(n) == [b[0], b[1], b[2], b[3]] == b;
    }
  }

  lemma {:induction false} LongFixedBytes(m: U64, b: Bytes)
    requires |b| == 8
    ensures LE64(m) == b <==> m == Number32(b[..4]) + 4294967296 * Number32(b[4..])
    ensures FromLE64(b) == Number32(b[..4]) + 4294967296 * Number32(b[4..])
  {
    hide LE32, FromLE32;
    FixedBytes(m % TWO_32, b[..4]);
    FixedBytes(m / TWO_32, b[4..]);
    assert LE64(m)[..4] == LE32(m % TWO_32) && LE64(m)[4..] == LE32(m / TWO_32);
    assert b == b[..4] + b[4..];
    assert 0 <= Number32(b[..4]) < TWO_32;
  }

  // Two's complement: equal modulo 2^64 and 2^32.
  lemma {:induction false} TwosComplement(n: I32, v: nat)
    ensures (SignExtend(n) - n) % 18446744073709551616 == 0
    ensures (v - TruncateToI32(v)) % 4294967296 == 0
  {
    assert v == TWO_32 * (v / TWO_32) + v % TWO_32;
    assert v - TruncateToI32(v) == TWO_32 * (v / TWO_32) || v - TruncateToI32(v) == TWO_32 * (v / TWO_32 + 1);
  }

  // ---------------------------------------------------------------- records

  // Wire types 0, 1, 2, 3 with 4, and 5.
  lemma {:induction false} RecordBytes(num: FieldNum, v: U64, n: U32, data: Bytes, fields: seq<Record>)
    ensures WriteRecord(Varint(num, v)) == EncodeVarint(8 * num) + EncodeVarint(v)
    ensures WriteRecord(Fixed64(num, v)) == EncodeVarint(8 * num + 1) + LE64(v)
    ensures WriteRecord(Len(num, data)) == EncodeVarint(8 * num + 2) + EncodeVarint(|data|) + data
    ensures WriteRecord(Group(num, fields)) ==
            EncodeVarint(8 * num + 3) + WriteRecords(fields) + EncodeVarint(8 * num + 4)
    ensures WriteRecord(Fixed32(num, n)) == EncodeVarint(8 * num + 5) + LE32(n)
  {
    hide EncodeVarint, LE32, LE64;
    var t := EncodeVarint(8 * num + 3);
    assert t + (WriteRecords(fields) + EncodeVarint(8 * num + 4))
        == t + WriteRecords(fields) + EncodeVarint(8 * num + 4);
    var u := EncodeVarint(8 * num + 2);
    assert u + (EncodeVarint(|data|) + data) == u + EncodeVarint(|data|) + data;
  }

  // Any other tag, and field number 0, end a message early.
  lemma {:induction false} RejectedTag(b: Bytes, depth: nat)
    requires ReadTag(b).Some? && (ReadTag(b).value.0 % 8 in {4, 6, 7} || ReadTag(b).value.0 < 8)
    ensures ReadRecord(b, depth).None?
  {
  }

  // A record that breaks off is no record.
  lemma {:induction false} Truncated(r: Record, i: nat, depth: nat)
    requires i < |WriteRecord(r)|
    ensures ReadRecord(WriteRecord(r)[..i], depth).None?
  {
    hide ReadRecord, WriteRecord;
    var b := WriteRecord(r);
    assert b == b[..i] + b[i..] == b + [];
    ReadRecordOfWrite(r, [], depth);
    if ReadRecord(b[..i], depth).Some? {
      ReadRecordExtend(b[..i], b[i..], depth);
    }
  }

  // A group must be closed by its own end tag.
  lemma {:induction false} ClosedByOther(num: FieldNum, other: FieldNum, fs: seq<Record>, rest: Bytes, depth: nat)
    requires num != other
    ensures ReadGroup(num, WriteRecords(fs) + Tag(other, 4) + rest, depth).None?
    decreases |fs|
  {
    hide ReadField, ReadTag, WireType, WriteRecord, WritePayload, EncodeVarint;
    var b := WriteRecords(fs) + Tag(other, 4) + rest;
    if fs == [] {
      assert b == Tag(other, 4) + rest;
      ReadTagOfWrite(other, 4, rest);
    } else {
      var f, after := fs[0], WriteRecords(fs[1..]) + Tag(other, 4) + rest;
      GroupLayout(other, fs, rest);
      TagOfRecord(f);
      var t := Tag(f.num, WireType(f));
      ReadTagOfWrite(f.num, WireType(f), WritePayload(f) + after);
      assert b[|t|..] == WritePayload(f) + after;
      assert b[|t| + |WritePayload(f)|..] == after;
      ReadFieldOfWrite(f, after, depth);
      ClosedByOther(num, other, fs[1..], rest, depth);
    }
  }

  // Length limit of a field, and k groups one inside the other.
  lemma {:induction false} LengthLimit(num: FieldNum, data: Bytes, depth: nat)
    ensures ReadRecords(WriteRecord(Len(num, data)), depth) ==
            if |data| <= 2147483631 then Some([Len(num, data)]) else None
  {
    hide WriteRecord;
    var rs := [Len(num, data)];
    assert rs[1..] == [] && WriteRecords(rs) == WriteRecord(rs[0]);
    ReadRecordsOfWrite(rs, depth);
    assert rs[0] in rs;
  }

  function Groups(num: FieldNum, k: nat): seq<Record> {
    if k == 0 then [] else [Group(num, Groups(num, k - 1))]
  }

  lemma {:induction false} GroupsFit(num: FieldNum, k: nat, depth: nat)
    ensures AllFit(Groups(num, k), depth) <==> k <= depth
  {
    if k > 0 {
      var g := Groups(num, k)[0];
      assert g in Groups(num, k);
      if depth > 0 {
        GroupsFit(num, k - 1, depth - 1);
      }
    }
  }

  // ------------------------------------------------------------------ UTF-8

  // The characters of Unicode: no surrogates.
  type Scalar = c: int | 0 <= c < 0xD800 || 0xE000 <= c < 0x11_0000

  // 7, 11, 16 or 21 bits in one to four bytes.
  function EncodeScalar(c: Scalar): (b: Bytes)
    ensures 1 <= |b| <= 4
  {
    if c < 0x80 then [c]
    else if c < 0x800 then [0xC0 + c / 0x40, 0x80 + c % 0x40]
    else if c < 0x1_0000 then [0xE0 + c / 0x1000, 0x80 + c / 0x40 % 0x40, 0x80 + c % 0x40]
    else [0xF0 + c / 0x4_0000, 0x80 + c / 0x1000 % 0x40, 0x80 + c / 0x40 % 0x40, 0x80 + c % 0x40]
  }

  function EncodeUtf8(cs: seq<Scalar>): Bytes {
    if cs == [] then [] else EncodeScalar(cs[0]) + EncodeUtf8(cs[1..])
  }

  lemma {:induction false} LengthOfScalar(c: Scalar, rest: Bytes)
    ensures Utf8CharLength(EncodeScalar(c) + rest) == |EncodeScalar(c)|
  {
    var b := EncodeScalar(c) + rest;
    assert forall i :: 0 <= i < |EncodeScalar(c)| ==> b[i] == EncodeScalar(c)[i];
    if 0x800 <= c < 0x1_0000 {
      ThreeBytes(c);
    } else if c >= 0x1_0000 {
      FourBytes(c);
    }
  }

  lemma {:induction false} ThreeBytes(c: Scalar)
    requires 0x800 <= c < 0x1_0000
    ensures 0 <= c / 0x1000 < 16
    ensures c / 0x1000 == 0 ==> c / 0x40 % 0x40 >= 0x20
    ensures c / 0x1000 == 0xD ==> c / 0x40 % 0x40 < 0x20
  {
    assert c / 0x1000 == c / 0x40 / 0x40;
    assert c / 0x40 == 0x40 * (c / 0x1000) + c / 0x40 % 0x40;
  }

  lemma {:induction false} FourBytes(c: Scalar)
    requires 0x1_0000 <= c
    ensures 0 <= c / 0x4_0000 < 5
    ensures c / 0x4_0000 == 0 ==> c / 0x1000 % 0x40 >= 0x10
    ensures c / 0x4_0000 == 4 ==> c / 0x1000 % 0x40 < 0x10
  {
    assert c / 0x4_0000 == c / 0x1000 / 0x40;
    assert c / 0x1000 == 0x40 * (c / 0x4_0000) + c / 0x1000 % 0x40;
  }

  // The character at the start of b.
  lemma {:induction false} ScalarAt(b: Bytes) returns (c: Scalar)
    requires Utf8CharLength(b) > 0
    ensures EncodeScalar(c) == b[..Utf8CharLength(b)]
  {
    var k := Utf8CharLength(b);
    if k == 1 {
      c := b[0];
    } else if k == 2 {
      c := (b[0] as int - 0xC0) * 0x40 + (b[1] as int - 0x80);
      assert b[..2] == [b[0], b[1]];
    } else if k == 3 {
      c := ThreeBytesOf(b[0], b[1], b[2]);
      assert b[..3] == [b[0], b[1], b[2]];
    } else {
      c := FourBytesOf(b[0], b[1], b[2], b[3]);
      assert b[..4] == [b[0], b[1], b[2], b[3]];
    }
  }

  lemma {:induction false} ThreeBytesOf(b0: Byte, b1: Byte, b2: Byte) returns (c: Scalar)
    requires 0xE0 <= b0 <= 0xEF && Continuation(b1) && Continuation(b2)
    requires (b0 == 0xE0 ==> 0xA0 <= b1) && (b0 == 0xED ==> b1 <= 0x9F)
    ensures EncodeScalar(c) == [b0, b1, b2]
  {
    var h, m, l := b0 - 0xE0, b1 - 0x80, b2 - 0x80;
    var hm := h * 0x40 + m;
    c := hm * 0x40 + l;
    assert c / 0x40 == hm && c % 0x40 == l;
    assert hm / 0x40 == h && hm % 0x40 == m;
    assert c / 0x1000 == c / 0x40 / 0x40;
  }

  lemma {:induction false} FourBytesOf(b0: Byte, b1: Byte, b2: Byte, b3: Byte) returns (c: Scalar)
    requires 0xF0 <= b0 <= 0xF4 && Continuation(b1) && Continuation(b2) && Continuation(b3)
    requires (b0 == 0xF0 ==> 0x90 <= b1) && (b0 == 0xF4 ==> b1 <= 0x8F)
    ensures EncodeScalar(c) == [b0, b1, b2, b3]
  {
    var h, m, n, l := b0 - 0xF0, b1 - 0x80, b2 - 0x80, b3 - 0x80;
    var hm := h * 0x40 + m;
    var hmn := hm * 0x40 + n;
    c := hmn * 0x40 + l;
    assert c / 0x40 == hmn && c % 0x40 == l;
    assert hmn / 0x40 == hm && hmn % 0x40 == n;
    assert hm / 0x40 == h && hm % 0x40 == m;
    assert c / 0x1000 == c / 0x40 / 0x40;
    assert c / 0x4_0000 == c / 0x1000 / 0x40;
  }

  // What a string field accepts: exactly the encodings of characters, each in
  // its shortest form.
  lemma {:induction false} Utf8Exactly(b: Bytes)
    ensures ValidUtf8(b) <==> exists cs :: EncodeUtf8(cs) == b
  {
    if ValidUtf8(b) {
      var cs := Characters(b);
    }
    forall cs | EncodeUtf8(cs) == b ensures ValidUtf8(b) {
      EncodedIsValid(cs);
    }
  }

  lemma {:induction false} Characters(b: Bytes) returns (cs: seq<Scalar>)
    requires ValidUtf8(b)
    ensures EncodeUtf8(cs) == b
    decreases |b|
  {
    if b == [] {
      cs := [];
    } else {
      var k := Utf8CharLength(b);
      var c := ScalarAt(b);
      var tail := Characters(b[k..]);
      cs := [c] + tail;
      assert cs[1..] == tail && b == b[..k] + b[k..];
    }
  }

  lemma {:induction false} EncodedIsValid(cs: seq<Scalar>)
    ensures ValidUtf8(EncodeUtf8(cs))
  {
    if cs != [] {
      var e, rest := EncodeScalar(cs[0]), EncodeUtf8(cs[1..]);
      LengthOfScalar(cs[0], rest);
      assert (e + rest)[|e|..] == rest;
      EncodedIsValid(cs[1..]);
    }
  }

  // A name of one Hangul syllable is three bytes.
  lemma {:induction false} HangulExample()
    ensures ValidUtf8([234, 176, 128]) && !ValidUtf8([234, 176]) && !ValidUtf8([237, 160, 128])
  {
    EncodedIsValid([0xAC00]);
    assert [0xAC00][1..] == [];
    assert EncodeUtf8([0xAC00]) == [234, 176, 128];
  }
}
