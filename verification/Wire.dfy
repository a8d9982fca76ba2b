/**
  The primitives of the Protocol Buffers wire format on which the generated
  message code of Protocol/Struct.pb.cc and Protocol/Protocol.pb.cc is built
  (Protocol Buffers Encoding guide: "Base 128 Varints", "Message Structure"),
  and UTF-8 validity (section 4 of RFC 3629).

  Input is a bounded byte sequence: a read past its end fails.
 */
module Wire {
  const TWO_16: int := 0x1_0000
  const TWO_31: int := 0x8000_0000
  const TWO_32: int := 0x1_0000_0000
  const TWO_64: int := 0x1_0000_0000_0000_0000
  const INT_MAX: int := TWO_31 - 1

  // The parser keeps INT_MAX - 16 as the largest length it accepts for a
  // length-delimited record (16 is the library's read-ahead).
  const MAX_LENGTH: int := INT_MAX - 16

  // Nesting allowed by default for sub-messages and groups.
  const DEFAULT_DEPTH: nat := 100

  type Byte = b: int | 0 <= b < 256
  type Bytes = seq<Byte>
  type U32 = n: int | 0 <= n < 0x1_0000_0000
  type U64 = n: int | 0 <= n < 0x1_0000_0000_0000_0000
  type I32 = n: int | -0x8000_0000 <= n < 0x8000_0000
  type FieldNum = n: int | 1 <= n < 0x2000_0000 witness 1

  datatype Option<+T> = None | Some(value: T) {
    function GetOr(default: T): T {
      match this
      case None => default
      case Some(v) => v
    }
  }

  // ---------------------------------------------------------------- varints

  function EncodeVarint(n: nat): (b: Bytes)
    ensures |b| >= 1
  {
    if n < 128 then [n] else [128 + n % 128] + EncodeVarint(n / 128)
  }

  // Value and length of the varint at the start of b, at most max bytes long.
  function RawVarint(b: Bytes, max: nat): (r: Option<(nat, nat)>)
    ensures r.Some? ==> 1 <= r.value.1 <= |b| && r.value.1 <= max
  {
    if b == [] || max == 0 then None
    else if b[0] < 128 then Some((b[0], 1))
    else
      match RawVarint(b[1..], max - 1)
      case None => None
      case Some((v, k)) => Some((b[0] - 128 + 128 * v, k + 1))
  }

  // ReadVarint64, ReadVarint32, ReadTag and ReadSize of the parse loops.
  function ReadVarint64(b: Bytes): (r: Option<(U64, nat)>)
    ensures r.Some? ==> 1 <= r.value.1 <= |b|
  {
    match RawVarint(b, 10)
    case None => None
    case Some((v, k)) => Some((v % TWO_64, k))
  }

  function ReadVarint32(b: Bytes): (r: Option<(U32, nat)>)
    ensures r.Some? ==> 1 <= r.value.1 <= |b|
  {
    match RawVarint(b, 10)
    case None => None
    case Some((v, k)) => Some((v % TWO_32, k))
  }

  function ReadTag(b: Bytes): (r: Option<(U32, nat)>)
    ensures r.Some? ==> 1 <= r.value.1 <= |b|
  {
    match RawVarint(b, 5)
    case None => None
    case Some((v, k)) => Some((v % TWO_32, k))
  }

  function ReadSize(b: Bytes): (r: Option<(nat, nat)>)
    ensures r.Some? ==> 1 <= r.value.1 <= |b| && r.value.0 <= MAX_LENGTH
  {
    match RawVarint(b, 5)
    case None => None
    case Some((v, k)) => if v <= MAX_LENGTH then Some((v, k)) else None
  }

  // A varint read back from its encoding: the limit on its length is the only
  // way to fail.
  lemma {:induction false} RawVarintOfEncode(n: nat, rest: Bytes, max: nat)
    ensures RawVarint(EncodeVarint(n) + rest, max) ==
            if |EncodeVarint(n)| <= max then Some((n, |EncodeVarint(n)|)) else None
  {
    var b := EncodeVarint(n) + rest;
    if n >= 128 && max > 0 {
      assert b[1..] == EncodeVarint(n / 128) + rest;
      RawVarintOfEncode(n / 128, rest, max - 1);
    }
  }

  function Pow128(k: nat): (p: nat)
    ensures p >= 1
  {
    if k == 0 then 1 else 128 * Pow128(k - 1)
  }

  lemma {:induction false} EncodeLength(n: nat, k: nat)
    requires k >= 1
    ensures |EncodeVarint(n)| <= k <==> n < Pow128(k)
  {
    if n < 128 {
      assert Pow128(k) == 128 * Pow128(k - 1);
    } else if k > 1 {
      EncodeLength(n / 128, k - 1);
      assert Pow128(k) == 128 * Pow128(k - 1);
    }
  }

  lemma {:induction false} EncodeLengthBounds(n: nat)
    ensures n < 0x80 <==> |EncodeVarint(n)| <= 1
    ensures n < 0x4000 <==> |EncodeVarint(n)| <= 2
    ensures n < 0x8_0000_0000 <==> |EncodeVarint(n)| <= 5
    ensures n < TWO_64 ==> |EncodeVarint(n)| <= 10
  {
    EncodeLength(n, 1);
    EncodeLength(n, 2);
    EncodeLength(n, 5);
    EncodeLength(n, 10);
    assert Pow128(1) == 0x80;
    assert Pow128(2) == 0x4000;
    assert Pow128(3) == 0x20_0000;
    assert Pow128(5) == 0x8_0000_0000;
    assert Pow128(7) == 0x2_0000_0000_0000;
    assert Pow128(9) == 0x8000_0000_0000_0000;
    assert Pow128(10) == 0x40_0000_0000_0000_0000;
  }

  lemma {:induction false} EncodeLengthTen(n: nat)
    requires 0x8000_0000_0000_0000 <= n < TWO_64
    ensures |EncodeVarint(n)| == 10
  {
    EncodeLengthBounds(n);
    EncodeLength(n, 9);
    assert Pow128(3) == 0x20_0000;
    assert Pow128(6) == 0x400_0000_0000;
    assert Pow128(9) == 0x8000_0000_0000_0000;
  }

  // ----------------------------------------------------------- varint sizes

  function Log2Floor(n: nat): nat {
    if n < 2 then 0 else 1 + Log2Floor(n / 2)
  }

  // Bytes of the varint of n, counted from the position of its top bit.
  function VarintSize(n: nat): nat {
    Log2Floor(n) / 7 + 1
  }

  // The same as the library computes it, with a multiplication for the
  // division.
  function VarintSize64(n: U64): nat {
    (Log2Floor(if n == 0 then 1 else n) * 9 + 73) / 64
  }

  function VarintSizeSignExtended(n: I32): nat {
    VarintSize(SignExtend(n))
  }

  lemma {:induction false} Log2Shift7(n: nat)
    requires n >= 128
    ensures Log2Floor(n) == 7 + Log2Floor(n / 128)
  {
    Log2Shift3(n);
    Log2Shift3(n / 8);
    assert n / 8 / 8 == n / 64 && n / 64 / 2 == n / 128;
    assert Log2Floor(n / 64) == 1 + Log2Floor(n / 128);
  }

  lemma {:induction false} Log2Shift3(n: nat)
    requires n >= 8
    ensures Log2Floor(n) == 3 + Log2Floor(n / 8)
  {
    assert n / 2 / 2 == n / 4 && n / 4 / 2 == n / 8;
    assert Log2Floor(n / 2) == 1 + Log2Floor(n / 4);
    assert Log2Floor(n / 4) == 1 + Log2Floor(n / 8);
  }

  lemma {:induction false} Log2Small(n: nat)
    requires n < 128
    ensures Log2Floor(n) < 7
  {
    assert n / 2 < 64 && n / 4 < 32 && n / 8 < 16 && n / 16 < 8 && n / 32 < 4 && n / 64 < 2;
    assert n / 2 / 2 == n / 4 && n / 4 / 2 == n / 8 && n / 8 / 2 == n / 16;
    assert n / 16 / 2 == n / 32 && n / 32 / 2 == n / 64;
    assert Log2Floor(n / 64) == 0;
    assert Log2Floor(n / 32) <= 1;
    assert Log2Floor(n / 16) <= 2;
    assert Log2Floor(n / 8) <= 3;
    assert Log2Floor(n / 4) <= 4;
    assert Log2Floor(n / 2) <= 5;
  }

  // The size formula counts exactly the bytes of the encoding.
  lemma {:induction false} VarintSizeExact(n: nat)
    ensures VarintSize(n) == |EncodeVarint(n)|
  {
    if n < 128 {
      Log2Small(n);
    } else {
      Log2Shift7(n);
      VarintSizeExact(n / 128);
    }
  }

  lemma {:induction false} VarintSize64Exact(n: U64)
    ensures VarintSize64(n) == VarintSize(n) == |EncodeVarint(n)|
  {
    hide EncodeVarint;
    VarintSizeExact(n);
    assert n == 0 ==> Log2Floor(1) == Log2Floor(0);
    assert Pow128(3) == 0x20_0000;
    assert Pow128(6) == 0x400_0000_0000;
    assert Pow128(9) == 0x8000_0000_0000_0000;
    Log2Bound(n, 9);
    SizeFormula(Log2Floor(n));
  }

  lemma {:induction false} Log2Bound(n: nat, k: nat)
    requires n < 2 * Pow128(k)
    ensures Log2Floor(n) <= 7 * k
  {
    if n >= 128 {
      Log2Shift7(n);
      assert Pow128(k) == 128 * Pow128(k - 1);
      Log2Bound(n / 128, k - 1);
    } else if k > 0 {
      Log2Small(n);
    }
  }

  lemma {:induction false} SizeFormula(l: nat)
    requires l <= 63
    ensures (l * 9 + 73) / 64 == l / 7 + 1
  {
    var q, r := l / 7, l % 7;
    assert l == 7 * q + r;
    assert l * 9 + 73 == 64 * (q + 1) + (9 - q) + 9 * r;
    assert q <= 9 && (q == 9 ==> r == 0);
    assert 0 <= (9 - q) + 9 * r < 64;
  }

  lemma {:induction false} EncodeLengthMonotone(m: nat, n: nat)
    requires m <= n
    ensures |EncodeVarint(m)| <= |EncodeVarint(n)|
  {
    if m >= 128 {
      EncodeLengthMonotone(m / 128, n / 128);
    }
  }

  // ------------------------------------------------ two's complement, fixed

  // A 32-bit enum value goes on the wire as a 64-bit varint.
  function SignExtend(n: I32): U64 {
    if n < 0 then n + TWO_64 else n
  }

  function TruncateToI32(v: nat): I32 {
    var w := v % TWO_32;
    if w < TWO_31 then w else w - TWO_32
  }

  lemma {:induction false} SignExtendTruncate(n: I32)
    ensures TruncateToI32(SignExtend(n)) == n
    ensures n < 0 ==> VarintSizeSignExtended(n) == 10
    ensures VarintSizeSignExtended(n) == |EncodeVarint(SignExtend(n))|
  {
    hide EncodeVarint, VarintSize;
    VarintSizeExact(SignExtend(n));
    if n < 0 {
      EncodeLengthTen(SignExtend(n));
      TruncateExtended(n);
    }
  }

  lemma {:induction false} TruncateExtended(n: I32)
    requires n < 0
    ensures TruncateToI32(n + TWO_64) == n
  {
    assert n + TWO_64 == TWO_32 * (TWO_32 - 1) + (n + TWO_32);
    assert (n + TWO_64) / TWO_32 == TWO_32 - 1;
  }

  lemma {:induction false} TruncateBelow(v: nat)
    ensures if TruncateToI32(v) < 0 then TWO_31 <= v else TruncateToI32(v) <= v
  {
    assert v == TWO_32 * (v / TWO_32) + v % TWO_32;
  }

  function LE32(n: U32): (b: Bytes)
    ensures |b| == 4
  {
    [n % 256, n / 0x100 % 256, n / 0x1_0000 % 256, n / 0x100_0000]
  }

  function FromLE32(b: Bytes): U32
    requires |b| == 4
  {
    var b0: int, b1: int, b2: int, b3: int := b[0], b[1], b[2], b[3];
    b0 + 0x100 * b1 + 0x1_0000 * b2 + 0x100_0000 * b3
  }

  function LE64(n: U64): (b: Bytes)
    ensures |b| == 8
  {
    LE32(n % TWO_32) + LE32(n / TWO_32)
  }

  function FromLE64(b: Bytes): U64
    requires |b| == 8
  {
    FromLE32(b[..4]) + TWO_32 * FromLE32(b[4..])
  }

  lemma {:induction false} FixedRoundTrip(n: U32, m: U64)
    ensures FromLE32(LE32(n)) == n
    ensures FromLE64(LE64(m)) == m
  {
    assert n / 0x100 / 0x100 == n / 0x1_0000;
    assert n / 0x1_0000 / 0x100 == n / 0x100_0000;
    var lo, hi := m % TWO_32, m / TWO_32;
    assert lo / 0x100 / 0x100 == lo / 0x1_0000 && lo / 0x1_0000 / 0x100 == lo / 0x100_0000;
    assert hi / 0x100 / 0x100 == hi / 0x1_0000 && hi / 0x1_0000 / 0x100 == hi / 0x100_0000;
    assert LE64(m)[..4] == LE32(lo) && LE64(m)[4..] == LE32(hi);
    assert FromLE32(LE32(lo)) == lo && FromLE32(LE32(hi)) == hi;
  }

  // ------------------------------------------------------------------ UTF-8

  predicate Continuation(b: Byte) {
    0x80 <= b <= 0xBF
  }

  // Number of bytes of the character at the start of b, 0 if there is none.
  function Utf8CharLength(b: Bytes): (n: nat)
    ensures n <= |b|
  {
    if |b| >= 1 && b[0] <= 0x7F then 1
    else if |b| >= 2 && 0xC2 <= b[0] <= 0xDF && Continuation(b[1]) then 2
    else if |b| >= 3 && 0xE0 <= b[0] <= 0xEF && Continuation(b[1]) && Continuation(b[2])
         && (b[0] == 0xE0 ==> 0xA0 <= b[1]) && (b[0] == 0xED ==> b[1] <= 0x9F) then 3
    else if |b| >= 4 && 0xF0 <= b[0] <= 0xF4 && Continuation(b[1]) && Continuation(b[2]) && Continuation(b[3])
         && (b[0] == 0xF0 ==> 0x90 <= b[1]) && (b[0] == 0xF4 ==> b[1] <= 0x8F) then 4
    else 0
  }

  predicate ValidUtf8(b: Bytes) {
    b == [] || (Utf8CharLength(b) > 0 && ValidUtf8(b[Utf8CharLength(b)..]))
  }
}
