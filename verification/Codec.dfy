/**
  What the generated code of a message means, for any message type: a schema
  lists the fields, a message is a value, parsing folds the records of the
  input into it, and serializing writes its canonical records.

  Floats are their 32 bits, bools are 0 or 1, and an absent scalar is the same
  as its default, as in the generated code.
 */
module Codec {
  import opened Wire
  import opened Records

  datatype Kind =
    | UInt64 | UInt32 | Bool | Enum | Float | String
    | Message(sub: Schema)
    | Repeated(sub: Schema)
    | Packed

  datatype FieldDesc = FieldDesc(num: FieldNum, kind: Kind)

  datatype Schema = Schema(fields: seq<FieldDesc>)

  datatype Value =
    | Num(n: int)
    | Str(s: Bytes)
    | Sub(m: Option<Msg>)
    | Rep(ms: seq<Msg>)
    | Ints(ns: seq<U64>)

  // Field values in schema order, and the unknown fields in wire order.
  datatype Msg = Msg(vals: seq<Value>, unknown: seq<Record>)

  // Field numbers are distinct and have one-byte tags: the generated size code
  // counts 1 for each tag and the fast loop peeks at one byte.
  ghost predicate ValidSchema(s: Schema) {
    && (forall i, j :: 0 <= i < j < |s.fields| ==> s.fields[i].num != s.fields[j].num)
    && (forall i :: 0 <= i < |s.fields| ==> s.fields[i].num <= 15 && ValidKind(s.fields[i].kind))
  }

  ghost predicate ValidKind(k: Kind) {
    match k
    case Message(sub) => ValidSchema(sub)
    case Repeated(sub) => ValidSchema(sub)
    case _ => true
  }

  // ------------------------------------------------------------------ types

  predicate Shaped(s: Schema, m: Msg) {
    |m.vals| == |s.fields| &&
    forall i :: 0 <= i < |s.fields| ==> ShapedVal(s.fields[i].kind, m.vals[i])
  }

  predicate ShapedVal(k: Kind, v: Value) {
    match k
    case UInt64 => v.Num? && 0 <= v.n < TWO_64
    case UInt32 => v.Num? && 0 <= v.n < TWO_32
    case Bool => v.Num? && 0 <= v.n < 2
    case Enum => v.Num? && -TWO_31 <= v.n < TWO_31
    case Float => v.Num? && 0 <= v.n < TWO_32
    case String => v.Str?
    case Message(sub) => v.Sub? && (v.m.Some? ==> Shaped(sub, v.m.value))
    case Repeated(sub) => v.Rep? && forall x | x in v.ms :: Shaped(sub, x)
    case Packed => v.Ints?
  }

  function Default(s: Schema): (m: Msg)
    ensures Shaped(s, m)
  {
    Msg(seq(|s.fields|, i requires 0 <= i < |s.fields| => DefaultVal(s.fields[i].kind)), [])
  }

  function DefaultVal(k: Kind): (v: Value)
    ensures ShapedVal(k, v)
  {
    match k
    case String => Str([])
    case Message(_) => Sub(None)
    case Repeated(_) => Rep([])
    case Packed => Ints([])
    case _ => Num(0)
  }

  // ---------------------------------------------------------------- parsing

  function Find(s: Schema, num: nat): (r: Option<nat>)
    ensures r.Some? ==> r.value < |s.fields| && s.fields[r.value].num == num
    ensures r.None? ==> forall i :: 0 <= i < |s.fields| ==> s.fields[i].num != num
  {
    FindFrom(s, num, 0)
  }

  function FindFrom(s: Schema, num: nat, i: nat): (r: Option<nat>)
    requires i <= |s.fields|
    ensures r.Some? ==> i <= r.value < |s.fields| && s.fields[r.value].num == num
    ensures r.None? ==> forall j :: i <= j < |s.fields| ==> s.fields[j].num != num
    decreases |s.fields| - i
  {
    if i == |s.fields| then None
    else if s.fields[i].num == num then Some(i)
    else FindFrom(s, num, i + 1)
  }

  // The tag the generated switch accepts for a field of this kind.
  predicate WireMatches(k: Kind, r: Record) {
    match k
    case Float => r.Fixed32?
    case String => r.Len?
    case Message(_) => r.Len?
    case Repeated(_) => r.Len?
    case Packed => r.Len? || r.Varint?
    case _ => r.Varint?
  }

  // Index of the field a record is for; None sends it to the unknown fields.
  function Target(s: Schema, r: Record): (t: Option<nat>)
    ensures t.Some? ==> t.value < |s.fields| && s.fields[t.value].num == r.num
                        && WireMatches(s.fields[t.value].kind, r)
  {
    match Find(s, r.num)
    case None => None
    case Some(i) => if WireMatches(s.fields[i].kind, r) then Some(i) else None
  }

  function DecodePacked(b: Bytes): Option<seq<U64>>
    decreases |b|
  {
    if b == [] then Some([])
    else
      match ReadVarint64(b)
      case None => None
      case Some((v, k)) =>
        match DecodePacked(b[k..])
        case None => None
        case Some(vs) => Some([v] + vs)
  }

  function ApplyVal(k: Kind, v: Value, r: Record, depth: nat): (w: Option<Value>)
    requires ShapedVal(k, v) && WireMatches(k, r)
    ensures w.Some? ==> ShapedVal(k, w.value)
    decreases k, 0
  {
    match k
    case UInt64 => Some(Num(r.v))
    case UInt32 => Some(Num(r.v % TWO_32))
    case Bool => Some(Num(if r.v != 0 then 1 else 0))
    case Enum => Some(Num(TruncateToI32(r.v)))
    case Float => Some(Num(r.bits32))
    case String => if ValidUtf8(r.data) then Some(Str(r.data)) else None
    case Message(sub) =>
      (match ParseNested(sub, v.m.GetOr(Default(sub)), r.data, depth)
       case None => None
       case Some(x) => Some(Sub(Some(x))))
    case Repeated(sub) =>
      (match ParseNested(sub, Default(sub), r.data, depth)
       case None => None
       case Some(x) => Some(Rep(v.ms + [x])))
    case Packed =>
      if r.Varint? then Some(Ints(v.ns + [r.v]))
      else
        match DecodePacked(r.data)
        case None => None
        case Some(vs) => Some(Ints(v.ns + vs))
  }

  function ParseNested(s: Schema, m: Msg, b: Bytes, depth: nat): (r: Option<Msg>)
    requires Shaped(s, m)
    ensures r.Some? ==> Shaped(s, r.value)
    decreases s, 3
  {
    if depth == 0 then None else Parse(s, m, b, depth - 1)
  }

  function Apply(s: Schema, m: Msg, r: Record, depth: nat): (w: Option<Msg>)
    requires Shaped(s, m)
    ensures w.Some? ==> Shaped(s, w.value)
    decreases s, 0
  {
    match Target(s, r)
    case None => Some(m.(unknown := m.unknown + [r]))
    case Some(i) =>
      match ApplyVal(s.fields[i].kind, m.vals[i], r, depth)
      case None => None
      case Some(v) => Some(m.(vals := m.vals[i := v]))
  }

  function Fold(s: Schema, m: Msg, rs: seq<Record>, depth: nat): (w: Option<Msg>)
    requires Shaped(s, m)
    ensures w.Some? ==> Shaped(s, w.value)
    decreases s, 1, |rs|
  {
    if rs == [] then Some(m)
    else
      match Apply(s, m, rs[0], depth)
      case None => None
      case Some(m') => Fold(s, m', rs[1..], depth)
  }

  // Parsing b into m, with depth levels of nesting left.
  function Parse(s: Schema, m: Msg, b: Bytes, depth: nat): (w: Option<Msg>)
    requires Shaped(s, m)
    ensures w.Some? ==> Shaped(s, w.value)
    decreases s, 2
  {
    match ReadRecords(b, depth)
    case None => None
    case Some(rs) => Fold(s, m, rs, depth)
  }

  // ------------------------------------------------------------ serializing

  // The records written for one field; a default value is omitted.
  function ValRecords(num: FieldNum, k: Kind, v: Value): (rs: seq<Record>)
    requires ShapedVal(k, v)
    decreases k, 0
  {
    match k
    case Float => if v.n == 0 then [] else [Fixed32(num, v.n)]
    case Enum => if v.n == 0 then [] else [Varint(num, SignExtend(v.n))]
    case String => if v.s == [] then [] else [Len(num, v.s)]
    case Message(sub) => if v.m.None? then [] else [Len(num, Serialize(sub, v.m.value))]
    case Repeated(sub) => seq(|v.ms|, i requires 0 <= i < |v.ms| => Len(num, Serialize(sub, v.ms[i])))
    case Packed => if v.ns == [] then [] else [Len(num, EncodePacked(v.ns))]
    case _ => if v.n == 0 then [] else [Varint(num, v.n)]
  }

  function EncodePacked(ns: seq<U64>): Bytes {
    if ns == [] then [] else EncodeVarint(ns[0]) + EncodePacked(ns[1..])
  }

  // The records written from field i on: fields in order, then the unknown.
  function RecordsFrom(s: Schema, m: Msg, i: nat): seq<Record>
    requires Shaped(s, m) && i <= |s.fields|
    decreases s, 1, |s.fields| - i
  {
    if i == |s.fields| then m.unknown
    else ValRecords(s.fields[i].num, s.fields[i].kind, m.vals[i]) + RecordsFrom(s, m, i + 1)
  }

  function Serialize(s: Schema, m: Msg): Bytes
    requires Shaped(s, m)
    decreases s, 2
  {
    WriteRecords(RecordsFrom(s, m, 0))
  }

  // ----------------------------------------------------------------- sizing

  function ValSize(k: Kind, v: Value): nat
    requires ShapedVal(k, v)
    decreases k, 0
  {
    match k
    case UInt64 => if v.n == 0 then 0 else 1 + VarintSize(v.n)
    case UInt32 => if v.n == 0 then 0 else 1 + VarintSize(v.n)
    case Bool => if v.n == 0 then 0 else 1 + 1
    case Enum => if v.n == 0 then 0 else 1 + VarintSizeSignExtended(v.n)
    case Float => if v.n == 0 then 0 else 1 + 4
    case String => if v.s == [] then 0 else 1 + LengthDelimitedSize(|v.s|)
    case Message(sub) => if v.m.None? then 0 else 1 + LengthDelimitedSize(Size(sub, v.m.value))
    case Repeated(sub) => RepSize(sub, v.ms)
    case Packed =>
      var n := PackedSize(v.ns);
      if n == 0 then 0 else 1 + LengthDelimitedSize(n)
  }

  function RepSize(s: Schema, ms: seq<Msg>): nat
    requires forall x | x in ms :: Shaped(s, x)
    decreases s, 3, |ms|
  {
    if ms == [] then 0
    else RepSize(s, ms[..|ms| - 1]) + 1 + LengthDelimitedSize(Size(s, ms[|ms| - 1]))
  }

  function PackedSize(ns: seq<U64>): nat {
    if ns == [] then 0 else PackedSize(ns[..|ns| - 1]) + VarintSize(ns[|ns| - 1])
  }

  function SizeFrom(s: Schema, m: Msg, i: nat): nat
    requires Shaped(s, m) && i <= |s.fields|
    decreases s, 1, |s.fields| - i
  {
    if i == |s.fields| then RecordsSize(m.unknown)
    else ValSize(s.fields[i].kind, m.vals[i]) + SizeFrom(s, m, i + 1)
  }

  function Size(s: Schema, m: Msg): nat
    requires Shaped(s, m)
    decreases s, 2
  {
    SizeFrom(s, m, 0)
  }

  // ---------------------------------------------------------------- merging

  function MergeVal(k: Kind, a: Value, b: Value): (v: Value)
    requires ShapedVal(k, a) && ShapedVal(k, b)
    ensures ShapedVal(k, v)
    decreases k, 0
  {
    match k
    case String => if b.s == [] then a else b
    case Message(sub) =>
      if b.m.None? then a else Sub(Some(Merge(sub, a.m.GetOr(Default(sub)), b.m.value)))
    case Repeated(_) => Rep(a.ms + b.ms)
    case Packed => Ints(a.ns + b.ns)
    case _ => if b.n == 0 then a else b
  }

  function Merge(s: Schema, a: Msg, b: Msg): (m: Msg)
    requires Shaped(s, a) && Shaped(s, b)
    ensures Shaped(s, m)
    decreases s, 1
  {
    Msg(seq(|s.fields|, i requires 0 <= i < |s.fields| => MergeVal(s.fields[i].kind, a.vals[i], b.vals[i])),
        a.unknown + b.unknown)
  }
}
