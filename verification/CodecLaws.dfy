/**
  Laws of the message codec, for every schema and hence for every message type:
  merging is a monoid, sizes are exact, parsing undoes serializing, and parsing
  appended input merges.
 */
module CodecLaws {
  import opened Wire
  import opened Records
  import opened Codec

  // ---------------------------------------------------------------- merging

  lemma {:induction false} MergeDefaultLeft(s: Schema, m: Msg)
    requires Shaped(s, m)
    ensures Merge(s, Default(s), m) == m
    decreases s, 1
  {
    var r := Merge(s, Default(s), m);
    forall i | 0 <= i < |s.fields| ensures r.vals[i] == m.vals[i] {
      MergeValDefaultLeft(s.fields[i].kind, m.vals[i]);
    }
    assert r.vals == m.vals && r.unknown == m.unknown;
  }

  lemma {:induction false} MergeValDefaultLeft(k: Kind, v: Value)
    requires ShapedVal(k, v)
    ensures MergeVal(k, DefaultVal(k), v) == v
    decreases k, 0
  {
    match k {
      case Message(sub) =>
        match v.m {
          case None =>
          case Some(x) => MergeDefaultLeft(sub, x);
        }
      case Repeated(_) => assert [] + v.ms == v.ms;
      case Packed => assert [] + v.ns == v.ns;
      case _ =>
    }
  }

  lemma {:induction false} MergeDefaultRight(s: Schema, m: Msg)
    requires Shaped(s, m)
    ensures Merge(s, m, Default(s)) == m
  {
    var r := Merge(s, m, Default(s));
    forall i | 0 <= i < |s.fields| ensures r.vals[i] == m.vals[i] {
      MergeValDefaultRight(s.fields[i].kind, m.vals[i]);
    }
    assert r.vals == m.vals && r.unknown == m.unknown;
  }

  lemma {:induction false} MergeValDefaultRight(k: Kind, v: Value)
    requires ShapedVal(k, v)
    ensures MergeVal(k, v, DefaultVal(k)) == v
  {
    match k {
      case Repeated(_) => assert v.ms + [] == v.ms;
      case Packed => assert v.ns + [] == v.ns;
      case _ =>
    }
  }

  lemma {:induction false} MergeAssociative(s: Schema, a: Msg, b: Msg, c: Msg)
    requires Shaped(s, a) && Shaped(s, b) && Shaped(s, c)
    ensures Merge(s, Merge(s, a, b), c) == Merge(s, a, Merge(s, b, c))
    decreases s, 1
  {
    var l, r := Merge(s, Merge(s, a, b), c), Merge(s, a, Merge(s, b, c));
    forall i | 0 <= i < |s.fields| ensures l.vals[i] == r.vals[i] {
      MergeValAssociative(s.fields[i].kind, a.vals[i], b.vals[i], c.vals[i]);
    }
    assert l.vals == r.vals;
    assert l.unknown == r.unknown;
  }

  lemma {:induction false} MergeValAssociative(k: Kind, a: Value, b: Value, c: Value)
    requires ShapedVal(k, a) && ShapedVal(k, b) && ShapedVal(k, c)
    ensures MergeVal(k, MergeVal(k, a, b), c) == MergeVal(k, a, MergeVal(k, b, c))
    decreases k, 0
  {
    match k {
      case Message(sub) =>
        match (b.m, c.m) {
          case (Some(y), Some(z)) =>
            var x := a.m.GetOr(Default(sub));
            MergeAssociative(sub, x, y, z);
            assert MergeVal(k, MergeVal(k, a, b), c) == Sub(Some(Merge(sub, Merge(sub, x, y), z)));
            assert MergeVal(k, a, MergeVal(k, b, c)) == Sub(Some(Merge(sub, x, Merge(sub, y, z))));
          case (None, Some(z)) => MergeDefaultLeft(sub, z);
          case _ =>
        }
      case Repeated(_) =>
        assert (a.ms + b.ms) + c.ms == a.ms + (b.ms + c.ms);
      case Packed => assert (a.ns + b.ns) + c.ns == a.ns + (b.ns + c.ns);
      case _ =>
    }
  }

  // A message that holds the merged fields is the merge.
  lemma {:induction false} MergeIs(s: Schema, a: Msg, b: Msg, m: Msg)
    requires Shaped(s, a) && Shaped(s, b) && |m.vals| == |s.fields|
    requires forall i :: 0 <= i < |s.fields| ==> m.vals[i] == MergeVal(s.fields[i].kind, a.vals[i], b.vals[i])
    requires m.unknown == a.unknown + b.unknown
    ensures m == Merge(s, a, b)
  {
    assert m.vals == Merge(s, a, b).vals;
  }

  // ----------------------------------------------------------------- sizing

  lemma {:induction false} PackedSizeConcat(ms: seq<U64>, ns: seq<U64>)
    ensures PackedSize(ms + ns) == PackedSize(ms) + PackedSize(ns)
  {
    if ns == [] {
      assert ms + ns == ms;
    } else {
      var last := |ns| - 1;
      assert (ms + ns)[..|ms + ns| - 1] == ms + ns[..last];
      PackedSizeConcat(ms, ns[..last]);
    }
  }

  lemma {:induction false} PackedSizeExact(ns: seq<U64>)
    ensures |EncodePacked(ns)| == PackedSize(ns)
  {
    if ns != [] {
      VarintSizeExact(ns[0]);
      PackedSizeExact(ns[1..]);
      assert ns == [ns[0]] + ns[1..];
      PackedSizeConcat([ns[0]], ns[1..]);
      assert [ns[0]][..0] == [];
    }
  }

  lemma {:induction false} RecordsSizeConcat(rs: seq<Record>, ss: seq<Record>)
    ensures |WriteRecords(rs + ss)| == |WriteRecords(rs)| + |WriteRecords(ss)|
  {
    WriteRecordsConcat(rs, ss);
  }

  // The size pass counts exactly the bytes the writing pass writes.
  lemma {:induction false} SizeExact(s: Schema, m: Msg)
    requires ValidSchema(s) && Shaped(s, m)
    ensures |Serialize(s, m)| == Size(s, m)
    decreases s, 2
  {
    SizeFromExact(s, m, 0);
  }

  lemma {:induction false} SizeFromExact(s: Schema, m: Msg, i: nat)
    requires ValidSchema(s) && Shaped(s, m) && i <= |s.fields|
    ensures |WriteRecords(RecordsFrom(s, m, i))| == SizeFrom(s, m, i)
    decreases s, 1, |s.fields| - i
  {
    if i == |s.fields| {
      RecordsSizeExact(m.unknown);
    } else {
      var f := s.fields[i];
      ValSizeExact(f.num, f.kind, m.vals[i]);
      SizeFromExact(s, m, i + 1);
      RecordsSizeConcat(ValRecords(f.num, f.kind, m.vals[i]), RecordsFrom(s, m, i + 1));
    }
  }

  lemma {:induction false} WriteOne(r: Record)
    ensures WriteRecords([r]) == WriteRecord(r)
  {
    assert [r][1..] == [];
  }

  lemma {:induction false} OneByteTag(num: FieldNum, wireType: nat)
    requires num <= 15 && wireType < 8
    ensures |Tag(num, wireType)| == 1
  {
  }

  lemma {:induction false} ValSizeExact(num: FieldNum, k: Kind, v: Value)
    requires num <= 15 && ValidKind(k) && ShapedVal(k, v)
    ensures |WriteRecords(ValRecords(num, k, v))| == ValSize(k, v)
    decreases k, 0
  {
    if k.Repeated? {
      RepSizeExact(num, k.sub, v.ms);
    } else {
      var rs := ValRecords(num, k, v);
      if rs != [] {
        var r := rs[0];
        assert rs == [r];
        WriteOne(r);
        OneByteTag(num, WireType(r));
        match k {
          case Float =>
          case Enum => VarintSizeExact(SignExtend(v.n));
          case String => VarintSizeExact(|v.s|);
          case Message(sub) =>
            SizeExact(sub, v.m.value);
            VarintSizeExact(Size(sub, v.m.value));
          case Packed =>
            PackedSizeExact(v.ns);
            VarintSizeExact(PackedSize(v.ns));
            assert EncodePacked(v.ns) != [];
          case Repeated(_) =>
          case UInt64 => VarintSizeExact(v.n);
          case UInt32 => VarintSizeExact(v.n);
          case Bool => VarintSizeExact(v.n);
        }
      }
    }
  }

  function RepRecords(num: FieldNum, s: Schema, ms: seq<Msg>): (rs: seq<Record>)
    requires forall x | x in ms :: Shaped(s, x)
  {
    seq(|ms|, i requires 0 <= i < |ms| => Len(num, Serialize(s, ms[i])))
  }

  lemma {:induction false} RepSizeExact(num: FieldNum, s: Schema, ms: seq<Msg>)
    requires num <= 15 && ValidSchema(s) && forall x | x in ms :: Shaped(s, x)
    ensures |WriteRecords(RepRecords(num, s, ms))| == RepSize(s, ms)
    decreases s, 3, |ms|
  {
    if ms != [] {
      var init, last := ms[..|ms| - 1], ms[|ms| - 1];
      RepSizeExact(num, s, init);
      SizeExact(s, last);
      var r := Len(num, Serialize(s, last));
      VarintSizeExact(Size(s, last));
      WriteOne(r);
      OneByteTag(num, 2);
      assert RepRecords(num, s, ms) == RepRecords(num, s, init) + [r];
      RecordsSizeConcat(RepRecords(num, s, init), [r]);
    }
  }

  // ---------------------------------------------------------------- parsing

  function FoldOpt(s: Schema, m: Option<Msg>, rs: seq<Record>, depth: nat): (r: Option<Msg>)
    requires m.Some? ==> Shaped(s, m.value)
    ensures r.Some? ==> Shaped(s, r.value)
  {
    match m
    case None => None
    case Some(x) => Fold(s, x, rs, depth)
  }

  lemma {:induction false} FoldConcat(s: Schema, m: Msg, rs: seq<Record>, ss: seq<Record>, depth: nat)
    requires Shaped(s, m)
    ensures Fold(s, m, rs + ss, depth) == FoldOpt(s, Fold(s, m, rs, depth), ss, depth)
    decreases |rs|
  {
    if rs == [] {
      assert rs + ss == ss;
    } else {
      assert (rs + ss)[0] == rs[0] && (rs + ss)[1..] == rs[1..] + ss;
      var w := Apply(s, m, rs[0], depth);
      if w.Some? {
        FoldConcat(s, w.value, rs[1..], ss, depth);
      }
    }
  }

  // Parsing a concatenation parses the second part into the first's result.
  lemma {:induction false} ParseAppend(s: Schema, m: Msg, b: Bytes, c: Bytes, depth: nat)
    requires Shaped(s, m) && Parse(s, m, b, depth).Some?
    ensures Parse(s, m, b + c, depth) == Parse(s, Parse(s, m, b, depth).value, c, depth)
  {
    ReadRecordsConcat(b, c, depth);
    if ReadRecords(c, depth).Some? {
      FoldConcat(s, m, ReadRecords(b, depth).value, ReadRecords(c, depth).value, depth);
    }
  }

  // ------------------------------------------------------------- well-formed

  // What a parser can produce: strings are UTF-8, lengths and nesting are
  // within the reader's limits, and unknown fields really are unknown.
  predicate Content(s: Schema, m: Msg, depth: nat)
    requires Shaped(s, m)
    decreases s, 1
  {
    && (forall i :: 0 <= i < |s.fields| ==> ContentVal(s.fields[i].kind, m.vals[i], depth))
    && (forall r | r in m.unknown :: Target(s, r).None? && Fits(r, depth))
  }

  predicate ContentVal(k: Kind, v: Value, depth: nat)
    requires ShapedVal(k, v)
    decreases k, 0
  {
    match k
    case String => ValidUtf8(v.s) && |v.s| <= MAX_LENGTH
    case Message(sub) => v.m.Some? ==> depth > 0 && Content(sub, v.m.value, depth - 1)
    case Repeated(sub) => forall x | x in v.ms :: depth > 0 && Content(sub, x, depth - 1)
    case _ => true
  }

  // Lengths written for sub-messages and packed fields are within the limit.
  predicate SizesFit(s: Schema, m: Msg)
    requires Shaped(s, m)
    decreases s, 1
  {
    forall i :: 0 <= i < |s.fields| ==> SizesFitVal(s.fields[i].kind, m.vals[i])
  }

  predicate SizesFitVal(k: Kind, v: Value)
    requires ShapedVal(k, v)
    decreases k, 0
  {
    match k
    case Message(sub) => v.m.Some? ==> Size(sub, v.m.value) <= MAX_LENGTH && SizesFit(sub, v.m.value)
    case Repeated(sub) => forall x | x in v.ms :: Size(sub, x) <= MAX_LENGTH && SizesFit(sub, x)
    case Packed => PackedSize(v.ns) <= MAX_LENGTH
    case _ => true
  }

  predicate WellFormed(s: Schema, m: Msg, depth: nat)
    requires Shaped(s, m)
  {
    Content(s, m, depth) && SizesFit(s, m)
  }

  // -------------------------------------------- parsing what was serialized

  lemma {:induction false} TargetOf(s: Schema, i: nat, r: Record)
    requires ValidSchema(s) && i < |s.fields|
    requires r.num == s.fields[i].num && WireMatches(s.fields[i].kind, r)
    ensures Target(s, r) == Some(i)
  {
  }

  lemma {:induction false} FoldOne(s: Schema, m: Msg, r: Record, depth: nat)
    requires Shaped(s, m)
    ensures Fold(s, m, [r], depth) == Apply(s, m, r, depth)
  {
    assert [r][1..] == [];
    var w := Apply(s, m, r, depth);
    if w.Some? {
      assert Fold(s, w.value, [], depth) == w;
    }
  }

  lemma {:induction false} DecodePackedOfEncode(ns: seq<U64>)
    ensures DecodePacked(EncodePacked(ns)) == Some(ns)
  {
    if ns != [] {
      var b, e := EncodePacked(ns), EncodeVarint(ns[0]);
      RawVarintOfEncode(ns[0], EncodePacked(ns[1..]), 10);
      EncodeLengthBounds(ns[0]);
      assert b[|e|..] == EncodePacked(ns[1..]);
      DecodePackedOfEncode(ns[1..]);
      assert ReadVarint64(b) == Some((ns[0], |e|));
      assert ns == [ns[0]] + ns[1..];
    }
  }

  // "Last One Wins": parsing a serialized message into another merges it.
  lemma {:induction false} ParseSerialized(s: Schema, a: Msg, b: Msg, depth: nat)
    requires ValidSchema(s) && Shaped(s, a) && Shaped(s, b) && WellFormed(s, b, depth)
    ensures Parse(s, a, Serialize(s, b), depth) == Some(Merge(s, a, b))
    decreases s, 4
  {
    var rs := RecordsFrom(s, b, 0);
    RecordsFromFit(s, b, 0, depth);
    ReadRecordsOfWrite(rs, depth);
    FoldCanonical(s, a, b, 0, depth);
    assert MergePrefix(s, a, b, 0) == a by {
      assert MergePrefix(s, a, b, 0).vals == a.vals;
    }
  }

  lemma {:induction false} RecordsFromFit(s: Schema, m: Msg, i: nat, depth: nat)
    requires ValidSchema(s) && Shaped(s, m) && WellFormed(s, m, depth) && i <= |s.fields|
    ensures AllFit(RecordsFrom(s, m, i), depth)
    decreases |s.fields| - i
  {
    if i < |s.fields| {
      var f := s.fields[i];
      ValRecordsFit(f.num, f.kind, m.vals[i], depth);
      RecordsFromFit(s, m, i + 1, depth);
    }
  }

  lemma {:induction false} ValRecordsFit(num: FieldNum, k: Kind, v: Value, depth: nat)
    requires ValidKind(k) && ShapedVal(k, v) && ContentVal(k, v, depth) && SizesFitVal(k, v)
    ensures AllFit(ValRecords(num, k, v), depth)
  {
    match k {
      case Message(sub) =>
        if v.m.Some? {
          SizeExact(sub, v.m.value);
        }
      case Repeated(sub) =>
        forall x | x in v.ms ensures |Serialize(sub, x)| <= MAX_LENGTH {
          SizeExact(sub, x);
        }
      case Packed => PackedSizeExact(v.ns);
      case _ =>
    }
  }

  // a with the fields before i merged from b.
  function MergePrefix(s: Schema, a: Msg, b: Msg, i: nat): (m: Msg)
    requires Shaped(s, a) && Shaped(s, b) && i <= |s.fields|
    ensures Shaped(s, m)
  {
    Msg(seq(|s.fields|, j requires 0 <= j < |s.fields| =>
              if j < i then MergeVal(s.fields[j].kind, a.vals[j], b.vals[j]) else a.vals[j]),
        a.unknown)
  }

  lemma {:induction false} FoldCanonical(s: Schema, a: Msg, b: Msg, i: nat, depth: nat)
    requires ValidSchema(s) && Shaped(s, a) && Shaped(s, b) && WellFormed(s, b, depth) && i <= |s.fields|
    ensures Fold(s, MergePrefix(s, a, b, i), RecordsFrom(s, b, i), depth) == Some(Merge(s, a, b))
    decreases s, 3, |s.fields| - i
  {
    var m := MergePrefix(s, a, b, i);
    if i == |s.fields| {
      FoldUnknown(s, m, b.unknown, depth);
      assert m.vals == Merge(s, a, b).vals;
    } else {
      var f := s.fields[i];
      FoldVal(s, m, i, b.vals[i], depth);
      var m' := MergePrefix(s, a, b, i + 1);
      assert m'.vals == m.vals[i := MergeVal(f.kind, m.vals[i], b.vals[i])];
      FoldConcat(s, m, ValRecords(f.num, f.kind, b.vals[i]), RecordsFrom(s, b, i + 1), depth);
      FoldCanonical(s, a, b, i + 1, depth);
    }
  }

  lemma {:induction false} FoldUnknown(s: Schema, m: Msg, rs: seq<Record>, depth: nat)
    requires Shaped(s, m) && forall r | r in rs :: Target(s, r).None?
    ensures Fold(s, m, rs, depth) == Some(m.(unknown := m.unknown + rs))
    decreases |rs|
  {
    if rs == [] {
      assert m.unknown + [] == m.unknown;
    } else {
      var m' := m.(unknown := m.unknown + [rs[0]]);
      FoldUnknown(s, m', rs[1..], depth);
      assert m.unknown + rs == (m.unknown + [rs[0]]) + rs[1..];
    }
  }

  // The records of one field merge that field and nothing else.
  lemma {:induction false} FoldVal(s: Schema, m: Msg, i: nat, v: Value, depth: nat)
    requires ValidSchema(s) && Shaped(s, m) && i < |s.fields| && ShapedVal(s.fields[i].kind, v)
    requires ContentVal(s.fields[i].kind, v, depth) && SizesFitVal(s.fields[i].kind, v)
    ensures Fold(s, m, ValRecords(s.fields[i].num, s.fields[i].kind, v), depth) ==
            Some(m.(vals := m.vals[i := MergeVal(s.fields[i].kind, m.vals[i], v)]))
    decreases s, 2
  {
    var num, k := s.fields[i].num, s.fields[i].kind;
    if k.Repeated? {
      FoldRep(s, m, i, k.sub, v.ms, depth);
      assert ValRecords(num, k, v) == RepRecords(num, k.sub, v.ms);
    } else {
      var rs := ValRecords(num, k, v);
      if rs == [] {
        assert m.vals[i := m.vals[i]] == m.vals;
        assert k.Packed? ==> m.vals[i].ns + [] == m.vals[i].ns;
      } else {
        var r := rs[0];
        assert rs == [r];
        FoldOne(s, m, r, depth);
        TargetOf(s, i, r);
        match k {
          case Enum => SignExtendTruncate(v.n);
          case Message(sub) =>
            var x := m.vals[i].m.GetOr(Default(sub));
            ParseSerialized(sub, x, v.m.value, depth - 1);
            assert ParseNested(sub, x, r.data, depth) == Some(Merge(sub, x, v.m.value));
          case Packed => DecodePackedOfEncode(v.ns);
          case _ =>
        }
      }
    }
  }

  lemma {:induction false} FoldRep(s: Schema, m: Msg, i: nat, sub: Schema, ms: seq<Msg>, depth: nat)
    requires ValidSchema(s) && Shaped(s, m) && i < |s.fields| && s.fields[i].kind == Repeated(sub)
    requires m.vals[i].Rep? && forall x | x in ms :: Shaped(sub, x)
    requires forall x | x in ms :: depth > 0 && Content(sub, x, depth - 1)
    requires forall x | x in ms :: Size(sub, x) <= MAX_LENGTH && SizesFit(sub, x)
    ensures Fold(s, m, RepRecords(s.fields[i].num, sub, ms), depth) ==
            Some(m.(vals := m.vals[i := Rep(m.vals[i].ms + ms)]))
    decreases s, 1, |ms|
  {
    hide EncodeVarint, Apply, Content, SizesFit;
    var num := s.fields[i].num;
    var rs := RepRecords(num, sub, ms);
    if ms == [] {
      assert m.vals[i].ms + [] == m.vals[i].ms;
      assert m.vals[i := m.vals[i]] == m.vals;
    } else {
      var x, tail := ms[0], ms[1..];
      assert x in ms && forall y | y in tail :: y in ms;
      assert rs[1..] == RepRecords(num, sub, tail);
      var m' := m.(vals := m.vals[i := Rep(m.vals[i].ms + [x])]);
      ApplyRep(s, m, i, sub, x, depth);
      FoldRep(s, m', i, sub, tail, depth);
      assert (m.vals[i].ms + [x]) + tail == m.vals[i].ms + ms;
      assert m'.vals[i := Rep(m.vals[i].ms + ms)] == m.vals[i := Rep(m.vals[i].ms + ms)];
    }
  }

  lemma {:induction false} ApplyRep(s: Schema, m: Msg, i: nat, sub: Schema, x: Msg, depth: nat)
    requires ValidSchema(s) && Shaped(s, m) && i < |s.fields| && s.fields[i].kind == Repeated(sub)
    requires m.vals[i].Rep? && Shaped(sub, x) && depth > 0 && WellFormed(sub, x, depth - 1)
    ensures Apply(s, m, Len(s.fields[i].num, Serialize(sub, x)), depth) ==
            Some(m.(vals := m.vals[i := Rep(m.vals[i].ms + [x])]))
    decreases s, 0
  {
    var r := Len(s.fields[i].num, Serialize(sub, x));
    TargetOf(s, i, r);
    ParseSerialized(sub, Default(sub), x, depth - 1);
    MergeDefaultLeft(sub, x);
    assert ParseNested(sub, Default(sub), r.data, depth) == Some(x);
  }
}
