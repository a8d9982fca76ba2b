/**
  The main results about the message codec, for every schema.
 */
module CodecTheorems {
  import opened Wire
  import opened Records
  import opened Codec
  import opened CodecLaws

  // ------------------------------------------------- what a parser produces

  lemma {:induction false} DefaultContent(s: Schema, depth: nat)
    ensures Content(s, Default(s), depth)
  {
  }

  lemma {:induction false} ParseContent(s: Schema, m: Msg, b: Bytes, depth: nat)
    requires Shaped(s, m) && Content(s, m, depth) && Parse(s, m, b, depth).Some?
    ensures Content(s, Parse(s, m, b, depth).value, depth)
    decreases s, 2
  {
    ReadRecordsFit(b, depth);
    FoldContent(s, m, ReadRecords(b, depth).value, depth);
  }

  lemma {:induction false} FoldContent(s: Schema, m: Msg, rs: seq<Record>, depth: nat)
    requires Shaped(s, m) && Content(s, m, depth) && AllFit(rs, depth) && Fold(s, m, rs, depth).Some?
    ensures Content(s, Fold(s, m, rs, depth).value, depth)
    decreases s, 1, |rs|
  {
    if rs != [] {
      var r := rs[0];
      var t := Target(s, r);
      if t.Some? {
        ApplyValContent(s.fields[t.value].kind, m.vals[t.value], r, depth);
      }
      FoldContent(s, Apply(s, m, r, depth).value, rs[1..], depth);
    }
  }

  lemma {:induction false} ApplyValContent(k: Kind, v: Value, r: Record, depth: nat)
    requires ShapedVal(k, v) && ContentVal(k, v, depth) && WireMatches(k, r) && Fits(r, depth)
    requires ApplyVal(k, v, r, depth).Some?
    ensures ContentVal(k, ApplyVal(k, v, r, depth).value, depth)
    decreases k, 0
  {
    match k {
      case Message(sub) =>
        var x := v.m.GetOr(Default(sub));
        DefaultContent(sub, depth - 1);
        ParseContent(sub, x, r.data, depth - 1);
      case Repeated(sub) =>
        DefaultContent(sub, depth - 1);
        ParseContent(sub, Default(sub), r.data, depth - 1);
      case _ =>
    }
  }

  // A serialized message that parses at all had all its lengths in range.
  lemma {:induction false} SuccessFits(s: Schema, a: Msg, m: Msg, depth: nat)
    requires ValidSchema(s) && Shaped(s, a) && Shaped(s, m)
    requires Parse(s, a, Serialize(s, m), depth).Some?
    ensures SizesFit(s, m)
    decreases s, 3
  {
    ReadRecordsOfWrite(RecordsFrom(s, m, 0), depth);
    FoldFits(s, a, m, 0, depth);
  }

  lemma {:induction false} FoldFits(s: Schema, a: Msg, m: Msg, i: nat, depth: nat)
    requires ValidSchema(s) && Shaped(s, a) && Shaped(s, m) && i <= |s.fields|
    requires AllFit(RecordsFrom(s, m, i), depth) && Fold(s, a, RecordsFrom(s, m, i), depth).Some?
    ensures forall j :: i <= j < |s.fields| ==> SizesFitVal(s.fields[j].kind, m.vals[j])
    decreases s, 2, |s.fields| - i
  {
    if i < |s.fields| {
      var f := s.fields[i];
      var rs := ValRecords(f.num, f.kind, m.vals[i]);
      var rest := RecordsFrom(s, m, i + 1);
      FoldConcat(s, a, rs, rest, depth);
      assert forall r | r in rs :: r in rs + rest;
      assert forall r | r in rest :: r in rs + rest;
      FoldValFits(s, a, i, m.vals[i], depth);
      FoldFits(s, Fold(s, a, rs, depth).value, m, i + 1, depth);
    }
  }

  lemma {:induction false} FoldValFits(s: Schema, a: Msg, i: nat, v: Value, depth: nat)
    requires ValidSchema(s) && Shaped(s, a) && i < |s.fields| && ShapedVal(s.fields[i].kind, v)
    requires AllFit(ValRecords(s.fields[i].num, s.fields[i].kind, v), depth)
    requires Fold(s, a, ValRecords(s.fields[i].num, s.fields[i].kind, v), depth).Some?
    ensures SizesFitVal(s.fields[i].kind, v)
    decreases s, 1
  {
    var num, k := s.fields[i].num, s.fields[i].kind;
    var rs := ValRecords(num, k, v);
    match k {
      case Message(sub) =>
        if v.m.Some? {
          var r := rs[0];
          assert rs == [r] && r in rs;
          FoldOne(s, a, r, depth);
          TargetOf(s, i, r);
          assert ApplyVal(k, a.vals[i], r, depth).Some?;
          var x := a.vals[i].m.GetOr(Default(sub));
          assert ParseNested(sub, x, r.data, depth).Some?;
          SuccessFits(sub, x, v.m.value, depth - 1);
          SizeExact(sub, v.m.value);
        }
      case Repeated(sub) =>
        assert rs == RepRecords(num, sub, v.ms);
        FoldRepFits(s, a, i, sub, v.ms, depth);
      case Packed =>
        if v.ns != [] {
          assert rs[0] in rs;
          PackedSizeExact(v.ns);
        }
      case _ =>
    }
  }

  lemma {:induction false} FoldRepFits(s: Schema, a: Msg, i: nat, sub: Schema, ms: seq<Msg>, depth: nat)
    requires ValidSchema(s) && Shaped(s, a) && i < |s.fields| && s.fields[i].kind == Repeated(sub)
    requires forall x | x in ms :: Shaped(sub, x)
    requires AllFit(RepRecords(s.fields[i].num, sub, ms), depth)
    requires Fold(s, a, RepRecords(s.fields[i].num, sub, ms), depth).Some?
    ensures forall x | x in ms :: Size(sub, x) <= MAX_LENGTH && SizesFit(sub, x)
    decreases s, 0, |ms|
  {
    hide Apply, Shaped, Serialize, Size;
    if ms != [] {
      var x, tail := ms[0], ms[1..];
      var rs, rest := RepRecords(s.fields[i].num, sub, ms), RepRecords(s.fields[i].num, sub, tail);
      var r := rs[0];
      assert rs[1..] == rest && r in rs;
      forall q | q in rest ensures Fits(q, depth) {
        assert q in rs;
      }
      RepeatedStep(s, a, i, sub, r, depth);
      SuccessFits(sub, Default(sub), x, depth - 1);
      SizeExact(sub, x);
      FoldRepFits(s, Apply(s, a, r, depth).value, i, sub, tail, depth);
      assert ms == [x] + tail;
    }
  }

  lemma {:induction false} RepeatedStep(s: Schema, a: Msg, i: nat, sub: Schema, r: Record, depth: nat)
    requires ValidSchema(s) && Shaped(s, a) && i < |s.fields| && s.fields[i].kind == Repeated(sub)
    requires r.Len? && r.num == s.fields[i].num && Apply(s, a, r, depth).Some?
    ensures depth > 0 && Parse(sub, Default(sub), r.data, depth - 1).Some?
  {
    TargetOf(s, i, r);
    var v := a.vals[i];
    assert ShapedVal(Repeated(sub), v);
    assert ApplyVal(Repeated(sub), v, r, depth).Some?;
    assert ParseNested(sub, Default(sub), r.data, depth).Some?;
  }

  // ------------------------------------------------------------ round trips

  // A message survives serializing and parsing exactly when it is well-formed.
  lemma {:induction false} RoundTrip(s: Schema, m: Msg, depth: nat)
    requires ValidSchema(s) && Shaped(s, m)
    ensures Parse(s, Default(s), Serialize(s, m), depth) == Some(m) <==> WellFormed(s, m, depth)
  {
    if WellFormed(s, m, depth) {
      ParseSerialized(s, Default(s), m, depth);
      MergeDefaultLeft(s, m);
    }
    if Parse(s, Default(s), Serialize(s, m), depth) == Some(m) {
      DefaultContent(s, depth);
      ParseContent(s, Default(s), Serialize(s, m), depth);
      SuccessFits(s, Default(s), m, depth);
    }
  }

  // Whatever a parser accepts is reproduced by serializing and parsing again,
  // as long as the lengths to be written are in range.
  lemma {:induction false} ParseNormalises(s: Schema, b: Bytes, depth: nat)
    requires ValidSchema(s) && Parse(s, Default(s), b, depth).Some?
    ensures var m := Parse(s, Default(s), b, depth).value;
            Parse(s, Default(s), Serialize(s, m), depth) == Some(m) <==> SizesFit(s, m)
  {
    DefaultContent(s, depth);
    ParseContent(s, Default(s), b, depth);
    RoundTrip(s, Parse(s, Default(s), b, depth).value, depth);
  }

  // "Last One Wins" on bytes: appending a serialized message merges it.
  lemma {:induction false} ParseAppendMerges(s: Schema, m0: Msg, b: Bytes, m: Msg, depth: nat)
    requires ValidSchema(s) && Shaped(s, m0) && Parse(s, m0, b, depth).Some?
    requires Shaped(s, m) && WellFormed(s, m, depth)
    ensures Parse(s, m0, b + Serialize(s, m), depth) == Some(Merge(s, Parse(s, m0, b, depth).value, m))
  {
    ParseAppend(s, m0, b, Serialize(s, m), depth);
    ParseSerialized(s, Parse(s, m0, b, depth).value, m, depth);
  }

  // -------------------------------------------------------------- field order

  // The records of rs that go to one field, or to the unknown fields.
  function Select(s: Schema, rs: seq<Record>, t: Option<nat>): (ss: seq<Record>)
    ensures forall r | r in ss :: r in rs && Target(s, r) == t
  {
    if rs == [] then []
    else (if Target(s, rs[0]) == t then [rs[0]] else []) + Select(s, rs[1..], t)
  }

  function FoldField(k: Kind, v: Value, rs: seq<Record>, depth: nat): (w: Option<Value>)
    requires ShapedVal(k, v) && forall r | r in rs :: WireMatches(k, r)
    ensures w.Some? ==> ShapedVal(k, w.value)
    decreases |rs|
  {
    if rs == [] then Some(v)
    else
      match ApplyVal(k, v, rs[0], depth)
      case None => None
      case Some(v') => FoldField(k, v', rs[1..], depth)
  }

  function FieldOutcome(s: Schema, m: Msg, rs: seq<Record>, i: nat, depth: nat): (w: Option<Value>)
    requires Shaped(s, m) && i < |s.fields|
    ensures w.Some? ==> ShapedVal(s.fields[i].kind, w.value)
  {
    FoldField(s.fields[i].kind, m.vals[i], Select(s, rs, Some(i)), depth)
  }

  // A parse splits into independent parses of the single fields.
  lemma {:induction false} FoldFieldwise(s: Schema, m: Msg, rs: seq<Record>, depth: nat)
    requires Shaped(s, m)
    ensures Fold(s, m, rs, depth).Some? <==>
            forall i :: 0 <= i < |s.fields| ==> FieldOutcome(s, m, rs, i, depth).Some?
    ensures Fold(s, m, rs, depth).Some? ==>
              var w := Fold(s, m, rs, depth).value;
              && (forall i :: 0 <= i < |s.fields| ==> FieldOutcome(s, m, rs, i, depth) == Some(w.vals[i]))
              && w.unknown == m.unknown + Select(s, rs, None)
    decreases |rs|
  {
    if rs == [] {
      assert m.unknown + [] == m.unknown;
    } else {
      var w := Apply(s, m, rs[0], depth);
      if w.Some? {
        FoldFieldwise(s, w.value, rs[1..], depth);
        UnknownStep(s, m, rs, depth);
        forall i | 0 <= i < |s.fields|
          ensures FieldOutcome(s, m, rs, i, depth) == FieldOutcome(s, w.value, rs[1..], i, depth)
        {
          FieldStep(s, m, rs, i, depth);
        }
      } else {
        FieldStep(s, m, rs, Target(s, rs[0]).value, depth);
      }
    }
  }

  lemma {:induction false} FieldStep(s: Schema, m: Msg, rs: seq<Record>, i: nat, depth: nat)
    requires Shaped(s, m) && rs != [] && i < |s.fields|
    ensures FieldOutcome(s, m, rs, i, depth) ==
            match Apply(s, m, rs[0], depth)
            case Some(w) => FieldOutcome(s, w, rs[1..], i, depth)
            case None => if Target(s, rs[0]) == Some(i) then None else FieldOutcome(s, m, rs[1..], i, depth)
  {
    var r, tail := rs[0], rs[1..];
    if Target(s, r) == Some(i) {
      assert Select(s, rs, Some(i))[1..] == Select(s, tail, Some(i));
    } else {
      assert Select(s, rs, Some(i)) == Select(s, tail, Some(i));
    }
  }

  lemma {:induction false} UnknownStep(s: Schema, m: Msg, rs: seq<Record>, depth: nat)
    requires Shaped(s, m) && rs != [] && Apply(s, m, rs[0], depth).Some?
    ensures m.unknown + Select(s, rs, None) ==
            Apply(s, m, rs[0], depth).value.unknown + Select(s, rs[1..], None)
  {
  }

  // Records may be reordered freely as long as those of one field, and the
  // unknown ones, keep their order among themselves.
  lemma {:induction false} FieldOrder(s: Schema, m: Msg, rs: seq<Record>, ss: seq<Record>, depth: nat)
    requires Shaped(s, m)
    requires forall t :: Select(s, rs, t) == Select(s, ss, t)
    ensures Fold(s, m, rs, depth) == Fold(s, m, ss, depth)
  {
    FoldFieldwise(s, m, rs, depth);
    FoldFieldwise(s, m, ss, depth);
    forall i | 0 <= i < |s.fields|
      ensures FieldOutcome(s, m, rs, i, depth) == FieldOutcome(s, m, ss, i, depth)
    {
    }
    if Fold(s, m, rs, depth).Some? {
      var a, b := Fold(s, m, rs, depth).value, Fold(s, m, ss, depth).value;
      forall i | 0 <= i < |s.fields| ensures a.vals[i] == b.vals[i] {
        assert FieldOutcome(s, m, rs, i, depth) == FieldOutcome(s, m, ss, i, depth);
      }
      assert a.vals == b.vals;
    }
  }

  lemma {:induction false} SelectConcat(s: Schema, rs: seq<Record>, ss: seq<Record>, t: Option<nat>)
    ensures Select(s, rs + ss, t) == Select(s, rs, t) + Select(s, ss, t)
  {
    hide Target;
    if rs == [] {
      assert rs + ss == ss;
    } else {
      assert (rs + ss)[0] == rs[0] && (rs + ss)[1..] == rs[1..] + ss;
      SelectConcat(s, rs[1..], ss, t);
    }
  }

  lemma {:induction false} SelectOne(s: Schema, r: Record, t: Option<nat>)
    ensures Select(s, [r], t) == if Target(s, r) == t then [r] else []
  {
    assert [r][1..] == [];
  }

  // On bytes, in any encoding: two adjacent complete records of different
  // fields can be swapped anywhere in an input.
  lemma {:induction false} SwapAdjacent(s: Schema, m: Msg, x: Bytes, b1: Bytes, b2: Bytes, y: Bytes, r1: Record,
      r2: Record, depth: nat)
    requires Shaped(s, m) && ReadRecords(x, depth).Some?
    requires ReadRecords(b1, depth) == Some([r1]) && ReadRecords(b2, depth) == Some([r2])
    requires r1.num != r2.num && (Target(s, r1).Some? || Target(s, r2).Some?)
    ensures Parse(s, m, x + b1 + b2 + y, depth) == Parse(s, m, x + b2 + b1 + y, depth)
  {
    ReadFour(x, b1, b2, y, depth);
    ReadFour(x, b2, b1, y, depth);
    if ReadRecords(y, depth).Some? {
      var xs, ys := ReadRecords(x, depth).value, ReadRecords(y, depth).value;
      forall t ensures Select(s, xs + [r1] + [r2] + ys, t) == Select(s, xs + [r2] + [r1] + ys, t) {
        SelectFour(s, xs, r1, r2, ys, t);
        SelectFour(s, xs, r2, r1, ys, t);
      }
      FieldOrder(s, m, xs + [r1] + [r2] + ys, xs + [r2] + [r1] + ys, depth);
    }
  }

  lemma {:induction false} ReadFour(x: Bytes, b1: Bytes, b2: Bytes, y: Bytes, depth: nat)
    requires ReadRecords(x, depth).Some? && ReadRecords(b1, depth).Some? && ReadRecords(b2, depth).Some?
    ensures ReadRecords(x + b1 + b2 + y, depth) ==
            Then(ReadRecords(x, depth).value + ReadRecords(b1, depth).value + ReadRecords(b2, depth).value,
                 ReadRecords(y, depth))
  {
    ReadRecordsConcat(x, b1, depth);
    ReadRecordsConcat(x + b1, b2, depth);
    ReadRecordsConcat(x + b1 + b2, y, depth);
  }

  lemma {:induction false} SelectFour(s: Schema, xs: seq<Record>, r1: Record, r2: Record, ys: seq<Record>,
      t: Option<nat>)
    requires Target(s, r1) != Target(s, r2)
    ensures Select(s, xs + [r1] + [r2] + ys, t) ==
            Select(s, xs, t) + (if Target(s, r1) == t then [r1] else if Target(s, r2) == t then [r2] else [])
            + Select(s, ys, t)
  {
    hide Select;
    SelectConcat(s, xs + [r1] + [r2], ys, t);
    SelectConcat(s, xs + [r1], [r2], t);
    SelectConcat(s, xs, [r1], t);
    SelectOne(s, r1, t);
    SelectOne(s, r2, t);
  }

  // ------------------------------------------------------------ permutations

  predicate DistinctTargets(s: Schema, rs: seq<Record>) {
    forall i, j :: 0 <= i < j < |rs| ==> Target(s, rs[i]) != Target(s, rs[j])
  }

  lemma {:induction false} SelectMultiset(s: Schema, rs: seq<Record>, t: Option<nat>, r: Record)
    ensures multiset(Select(s, rs, t))[r] == if Target(s, r) == t then multiset(rs)[r] else 0
  {
    if rs != [] {
      SelectMultiset(s, rs[1..], t, r);
      assert rs == [rs[0]] + rs[1..];
    }
  }

  lemma {:induction false} SelectNone(s: Schema, rs: seq<Record>, t: Option<nat>)
    requires forall r | r in rs :: Target(s, r) != t
    ensures Select(s, rs, t) == []
  {
    if rs != [] {
      SelectNone(s, rs[1..], t);
    }
  }

  lemma {:induction false} SelectAtMostOne(s: Schema, rs: seq<Record>, t: Option<nat>)
    requires DistinctTargets(s, rs)
    ensures |Select(s, rs, t)| <= 1
  {
    if rs != [] {
      SelectAtMostOne(s, rs[1..], t);
      forall q | q in rs[1..] ensures Target(s, q) != Target(s, rs[0]) {
        var j :| 0 <= j < |rs[1..]| && rs[1..][j] == q;
        assert rs[j + 1] == q;
      }
      if Target(s, rs[0]) == t {
        SelectNone(s, rs[1..], t);
      }
    }
  }

  lemma {:induction false} PermutedSelect(s: Schema, rs: seq<Record>, ss: seq<Record>, t: Option<nat>)
    requires DistinctTargets(s, rs) && multiset(rs) == multiset(ss)
    ensures Select(s, rs, t) == Select(s, ss, t)
  {
    hide Select;
    var a, b := Select(s, rs, t), Select(s, ss, t);
    forall r ensures multiset(a)[r] == multiset(b)[r] {
      SelectMultiset(s, rs, t, r);
      SelectMultiset(s, ss, t, r);
    }
    SelectAtMostOne(s, rs, t);
    SameSingle(a, b);
  }

  lemma {:induction false} SameSingle(a: seq<Record>, b: seq<Record>)
    requires |a| <= 1 && forall r :: multiset(a)[r] == multiset(b)[r]
    ensures a == b
  {
    assert multiset(a) == multiset(b);
    assert |a| == |multiset(a)| == |multiset(b)| == |b|;
    if |a| == 1 {
      assert a[0] in multiset(a) && a[0] in multiset(b);
    }
  }

  // A message of singular fields is recognised from its records in any order.
  lemma {:induction false} PermutedEncoding(s: Schema, m: Msg, rs: seq<Record>, depth: nat)
    requires ValidSchema(s) && Shaped(s, m) && WellFormed(s, m, depth)
    requires m.unknown == [] && forall i :: 0 <= i < |s.fields| ==> !s.fields[i].kind.Repeated?
    requires multiset(rs) == multiset(RecordsFrom(s, m, 0))
    ensures Parse(s, Default(s), WriteRecords(rs), depth) == Some(m)
  {
    var cs := RecordsFrom(s, m, 0);
    CanonicalDistinct(s, m, 0);
    forall t ensures Select(s, cs, t) == Select(s, rs, t) {
      PermutedSelect(s, cs, rs, t);
    }
    FieldOrder(s, Default(s), cs, rs, depth);
    RecordsFromFit(s, m, 0, depth);
    forall r | r in rs ensures Fits(r, depth) {
      assert r in multiset(rs);
      assert r in cs;
    }
    ReadRecordsOfWrite(rs, depth);
    ReadRecordsOfWrite(cs, depth);
    RoundTrip(s, m, depth);
  }

  lemma {:induction false} CanonicalDistinct(s: Schema, m: Msg, i: nat)
    requires ValidSchema(s) && Shaped(s, m) && i <= |s.fields|
    requires m.unknown == [] && forall j :: 0 <= j < |s.fields| ==> !s.fields[j].kind.Repeated?
    ensures DistinctTargets(s, RecordsFrom(s, m, i))
    ensures forall r | r in RecordsFrom(s, m, i) :: Target(s, r).Some? && Target(s, r).value >= i
    decreases |s.fields| - i
  {
    if i < |s.fields| {
      var f := s.fields[i];
      var rs := ValRecords(f.num, f.kind, m.vals[i]);
      CanonicalDistinct(s, m, i + 1);
      assert |rs| <= 1;
      if |rs| == 1 {
        TargetOf(s, i, rs[0]);
      }
    }
  }

  // ------------------------------------------------------- packed and single

  // The values of a run of packed chunks and single entries, in wire order.
  function PackedValues(rs: seq<Record>): Option<seq<U64>>
    requires forall r | r in rs :: WireMatches(Packed, r)
  {
    if rs == [] then Some([])
    else
      assert WireMatches(Packed, rs[0]);
      match (if rs[0].Varint? then Some([rs[0].v]) else DecodePacked(rs[0].data), PackedValues(rs[1..]))
      case (Some(vs), Some(ws)) => Some(vs + ws)
      case _ => None
  }

  lemma {:induction false} FoldPacked(ns: seq<U64>, rs: seq<Record>, depth: nat)
    requires forall r | r in rs :: WireMatches(Packed, r)
    ensures FoldField(Packed, Ints(ns), rs, depth) ==
            match PackedValues(rs)
            case None => None
            case Some(vs) => Some(Ints(ns + vs))
    decreases |rs|
  {
    if rs == [] {
      assert ns + [] == ns;
    } else {
      var v := ApplyVal(Packed, Ints(ns), rs[0], depth);
      if v.Some? {
        var vs := if rs[0].Varint? then [rs[0].v] else DecodePacked(rs[0].data).value;
        FoldPacked(ns + vs, rs[1..], depth);
        if PackedValues(rs[1..]).Some? {
          var ws := PackedValues(rs[1..]).value;
          assert (ns + vs) + ws == ns + (vs + ws);
        }
      }
    }
  }
}
