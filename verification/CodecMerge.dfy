/**
  When parsing into a message comes to merging into it, for any input and every
  schema.  The two differ in a field that the wire sets to its default value:
  the parser stores the default, a merge keeps what was there.
 */
module CodecMerge {
  import opened Wire
  import opened Records
  import opened Codec
  import opened CodecLaws
  import opened CodecTheorems
  import Schemas

  // ------------------------------------------------------------ the condition

  // The contents of records of one sub-message field, one behind the other.
  function Contents(rs: seq<Record>): Bytes
    requires forall r | r in rs :: r.Len?
  {
    if rs == [] then [] else rs[0].data + Contents(rs[1..])
  }

  // The record sets a singular field to another value than its default.
  predicate Sets(k: Kind, r: Record)
    requires WireMatches(k, r)
  {
    match k
    case UInt32 => r.v % TWO_32 != 0
    case Enum => TruncateToI32(r.v) != 0
    case Float => r.bits32 != 0
    case String => r.data != []
    case UInt64 => r.v != 0
    case Bool => r.v != 0
    case _ => true
  }

  // No singular field is last set to its default, in sub-messages either.
  predicate Overwrites(s: Schema, b: Bytes, depth: nat)
    decreases s, 1
  {
    match ReadRecords(b, depth)
    case None => false
    case Some(rs) =>
      forall i :: 0 <= i < |s.fields| ==> OverwritesField(s.fields[i].kind, Select(s, rs, Some(i)), depth)
  }

  predicate OverwritesField(k: Kind, rs: seq<Record>, depth: nat)
    requires forall r | r in rs :: WireMatches(k, r)
    decreases k, 0
  {
    if rs == [] then true
    else
      match k
      case Message(sub) =>
        assert forall r | r in rs :: WireMatches(k, r);
        depth > 0 && Overwrites(sub, Contents(rs), depth - 1)
      case _ => Sets(k, rs[|rs| - 1])
  }

  // ----------------------------------------------- success is the input's alone

  lemma {:induction false} SameSuccess(s: Schema, m: Msg, w: Msg, b: Bytes, depth: nat)
    requires Shaped(s, m) && Shaped(s, w)
    ensures Parse(s, m, b, depth).Some? <==> Parse(s, w, b, depth).Some?
    decreases s, 1
  {
    if ReadRecords(b, depth).Some? {
      var rs := ReadRecords(b, depth).value;
      FoldFieldwise(s, m, rs, depth);
      FoldFieldwise(s, w, rs, depth);
      forall i | 0 <= i < |s.fields|
        ensures FieldOutcome(s, m, rs, i, depth).Some? <==> FieldOutcome(s, w, rs, i, depth).Some?
      {
        SameFieldSuccess(s.fields[i].kind, m.vals[i], w.vals[i], Select(s, rs, Some(i)), depth);
      }
    }
  }

  lemma {:induction false} SameFieldSuccess(k: Kind, v: Value, w: Value, rs: seq<Record>, depth: nat)
    requires ShapedVal(k, v) && ShapedVal(k, w) && forall r | r in rs :: WireMatches(k, r)
    ensures FoldField(k, v, rs, depth).Some? <==> FoldField(k, w, rs, depth).Some?
    decreases k, 0, |rs|
  {
    if rs != [] {
      var r := rs[0];
      assert WireMatches(k, r);
      if k.Message? && depth > 0 {
        SameSuccess(k.sub, v.m.GetOr(Default(k.sub)), w.m.GetOr(Default(k.sub)), r.data, depth - 1);
      }
      assert ApplyVal(k, v, r, depth).Some? <==> ApplyVal(k, w, r, depth).Some?;
      if ApplyVal(k, v, r, depth).Some? {
        SameFieldSuccess(k, ApplyVal(k, v, r, depth).value, ApplyVal(k, w, r, depth).value, rs[1..], depth);
      }
    }
  }

  // ------------------------------------------------------- one field at a time

  // Parsing rs into any value of the field merges what they parse to alone.
  ghost predicate FieldMerges(k: Kind, rs: seq<Record>, depth: nat)
    requires forall r | r in rs :: WireMatches(k, r)
    requires FoldField(k, DefaultVal(k), rs, depth).Some?
  {
    forall v | ShapedVal(k, v) ::
      FoldField(k, v, rs, depth) == Some(MergeVal(k, v, FoldField(k, DefaultVal(k), rs, depth).value))
  }

  // Every field parses on its own.
  predicate Reads(s: Schema, rs: seq<Record>, depth: nat) {
    forall i :: 0 <= i < |s.fields| ==>
      FoldField(s.fields[i].kind, DefaultVal(s.fields[i].kind), Select(s, rs, Some(i)), depth).Some?
  }

  ghost predicate Merges(s: Schema, b: Bytes, depth: nat)
    requires Parse(s, Default(s), b, depth).Some?
  {
    forall m | Shaped(s, m) ::
      Parse(s, m, b, depth) == Some(Merge(s, m, Parse(s, Default(s), b, depth).value))
  }

  // Of a scalar field or a string the last record counts.
  lemma {:induction false} LastCounts(k: Kind, v: Value, rs: seq<Record>, depth: nat)
    requires k.UInt64? || k.UInt32? || k.Bool? || k.Enum? || k.Float? || k.String?
    requires ShapedVal(k, v) && forall r | r in rs :: WireMatches(k, r)
    requires rs != [] && FoldField(k, v, rs, depth).Some?
    ensures FoldField(k, v, rs, depth) == ApplyVal(k, DefaultVal(k), rs[|rs| - 1], depth)
    decreases |rs|
  {
    var w := ApplyVal(k, v, rs[0], depth);
    assert w == ApplyVal(k, DefaultVal(k), rs[0], depth);
    if |rs| > 1 {
      LastCounts(k, w.value, rs[1..], depth);
    } else {
      assert rs[1..] == [];
    }
  }

  lemma {:induction false} ScalarMerges(k: Kind, rs: seq<Record>, depth: nat)
    requires k.UInt64? || k.UInt32? || k.Bool? || k.Enum? || k.Float? || k.String?
    requires forall r | r in rs :: WireMatches(k, r)
    requires FoldField(k, DefaultVal(k), rs, depth).Some?
    ensures FieldMerges(k, rs, depth) <==> OverwritesField(k, rs, depth)
  {
    if rs != [] {
      var last := ApplyVal(k, DefaultVal(k), rs[|rs| - 1], depth);
      forall v | ShapedVal(k, v) ensures FoldField(k, v, rs, depth) == last {
        SameFieldSuccess(k, DefaultVal(k), v, rs, depth);
        LastCounts(k, v, rs, depth);
      }
      assert ShapedVal(k, DefaultVal(k));
      assert Sets(k, rs[|rs| - 1]) <==> last.value != DefaultVal(k);
      var other := if k.String? then Str([0]) else Num(1);
      assert ShapedVal(k, other);
    }
  }

  // Successive records of a sub-message are one parse of all their contents.
  lemma {:induction false} FoldMessage(sub: Schema, v: Value, rs: seq<Record>, depth: nat)
    requires ShapedVal(Message(sub), v) && forall r | r in rs :: WireMatches(Message(sub), r)
    requires rs != [] && FoldField(Message(sub), v, rs, depth).Some?
    ensures depth > 0
    ensures var w := Parse(sub, v.m.GetOr(Default(sub)), Contents(rs), depth - 1);
            w.Some? && FoldField(Message(sub), v, rs, depth) == Some(Sub(w))
    decreases |rs|
  {
    hide Parse;
    var x, r, tail := v.m.GetOr(Default(sub)), rs[0], rs[1..];
    var y := ApplyVal(Message(sub), v, r, depth).value;
    assert ParseNested(sub, x, r.data, depth) == y.m;
    if tail == [] {
      assert r.data + [] == r.data;
    } else {
      FoldMessage(sub, y, tail, depth);
      ParseAppend(sub, x, r.data, Contents(tail), depth - 1);
    }
  }

  lemma {:induction false} MessageOutcome(sub: Schema, v: Value, rs: seq<Record>, depth: nat)
    requires forall r | r in rs :: WireMatches(Message(sub), r)
    requires rs != [] && FoldField(Message(sub), Sub(None), rs, depth).Some? && ShapedVal(Message(sub), v)
    ensures depth > 0 && Parse(sub, Default(sub), Contents(rs), depth - 1).Some?
    ensures var x, d := v.m.GetOr(Default(sub)), Parse(sub, Default(sub), Contents(rs), depth - 1).value;
            && FoldField(Message(sub), Sub(None), rs, depth) == Some(Sub(Some(d)))
            && (FoldField(Message(sub), v, rs, depth) == Some(MergeVal(Message(sub), v, Sub(Some(d))))
                <==> Parse(sub, x, Contents(rs), depth - 1) == Some(Merge(sub, x, d)))
  {
    hide Parse, Merge;
    FoldMessage(sub, Sub(None), rs, depth);
    SameFieldSuccess(Message(sub), Sub(None), v, rs, depth);
    FoldMessage(sub, v, rs, depth);
  }

  lemma {:induction false} MessageMergesContents(sub: Schema, rs: seq<Record>, depth: nat)
    requires forall r | r in rs :: WireMatches(Message(sub), r)
    requires rs != [] && FoldField(Message(sub), Sub(None), rs, depth).Some?
    ensures depth > 0 && Parse(sub, Default(sub), Contents(rs), depth - 1).Some?
    ensures FieldMerges(Message(sub), rs, depth) <==> Merges(sub, Contents(rs), depth - 1)
  {
    hide Parse, FoldField, MergeVal, Merge, Contents, Default;
    var k, b := Message(sub), Contents(rs);
    MessageOutcome(sub, Sub(None), rs, depth);
    if Merges(sub, b, depth - 1) {
      forall v | ShapedVal(k, v)
        ensures FoldField(k, v, rs, depth) == Some(MergeVal(k, v, FoldField(k, DefaultVal(k), rs, depth).value))
      {
        MessageOutcome(sub, v, rs, depth);
      }
    }
    if FieldMerges(k, rs, depth) {
      forall m | Shaped(sub, m)
        ensures Parse(sub, m, b, depth - 1) == Some(Merge(sub, m, Parse(sub, Default(sub), b, depth - 1).value))
      {
        assert ShapedVal(k, Sub(Some(m)));
        MessageOutcome(sub, Sub(Some(m)), rs, depth);
      }
    }
  }

  lemma {:induction false} NoRecordMerges(k: Kind, depth: nat)
    ensures FieldMerges(k, [], depth) && OverwritesField(k, [], depth)
  {
    hide Overwrites, MergeVal;
    forall v | ShapedVal(k, v) ensures FoldField(k, v, [], depth) == Some(MergeVal(k, v, DefaultVal(k))) {
      MergeValDefaultRight(k, v);
    }
  }

  lemma {:induction false} OverwritesMessage(sub: Schema, rs: seq<Record>, depth: nat)
    requires forall r | r in rs :: WireMatches(Message(sub), r)
    requires depth > 0 && rs != []
    ensures OverwritesField(Message(sub), rs, depth) <==> Overwrites(sub, Contents(rs), depth - 1)
  {
    hide Overwrites;
  }

  lemma {:induction false} MessageMerges(sub: Schema, rs: seq<Record>, depth: nat)
    requires forall r | r in rs :: WireMatches(Message(sub), r)
    requires FoldField(Message(sub), Sub(None), rs, depth).Some?
    ensures FieldMerges(Message(sub), rs, depth) <==> OverwritesField(Message(sub), rs, depth)
    decreases sub, 5
  {
    hide Parse, Overwrites, OverwritesField, Merges, FieldMerges, FoldField, Contents, Shaped;
    if rs == [] {
      NoRecordMerges(Message(sub), depth);
    } else {
      MessageMergesContents(sub, rs, depth);
      OverwritesMessage(sub, rs, depth);
      MergesExactly(sub, Contents(rs), depth - 1);
    }
  }

  lemma {:induction false} RepeatedAppends(sub: Schema, ms: seq<Msg>, rs: seq<Record>, depth: nat)
    requires forall r | r in rs :: WireMatches(Repeated(sub), r)
    requires forall x | x in ms :: Shaped(sub, x)
    requires FoldField(Repeated(sub), Rep([]), rs, depth).Some?
    ensures FoldField(Repeated(sub), Rep(ms), rs, depth) ==
            Some(Rep(ms + FoldField(Repeated(sub), Rep([]), rs, depth).value.ms))
    decreases |rs|
  {
    var k := Repeated(sub);
    if rs == [] {
      assert ms + [] == ms;
    } else {
      var r, tail := rs[0], rs[1..];
      assert WireMatches(k, r);
      var x := ParseNested(sub, Default(sub), r.data, depth).value;
      assert [] + [x] == [x];
      SameFieldSuccess(k, Rep([x]), Rep([]), tail, depth);
      RepeatedAppends(sub, [x], tail, depth);
      RepeatedAppends(sub, ms + [x], tail, depth);
      var rest := FoldField(k, Rep([]), tail, depth).value.ms;
      assert (ms + [x]) + rest == ms + ([x] + rest);
    }
  }

  lemma {:induction false} FieldMergesExactly(k: Kind, rs: seq<Record>, depth: nat)
    requires forall r | r in rs :: WireMatches(k, r)
    requires FoldField(k, DefaultVal(k), rs, depth).Some?
    ensures FieldMerges(k, rs, depth) <==> OverwritesField(k, rs, depth)
    decreases k, 3
  {
    match k {
      case Message(sub) => MessageMerges(sub, rs, depth);
      case Repeated(sub) =>
        forall v | ShapedVal(k, v)
          ensures FoldField(k, v, rs, depth) == Some(MergeVal(k, v, FoldField(k, DefaultVal(k), rs, depth).value))
        {
          RepeatedAppends(sub, v.ms, rs, depth);
        }
      case Packed =>
        forall v | ShapedVal(k, v)
          ensures FoldField(k, v, rs, depth) == Some(MergeVal(k, v, FoldField(k, DefaultVal(k), rs, depth).value))
        {
          FoldPacked(v.ns, rs, depth);
          FoldPacked([], rs, depth);
          assert [] + PackedValues(rs).value == PackedValues(rs).value;
        }
      case _ => ScalarMerges(k, rs, depth);
    }
  }

  // ------------------------------------------------------------------ results

  // Parsing an input into any message merges what the input parses to alone,
  // exactly when it last sets no singular field to its default.
  lemma {:induction false} MergesExactly(s: Schema, b: Bytes, depth: nat)
    requires Parse(s, Default(s), b, depth).Some?
    ensures Merges(s, b, depth) <==> Overwrites(s, b, depth)
    decreases s, 4
  {
    var rs := ReadRecords(b, depth).value;
    FoldFieldwise(s, Default(s), rs, depth);
    forall i | 0 <= i < |s.fields|
      ensures FoldField(s.fields[i].kind, DefaultVal(s.fields[i].kind), Select(s, rs, Some(i)), depth).Some?
      ensures FieldMerges(s.fields[i].kind, Select(s, rs, Some(i)), depth)
              <==> OverwritesField(s.fields[i].kind, Select(s, rs, Some(i)), depth)
    {
      assert FieldOutcome(s, Default(s), rs, i, depth).Some?;
      FieldMergesExactly(s.fields[i].kind, Select(s, rs, Some(i)), depth);
    }
    MergesFieldwise(s, b, depth);
  }

  lemma {:induction false} MergesFieldwise(s: Schema, b: Bytes, depth: nat)
    requires Parse(s, Default(s), b, depth).Some?
    requires Reads(s, ReadRecords(b, depth).value, depth)
    ensures var rs := ReadRecords(b, depth).value;
            Merges(s, b, depth)
            <==> forall i :: 0 <= i < |s.fields| ==> FieldMerges(s.fields[i].kind, Select(s, rs, Some(i)), depth)
  {
    hide FieldMerges, MergeVal, FoldField, Fold, ReadRecords;
    var rs := ReadRecords(b, depth).value;
    var d := Default(s);
    FoldFieldwise(s, d, rs, depth);
    if forall i :: 0 <= i < |s.fields| ==> FieldMerges(s.fields[i].kind, Select(s, rs, Some(i)), depth) {
      forall m | Shaped(s, m) ensures Parse(s, m, b, depth) == Some(Merge(s, m, Parse(s, d, b, depth).value)) {
        FieldsMerge(s, m, rs, depth);
      }
    }
    if Merges(s, b, depth) {
      forall i | 0 <= i < |s.fields| ensures FieldMerges(s.fields[i].kind, Select(s, rs, Some(i)), depth) {
        MergesField(s, b, i, depth);
      }
    }
  }

  lemma {:induction false} FieldsMerge(s: Schema, m: Msg, rs: seq<Record>, depth: nat)
    requires Shaped(s, m)
    ensures var d := Fold(s, Default(s), rs, depth);
            d.Some? && Reads(s, rs, depth)
            && (forall i :: 0 <= i < |s.fields| ==> FieldMerges(s.fields[i].kind, Select(s, rs, Some(i)), depth))
            ==> Fold(s, m, rs, depth) == Some(Merge(s, m, d.value))
  {
    hide MergeVal, Fold, Select;
    if Fold(s, Default(s), rs, depth).Some? && Reads(s, rs, depth)
       && forall i :: 0 <= i < |s.fields| ==> FieldMerges(s.fields[i].kind, Select(s, rs, Some(i)), depth) {
      var d := Fold(s, Default(s), rs, depth).value;
      FoldFieldwise(s, Default(s), rs, depth);
      FoldFieldwise(s, m, rs, depth);
      forall i | 0 <= i < |s.fields|
        ensures FieldOutcome(s, m, rs, i, depth) == Some(MergeVal(s.fields[i].kind, m.vals[i], d.vals[i]))
      {
        assert FieldOutcome(s, Default(s), rs, i, depth) == Some(d.vals[i]);
      }
      assert [] + Select(s, rs, None) == Select(s, rs, None);
      MergeIs(s, m, d, Fold(s, m, rs, depth).value);
    }
  }

  lemma {:induction false} MergesField(s: Schema, b: Bytes, i: nat, depth: nat)
    requires Parse(s, Default(s), b, depth).Some? && Merges(s, b, depth) && i < |s.fields|
    requires Reads(s, ReadRecords(b, depth).value, depth)
    ensures FieldMerges(s.fields[i].kind, Select(s, ReadRecords(b, depth).value, Some(i)), depth)
  {
    hide MergeVal, Fold, Select;
    var rs, k := ReadRecords(b, depth).value, s.fields[i].kind;
    var d := Fold(s, Default(s), rs, depth).value;
    FoldFieldwise(s, Default(s), rs, depth);
    forall v | ShapedVal(k, v)
      ensures FoldField(k, v, Select(s, rs, Some(i)), depth) == Some(MergeVal(k, v, d.vals[i]))
    {
      var m := Default(s).(vals := Default(s).vals[i := v]);
      assert Shaped(s, m);
      assert Parse(s, m, b, depth) == Some(Merge(s, m, d));
      FoldFieldwise(s, m, rs, depth);
      assert FieldOutcome(s, m, rs, i, depth) == Some(Merge(s, m, d).vals[i]);
    }
  }

  // "Last One Wins" for any second input: the concatenation parses to the merge
  // of the two parts.
  lemma {:induction false} AppendMerges(s: Schema, m: Msg, b: Bytes, c: Bytes, depth: nat)
    requires Shaped(s, m) && Parse(s, m, b, depth).Some?
    requires Parse(s, Default(s), c, depth).Some? && Overwrites(s, c, depth)
    ensures Parse(s, m, b + c, depth) ==
            Some(Merge(s, Parse(s, m, b, depth).value, Parse(s, Default(s), c, depth).value))
  {
    MergesExactly(s, c, depth);
    ParseAppend(s, m, b, c, depth);
  }

  // What a serializer writes never sets a field to its default.
  lemma {:induction false} SerializedOverwrites(s: Schema, m: Msg, depth: nat)
    requires ValidSchema(s) && Shaped(s, m) && WellFormed(s, m, depth)
    ensures Overwrites(s, Serialize(s, m), depth)
  {
    hide Parse, Serialize;
    var b := Serialize(s, m);
    RoundTrip(s, m, depth);
    forall a | Shaped(s, a) ensures Parse(s, a, b, depth) == Some(Merge(s, a, m)) {
      ParseSerialized(s, a, m, depth);
    }
    MergesExactly(s, b, depth);
  }

  // An id that is sent as 0 resets the one there, and is lost in a merge.
  lemma {:induction false} ResetExample(depth: nat)
    ensures var s, m := Schemas.OBJECT_INFO, Msg([Num(7), Str([]), Num(0), Sub(None)], []);
            && Parse(s, m, [8, 0], depth) == Some(Default(s)) && Parse(s, Default(s), [8, 0], depth) == Some(Default(s))
            && Merge(s, m, Default(s)) == m
  {
    hide Fold;
    var s, m, r := Schemas.OBJECT_INFO, Msg([Num(7), Str([]), Num(0), Sub(None)], []), Varint(1, 0);
    ReadRecordsOfWrite([r], depth);
    WriteOne(r);
    assert WriteRecord(r) == [8, 0];
    Schemas.StructSchemas();
    TargetOf(s, 0, r);
    FoldOne(s, m, r, depth);
    FoldOne(s, Default(s), r, depth);
    assert m.vals[0 := Num(0)] == Default(s).vals == Default(s).vals[0 := Num(0)];
    MergeDefaultRight(s, m);
  }
}
