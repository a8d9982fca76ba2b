/**
  A repeated ObjectInfo field (RepeatedPtrField), with the loops that every
  message holding one repeats: Protocol/Protocol.pb.cc:1380-1398 (parse),
  1447-1453 (write), 1482-1487 (size) and 1522 (merge).
 */
module ObjectInfoLists {
  import opened Wire
  import opened Records
  import opened Codec
  import opened CodecLaws
  import opened Schemas
  import opened Streams
  import opened ObjectInfos

  class ObjectInfoList {
    var items: seq<ObjectInfo>
    ghost var repr: set<object>       // the list, its messages and their parts
    ghost var cells: set<CachedSize>  // their cached size cells

    constructor ()
      ensures Valid() && Msgs() == [] && fresh(repr) && cells == {}
    {
      items, repr, cells := [], {this}, {};
    }

    // The list's messages share nothing.
    ghost predicate Valid()
      reads this, repr
      ensures Valid() ==> this in repr
    {
      && this in repr
      && (forall i :: 0 <= i < |items| ==>
            && items[i] in repr && items[i].Footprint() <= repr
            && items[i].Cells() <= cells && items[i].Valid())
      && (forall i, j :: 0 <= i < j < |items| ==> items[i].Cells() !! items[j].Cells())
    }

    ghost function Msgs(): (ms: seq<Msg>)
      requires Valid()
      reads this, repr
      ensures |ms| == |items| && forall x | x in ms :: Shaped(OBJECT_INFO, x)
      ensures forall i :: 0 <= i < |items| ==> ms[i] == items[i].Value()
    {
      MsgsUpTo(|items|)
    }

    ghost function MsgsUpTo(n: nat): (ms: seq<Msg>)
      requires Valid() && n <= |items|
      reads this, repr
      ensures |ms| == n && forall x | x in ms :: Shaped(OBJECT_INFO, x)
      ensures forall i :: 0 <= i < n ==> ms[i] == items[i].Value()
    {
      if n == 0 then [] else MsgsUpTo(n - 1) + [items[n - 1].Value()]
    }

    method Clear()
      modifies this
      ensures Valid() && Msgs() == [] && repr == {this} && cells == {}
    {
      items, repr, cells := [], {this}, {};
    }

    // Takes over a message that is not shared with the list.
    method Append(p: ObjectInfo)
      requires Valid() && p.Valid() && p.Cells() !! cells
      modifies this
      ensures Valid() && repr == old(repr) + p.Footprint() && cells == old(cells) + p.Cells()
      ensures Msgs() == old(Msgs()) + [p.Value()]
    {
      hide Shaped;
      ghost var ms := Msgs();
      items := items + [p];
      repr, cells := repr + p.Footprint(), cells + p.Cells();
      assert Msgs() == ms + [p.Value()];
    }

    // _internal_add_players and ParseMessage: one element of the inner loop.
    method AddParsed(buf: Bytes, ptr: nat, limit: nat, depth: nat) returns (next: Option<nat>)
      requires ptr <= limit <= |buf| && Valid()
      modifies this
      ensures Valid() && fresh(repr - old(repr)) && fresh(cells - old(cells))
      ensures next.Some? <==> NestedResult(OBJECT_INFO, Default(OBJECT_INFO), buf[ptr..limit], depth).Some?
      ensures next.Some? ==>
                && next.value == ptr + ReadLen(buf[ptr..limit]).value.1
                && Msgs() == old(Msgs()) +
                             [NestedResult(OBJECT_INFO, Default(OBJECT_INFO), buf[ptr..limit], depth).value]
    {
      hide NestedResult, Default, ReadLen, Shaped, ObjectInfo.Value;
      var p := new ObjectInfo();
      next := p.ParseMessage(buf, ptr, limit, depth);
      Append(p);
    }

    // ---------------------------------------------------------------- sizes

    static ghost predicate SizedItem(p: ObjectInfo)
      reads p.Footprint(), p.Cells()
    {
      p.Sized() && p.cachedSize.size == Size(OBJECT_INFO, p.Value())
    }

    ghost predicate Sized()
      requires Valid()
      reads this, repr, cells
    {
      forall i :: 0 <= i < |items| ==> SizedItem(items[i])
    }

    // Sizing one message leaves the cells of the others alone.
    method ItemSize(i: nat) returns (n: nat)
      requires Valid() && i < |items|
      modifies items[i].Cells()
      ensures Valid() && Msgs() == old(Msgs())
      ensures Agree(n, Size(OBJECT_INFO, old(Msgs())[i]))
      ensures n <= INT_MAX ==> SizedItem(items[i])
      ensures forall j :: 0 <= j < |items| && j != i && old(SizedItem(items[j])) ==> SizedItem(items[j])
    {
      hide Shaped, Size;
      n := items[i].ByteSizeLong();
    }

    // One byte of tag for each element, and their lengths and bodies.
    method ByteSize() returns (n: nat)
      requires Valid()
      modifies cells
      ensures Valid() && Msgs() == old(Msgs())
      ensures Agree(n, RepSize(OBJECT_INFO, old(Msgs())))
      ensures n <= INT_MAX ==> Sized()
    {
      hide Shaped, Size, RepSize, Agree, Msgs, MsgsUpTo, SizedItem, LengthDelimitedSize, LengthDelimitedSizeOf;
      ghost var ms := Msgs();
      n := |items|;
      RepSizeStart(ms, n);
      for i := 0 to |items|
        invariant Valid() && Msgs() == ms
        invariant Agree(n, |items| - i + RepSize(OBJECT_INFO, ms[..i]))
        invariant n <= INT_MAX ==> forall j :: 0 <= j < i ==> SizedItem(items[j])
      {
        var size := ItemSize(i);
        RepSizeStep(ms, i, n, size, |items| - i);
        n := n + LengthDelimitedSizeOf(size);
      }
      assert ms[..|items|] == ms;
    }

    // ---------------------------------------------------------------- bytes

    // Each element with the size its own cell holds.
    method WriteAll(num: FieldNum, out: array<Byte>, target: nat) returns (t: nat)
      requires num <= 15 && Valid() && Sized() && out !in repr
      requires target + |RepBytes(num, Msgs())| <= out.Length
      modifies out
      ensures Valid() && Msgs() == old(Msgs())
      ensures t == target + |RepBytes(num, old(Msgs()))| <= out.Length
      ensures out[..t] == old(out[..target]) + RepBytes(num, old(Msgs()))
      ensures forall i :: t <= i < out.Length ==> out[i] == old(out[i])
    {
      hide Shaped, RepBytes, ItemBytes, Msgs, MsgsUpTo;
      ghost var ms := Msgs();
      t := target;
      RepBytesStart(num);
      for i := 0 to |items|
        invariant Valid() && Msgs() == ms && Sized()
        invariant |RepBytes(num, ms[..i])| <= |RepBytes(num, ms)|
        invariant t == target + |RepBytes(num, ms[..i])|
        invariant out[..t] == old(out[..target]) + RepBytes(num, ms[..i])
        invariant forall j :: t <= j < out.Length ==> out[j] == old(out[j])
      {
        RepBytesStep(num, ms, i);
        t := WriteItem(num, i, out, t);
      }
      assert ms[..|items|] == ms;
    }

    method WriteItem(num: FieldNum, i: nat, out: array<Byte>, target: nat) returns (t: nat)
      requires num <= 15 && Valid() && Sized() && out !in repr && i < |items|
      requires target + |ItemBytes(num, Msgs()[i])| <= out.Length
      modifies out
      ensures Valid() && Msgs() == old(Msgs()) && Sized()
      ensures t == target + |ItemBytes(num, old(Msgs())[i])| <= out.Length
      ensures out[..t] == old(out[..target]) + ItemBytes(num, old(Msgs())[i])
      ensures forall i :: t <= i < out.Length ==> out[i] == old(out[i])
    {
      hide Shaped, Size, Serialize, EncodeVarint, Msgs, MsgsUpTo;
      StructSchemas();
      assert SizedItem(items[i]);
      SizeExact(OBJECT_INFO, items[i].Value());
      t := WriteLengthDelim(out, target, num, items[i].cachedSize.size);
      t := items[i].InternalSerialize(out, t);
    }

    // ---------------------------------------------------------------- merging

    // RepeatedPtrField::MergeFrom appends copies.
    method MergeFrom(from: ObjectInfoList)
      requires Valid() && from.Valid() && this !in from.repr
      modifies this
      ensures Valid() && fresh(repr - old(repr)) && fresh(cells - old(cells))
      ensures from.Valid() && from.Msgs() == old(from.Msgs())
      ensures Msgs() == old(Msgs()) + old(from.Msgs())
    {
      hide Shaped, Msgs, MsgsUpTo;
      ghost var ms := from.Msgs();
      for i := 0 to |from.items|
        invariant Valid() && fresh(repr - old(repr)) && fresh(cells - old(cells))
        invariant from.Valid() && from.Msgs() == ms
        invariant Msgs() == old(Msgs()) + ms[..i]
      {
        AppendCopy(from.items[i]);
        assert ms[..i + 1] == ms[..i] + [ms[i]];
      }
      assert ms[..|from.items|] == ms;
    }

    method AppendCopy(x: ObjectInfo)
      requires Valid() && x.Valid() && this !in x.Footprint()
      modifies this
      ensures Valid() && fresh(repr - old(repr)) && fresh(cells - old(cells))
      ensures Msgs() == old(Msgs()) + [old(x.Value())]
    {
      hide Shaped, Msgs, MsgsUpTo, ObjectInfo.Value;
      var p := Copy(x);
      Append(p);
    }

    static method Copy(x: ObjectInfo) returns (p: ObjectInfo)
      requires x.Valid()
      ensures p.Valid() && fresh(p.Footprint()) && fresh(p.Cells())
      ensures p.Value() == x.Value()
    {
      hide Shaped, Merge, Default;
      MergeDefaultLeft(OBJECT_INFO, x.Value());
      p := new ObjectInfo();
      p.MergeFrom(x);
    }
  }

  lemma {:induction false} RepSizeStart(ms: seq<Msg>, n: nat)
    requires forall x | x in ms :: Shaped(OBJECT_INFO, x)
    ensures Agree(n, n + RepSize(OBJECT_INFO, ms[..0]))
  {
  }

  lemma {:induction false} RepSizeStep(ms: seq<Msg>, i: nat, n: nat, size: nat, rest: nat)
    requires i < |ms| && (forall x | x in ms :: Shaped(OBJECT_INFO, x)) && rest > 0
    requires Agree(n, rest + RepSize(OBJECT_INFO, ms[..i])) && Agree(size, Size(OBJECT_INFO, ms[i]))
    ensures Agree(n + LengthDelimitedSizeOf(size), rest - 1 + RepSize(OBJECT_INFO, ms[..i + 1]))
    ensures n + LengthDelimitedSizeOf(size) <= INT_MAX ==>
              n <= INT_MAX && size <= INT_MAX && size == Size(OBJECT_INFO, ms[i])
  {
    LengthDelimitedAgree(size, Size(OBJECT_INFO, ms[i]));
    assert ms[..i + 1][..i] == ms[..i];
    assert ms[..i + 1][i] == ms[i];
  }

  function RepBytes(num: FieldNum, ms: seq<Msg>): Bytes
    requires forall x | x in ms :: Shaped(OBJECT_INFO, x)
  {
    WriteRecords(RepRecords(num, OBJECT_INFO, ms))
  }

  lemma {:induction false} RepBytesStart(num: FieldNum)
    ensures RepBytes(num, []) == []
  {
  }

  // A length-delimited element.
  function ItemBytes(num: FieldNum, x: Msg): Bytes
    requires Shaped(OBJECT_INFO, x)
  {
    Tag(num, 2) + EncodeVarint(Size(OBJECT_INFO, x)) + Serialize(OBJECT_INFO, x)
  }

  lemma {:induction false} RepBytesStep(num: FieldNum, ms: seq<Msg>, i: nat)
    requires i < |ms| && (forall x | x in ms :: Shaped(OBJECT_INFO, x))
    ensures RepBytes(num, ms[..i + 1]) == RepBytes(num, ms[..i]) + ItemBytes(num, ms[i])
    ensures |RepBytes(num, ms[..i + 1])| <= |RepBytes(num, ms)|
  {
    hide Serialize, Size, EncodeVarint;
    StructSchemas();
    SizeExact(OBJECT_INFO, ms[i]);
    var r := Len(num, Serialize(OBJECT_INFO, ms[i]));
    WriteOne(r);
    assert RepRecords(num, OBJECT_INFO, ms[..i + 1]) == RepRecords(num, OBJECT_INFO, ms[..i]) + [r];
    WriteRecordsConcat(RepRecords(num, OBJECT_INFO, ms[..i]), [r]);
    assert ItemBytes(num, ms[i])
        == Tag(num, 2) + (EncodeVarint(Size(OBJECT_INFO, ms[i])) + Serialize(OBJECT_INFO, ms[i]));
    assert RepRecords(num, OBJECT_INFO, ms)
        == RepRecords(num, OBJECT_INFO, ms[..i + 1]) + RepRecords(num, OBJECT_INFO, ms[i + 1..]);
    WriteRecordsConcat(RepRecords(num, OBJECT_INFO, ms[..i + 1]), RepRecords(num, OBJECT_INFO, ms[i + 1..]));
  }
}
