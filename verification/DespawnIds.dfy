/**
  The ids of a RES_DESPAWN (Protocol/Protocol.pb.cc:3522-3608) in any encoding:
  packed chunks and single entries in any order, among any other fields.
 */
module DespawnIds {
  import opened Wire
  import opened Records
  import opened Codec
  import opened CodecLaws
  import opened CodecTheorems
  import opened Schemas

  // The records of the field ids.
  function IdRecords(rs: seq<Record>): (ss: seq<Record>)
    ensures forall r | r in ss :: r in rs && WireMatches(Packed, r)
  {
    Select(RES_DESPAWN, rs, Some(0))
  }

  // All ids in wire order and the other fields, unless a packed chunk does not
  // end with a whole varint.
  function Despawned(rs: seq<Record>): Option<Msg> {
    match PackedValues(IdRecords(rs))
    case None => None
    case Some(vs) => Some(Msg([Ints(vs)], Select(RES_DESPAWN, rs, None)))
  }

  lemma {:induction false} FoldDespawned(rs: seq<Record>, depth: nat)
    ensures Fold(RES_DESPAWN, Default(RES_DESPAWN), rs, depth) == Despawned(rs)
  {
    hide Select, Fold, PackedValues;
    var m := Default(RES_DESPAWN);
    FoldFieldwise(RES_DESPAWN, m, rs, depth);
    FoldPacked([], IdRecords(rs), depth);
    assert FieldOutcome(RES_DESPAWN, m, rs, 0, depth) == FoldField(Packed, Ints([]), IdRecords(rs), depth);
    assert |RES_DESPAWN.fields| == 1;
    var w := Fold(RES_DESPAWN, m, rs, depth);
    if PackedValues(IdRecords(rs)).Some? {
      assert forall i :: 0 <= i < |RES_DESPAWN.fields| ==> i == 0 && FieldOutcome(RES_DESPAWN, m, rs, i, depth).Some?;
      var vs := PackedValues(IdRecords(rs)).value;
      assert [] + vs == vs;
      assert FieldOutcome(RES_DESPAWN, m, rs, 0, depth) == Some(w.value.vals[0]);
      assert w.value.vals == [Ints(vs)];
      assert [] + Select(RES_DESPAWN, rs, None) == Select(RES_DESPAWN, rs, None);
    }
  }

  // Any bytes parse to all the ids in them, in wire order, however they are cut
  // into chunks and mixed with other fields; they are rejected exactly when
  // they do not consist of fields or a chunk breaks off.
  lemma {:induction false} AnyInterleaving(b: Bytes, depth: nat)
    ensures Parse(RES_DESPAWN, Default(RES_DESPAWN), b, depth) ==
            if ReadRecords(b, depth).None? then None else Despawned(ReadRecords(b, depth).value)
  {
    if ReadRecords(b, depth).Some? {
      FoldDespawned(ReadRecords(b, depth).value, depth);
    }
  }

  // Two inputs with the same ids, however cut into chunks, and the same other
  // fields parse alike.
  lemma {:induction false} ChunkingDoesNotMatter(b: Bytes, c: Bytes, depth: nat)
    requires ReadRecords(b, depth).Some? && ReadRecords(c, depth).Some?
    requires var rs, ss := ReadRecords(b, depth).value, ReadRecords(c, depth).value;
             && PackedValues(IdRecords(rs)) == PackedValues(IdRecords(ss))
             && Select(RES_DESPAWN, rs, None) == Select(RES_DESPAWN, ss, None)
    ensures Parse(RES_DESPAWN, Default(RES_DESPAWN), b, depth) == Parse(RES_DESPAWN, Default(RES_DESPAWN), c, depth)
  {
    AnyInterleaving(b, depth);
    AnyInterleaving(c, depth);
  }

  // Ids as a sender may write them.
  datatype Chunk = Single(v: U64) | Several(vs: seq<U64>)

  function ChunkRecord(c: Chunk): (r: Record)
    ensures WireMatches(Packed, r) && r.num == 1
  {
    match c
    case Single(v) => Varint(1, v)
    case Several(vs) => Len(1, EncodePacked(vs))
  }

  function ChunkRecords(cs: seq<Chunk>): (rs: seq<Record>)
    ensures forall r | r in rs :: WireMatches(Packed, r) && r.num == 1
  {
    if cs == [] then [] else [ChunkRecord(cs[0])] + ChunkRecords(cs[1..])
  }

  function ChunkIds(cs: seq<Chunk>): seq<U64> {
    if cs == [] then []
    else (match cs[0] case Single(v) => [v] case Several(vs) => vs) + ChunkIds(cs[1..])
  }

  predicate ChunksFit(cs: seq<Chunk>) {
    forall c | c in cs :: c.Several? ==> PackedSize(c.vs) <= MAX_LENGTH
  }

  // Any sequence of single ids and packed chunks parses to all the ids, exactly
  // when every chunk's length is in range.
  lemma {:induction false} EncodedChunks(cs: seq<Chunk>, depth: nat)
    ensures Parse(RES_DESPAWN, Default(RES_DESPAWN), WriteRecords(ChunkRecords(cs)), depth) ==
            if ChunksFit(cs) then Some(Msg([Ints(ChunkIds(cs))], [])) else None
  {
    hide WriteRecords, Despawned;
    ReadRecordsOfWrite(ChunkRecords(cs), depth);
    ChunksFitExactly(cs, depth);
    FoldDespawned(ChunkRecords(cs), depth);
    ChunksDespawned(cs);
  }

  lemma {:induction false} ChunksFitExactly(cs: seq<Chunk>, depth: nat)
    ensures AllFit(ChunkRecords(cs), depth) <==> ChunksFit(cs)
  {
    if cs != [] {
      hide EncodePacked, PackedSize;
      var c, tail := cs[0], cs[1..];
      var r, rs := ChunkRecord(c), ChunkRecords(tail);
      ChunksFitExactly(tail, depth);
      if c.Several? {
        PackedSizeExact(c.vs);
      }
      assert forall q | q in [r] + rs :: q == r || q in rs;
      assert r in [r] + rs && forall q | q in rs :: q in [r] + rs;
      assert cs == [c] + tail;
    }
  }

  lemma {:induction false} ChunksDespawned(cs: seq<Chunk>)
    ensures Despawned(ChunkRecords(cs)) == Some(Msg([Ints(ChunkIds(cs))], []))
  {
    ChunksSelected(ChunkRecords(cs));
    ChunkValues(cs);
  }

  lemma {:induction false} ChunksSelected(rs: seq<Record>)
    requires forall r | r in rs :: WireMatches(Packed, r) && r.num == 1
    ensures Select(RES_DESPAWN, rs, Some(0)) == rs && Select(RES_DESPAWN, rs, None) == []
    decreases |rs|
  {
    if rs != [] {
      ScalarResponseSchemas();
      TargetOf(RES_DESPAWN, 0, rs[0]);
      ChunksSelected(rs[1..]);
    }
  }

  lemma {:induction false} ChunkValues(cs: seq<Chunk>)
    ensures PackedValues(ChunkRecords(cs)) == Some(ChunkIds(cs))
  {
    if cs != [] {
      ChunkValues(cs[1..]);
      if cs[0].Several? {
        DecodePackedOfEncode(cs[0].vs);
      }
      assert ChunkRecords(cs)[1..] == ChunkRecords(cs[1..]);
    }
  }

  // Written again, the ids are one packed chunk or nothing, and that chunk
  // reads back as the same ids exactly when its length is in range.
  lemma {:induction false} Repacked(vs: seq<U64>, depth: nat)
    ensures var m := Msg([Ints(vs)], []);
            && RecordsFrom(RES_DESPAWN, m, 0) == (if vs == [] then [] else [Len(1, EncodePacked(vs))])
            && (Parse(RES_DESPAWN, Default(RES_DESPAWN), Serialize(RES_DESPAWN, m), depth) == Some(m)
                <==> PackedSize(vs) <= MAX_LENGTH)
  {
    ScalarResponseSchemas();
    var m := Msg([Ints(vs)], []);
    RoundTrip(RES_DESPAWN, m, depth);
    assert RecordsFrom(RES_DESPAWN, m, 1) == [];
    assert SizesFit(RES_DESPAWN, m) <==> SizesFitVal(Packed, Ints(vs));
  }
}
