/**
  How many players a RES_SPAWN_ALL packet holds before its length no longer
  fits the 16-bit size of the packet header (ServerPacketHandler.h:95-96).

  The server builds the roster and its players itself; only a position, copied
  from a client's move request, can carry unknown fields.
 */
module HeaderBounds {
  import opened Wire
  import opened Records
  import opened Codec
  import opened Schemas
  import opened Streams
  import Framing

  // A position with unknown fields of at most u bytes.
  predicate SmallPosition(m: Msg, u: nat) {
    Shaped(POSITION_INFO, m) && RecordsSize(m.unknown) <= u
  }

  // A player with a name of at most k bytes.
  predicate SmallPlayer(m: Msg, k: nat, u: nat) {
    && Shaped(OBJECT_INFO, m) && m.unknown == [] && |m.vals| == 4
    && m.vals[1].Str? && |m.vals[1].s| <= k
    && m.vals[3].Sub? && (m.vals[3].m.Some? ==> SmallPosition(m.vals[3].m.value, u))
  }

  // A roster message with n such players.
  predicate SmallRoster(m: Msg, n: nat, k: nat, u: nat) {
    && Shaped(RES_SPAWN_ALL, m) && m.unknown == [] && |m.vals| == 1
    && m.vals[0].Rep? && |m.vals[0].ms| == n && forall x | x in m.vals[0].ms :: SmallPlayer(x, k, u)
  }

  // ---------------------------------------------------------------- the bounds

  // No record takes a single byte.
  function UnknownBound(u: nat): nat {
    if u == 1 then 0 else u
  }

  function PositionBound(u: nat): nat {
    5 + 5 + 11 + UnknownBound(u)
  }

  function NameBound(k: nat): nat {
    if k == 0 then 0 else 1 + LengthDelimitedSize(k)
  }

  function ObjectBound(k: nat, u: nat): nat {
    11 + NameBound(k) + 6 + (1 + LengthDelimitedSize(PositionBound(u)))
  }

  function EntryBound(k: nat, u: nat): nat {
    1 + LengthDelimitedSize(ObjectBound(k, u))
  }

  lemma {:induction false} VarintBounds(n: nat)
    ensures n < TWO_64 ==> VarintSize(n) <= 10
    ensures n < TWO_32 ==> VarintSize(n) <= 5
    ensures n < 0x4000 ==> VarintSize(n) <= 2
    ensures n < 0x80 ==> VarintSize(n) == 1
    ensures n >= 0x80 ==> VarintSize(n) >= 2
  {
    VarintSizeExact(n);
    EncodeLengthBounds(n);
  }

  lemma {:induction false} LengthDelimitedMonotone(m: nat, n: nat)
    requires m <= n
    ensures LengthDelimitedSize(m) <= LengthDelimitedSize(n)
  {
    VarintSizeExact(m);
    VarintSizeExact(n);
    EncodeLengthMonotone(m, n);
  }

  lemma {:induction false} RecordsNotOne(rs: seq<Record>)
    ensures RecordsSize(rs) != 1
  {
    if rs != [] {
      VarintSizeExact(0);
      assert RecordSize(rs[0]) >= 2;
    }
  }

  lemma {:induction false} PositionFits(m: Msg, u: nat)
    requires SmallPosition(m, u)
    ensures Size(POSITION_INFO, m) <= PositionBound(u)
  {
    StructSchemas();
    Layout(POSITION_INFO, m);
    ThreeFields(POSITION_INFO, m);
    RecordsNotOne(m.unknown);
    VarintBounds(SignExtend(m.vals[2].n));
  }

  lemma {:induction false} ObjectFits(m: Msg, k: nat, u: nat)
    requires SmallPlayer(m, k, u)
    ensures Size(OBJECT_INFO, m) <= ObjectBound(k, u)
  {
    hide Shaped, Size, LengthDelimitedSize;
    StructSchemas();
    Layout(OBJECT_INFO, m);
    FourFields(OBJECT_INFO, m);
    ObjectFields(m, k, u);
    assert RecordsSize([]) == 0;
  }

  lemma {:induction false} ObjectFields(m: Msg, k: nat, u: nat)
    requires SmallPlayer(m, k, u)
    ensures FieldSize(OBJECT_INFO, m, 0) <= 11 && FieldSize(OBJECT_INFO, m, 1) <= NameBound(k)
    ensures FieldSize(OBJECT_INFO, m, 2) <= 6
    ensures FieldSize(OBJECT_INFO, m, 3) <= 1 + LengthDelimitedSize(PositionBound(u))
  {
    hide Size, VarintSize, LengthDelimitedSize;
    assert forall i :: 0 <= i < 4 ==> ShapedVal(OBJECT_INFO.fields[i].kind, m.vals[i]);
    VarintBounds(m.vals[0].n);
    VarintBounds(m.vals[2].n);
    LengthDelimitedMonotone(|m.vals[1].s|, k);
    if m.vals[3].m.Some? {
      PositionFits(m.vals[3].m.value, u);
      LengthDelimitedMonotone(Size(POSITION_INFO, m.vals[3].m.value), PositionBound(u));
    }
  }

  lemma {:induction false} EntriesFit(ms: seq<Msg>, k: nat, u: nat)
    requires forall x | x in ms :: Shaped(OBJECT_INFO, x) && SmallPlayer(x, k, u)
    ensures RepSize(OBJECT_INFO, ms) <= EntryBound(k, u) * |ms|
  {
    hide Size, LengthDelimitedSize, Shaped, ObjectBound;
    if ms != [] {
      var last := ms[|ms| - 1];
      EntriesFit(ms[..|ms| - 1], k, u);
      ObjectFits(last, k, u);
      LengthDelimitedMonotone(Size(OBJECT_INFO, last), ObjectBound(k, u));
      assert EntryBound(k, u) * |ms| == EntryBound(k, u) * (|ms| - 1) + EntryBound(k, u);
    }
  }

  lemma {:induction false} RosterSize(m: Msg, n: nat, k: nat, u: nat)
    requires SmallRoster(m, n, k, u)
    ensures forall x | x in m.vals[0].ms :: Shaped(OBJECT_INFO, x)
    ensures Size(RES_SPAWN_ALL, m) == RepSize(OBJECT_INFO, m.vals[0].ms)
  {
    hide Size, RepSize;
    RepeatedSchemas();
    Layout(RES_SPAWN_ALL, m);
    OneField(RES_SPAWN_ALL, m);
    assert RecordsSize([]) == 0;
  }

  // ------------------------------------------------------ the largest roster

  // Unknown fields of exactly the bound: two bytes each, one of three if odd.
  function Filler(u: nat): seq<Record> {
    if u < 2 then [] else if u == 3 then [Varint(4, 128)] else [Varint(4, 0)] + Filler(u - 2)
  }

  function LargestPosition(u: nat): Msg {
    Msg([Num(1), Num(1), Num(-1)], Filler(u))
  }

  function LargestObject(k: nat, u: nat): Msg {
    Msg([Num(TWO_64 - 1), Str(seq(k, _ => 65)), Num(TWO_32 - 1), Sub(Some(LargestPosition(u)))], [])
  }

  function LargestRoster(n: nat, k: nat, u: nat): Msg {
    Msg([Rep(seq(n, _ => LargestObject(k, u)))], [])
  }

  lemma {:induction false} FillerSize(u: nat)
    ensures RecordsSize(Filler(u)) == UnknownBound(u)
    decreases u
  {
    hide VarintSize;
    VarintBounds(32);
    VarintBounds(0);
    VarintBounds(128);
    if u >= 2 && u != 3 {
      FillerSize(u - 2);
      assert ([Varint(4, 0)] + Filler(u - 2))[1..] == Filler(u - 2);
    }
    assert [Varint(4, 128)][1..] == [];
  }

  lemma {:induction false} LargestPositionSize(u: nat)
    ensures SmallPosition(LargestPosition(u), u) && Size(POSITION_INFO, LargestPosition(u)) == PositionBound(u)
  {
    hide RecordsSize, Filler;
    var m := LargestPosition(u);
    StructSchemas();
    Layout(POSITION_INFO, m);
    ThreeFields(POSITION_INFO, m);
    FillerSize(u);
    SignExtendTruncate(-1);
  }

  lemma {:induction false} LargestObjectSize(k: nat, u: nat)
    ensures SmallPlayer(LargestObject(k, u), k, u) && Size(OBJECT_INFO, LargestObject(k, u)) == ObjectBound(k, u)
  {
    hide Size, VarintSize, LengthDelimitedSize, PositionBound, LargestPosition;
    StructSchemas();
    LargestPositionSize(u);
    var m := LargestObject(k, u);
    Layout(OBJECT_INFO, m);
    FourFields(OBJECT_INFO, m);
    assert RecordsSize([]) == 0;
    LargestVarints();
  }

  lemma {:induction false} LargestVarints()
    ensures VarintSize(TWO_64 - 1) == 10 && VarintSize(TWO_32 - 1) == 5
  {
    VarintSizeExact(TWO_64 - 1);
    VarintSizeExact(TWO_32 - 1);
    VarintBounds(TWO_64 - 1);
    VarintBounds(TWO_32 - 1);
    EncodeLength(TWO_64 - 1, 9);
    EncodeLength(TWO_32 - 1, 4);
    assert Pow128(3) == 0x20_0000;
    assert Pow128(4) == 0x1000_0000;
    assert Pow128(6) == 0x400_0000_0000;
    assert Pow128(9) == 0x8000_0000_0000_0000;
  }

  lemma {:induction false} LargestEntries(ms: seq<Msg>, k: nat, u: nat)
    requires forall i :: 0 <= i < |ms| ==> ms[i] == LargestObject(k, u)
    ensures forall x | x in ms :: Shaped(OBJECT_INFO, x) && SmallPlayer(x, k, u)
    ensures RepSize(OBJECT_INFO, ms) == EntryBound(k, u) * |ms|
  {
    hide Size, LengthDelimitedSize, ObjectBound, LargestObject;
    LargestObjectSize(k, u);
    if ms != [] {
      LargestEntries(ms[..|ms| - 1], k, u);
      assert ms[|ms| - 1] == LargestObject(k, u);
      assert EntryBound(k, u) * |ms| == EntryBound(k, u) * (|ms| - 1) + EntryBound(k, u);
    }
  }

  lemma {:induction false} LargestRosterSize(n: nat, k: nat, u: nat)
    ensures SmallRoster(LargestRoster(n, k, u), n, k, u)
    ensures Size(RES_SPAWN_ALL, LargestRoster(n, k, u)) == EntryBound(k, u) * n
  {
    hide Size, RepSize, LargestObject, EntryBound;
    var m := LargestRoster(n, k, u);
    LargestEntries(m.vals[0].ms, k, u);
    assert ShapedVal(RES_SPAWN_ALL.fields[0].kind, m.vals[0]);
    assert Shaped(RES_SPAWN_ALL, m);
    assert SmallRoster(m, n, k, u);
    RosterSize(m, n, k, u);
  }

  // ----------------------------------------------------------------- results

  // Every roster of n players with names of at most k bytes and positions with
  // at most u bytes of unknown fields can be sent exactly when the n largest
  // can.
  lemma {:induction false} HeaderBound(n: nat, k: nat, u: nat)
    ensures (forall m | SmallRoster(m, n, k, u) :: Size(RES_SPAWN_ALL, m) <= Framing.MAX_BODY)
            <==> EntryBound(k, u) * n <= Framing.MAX_BODY
  {
    hide Size, Shaped, EntryBound, SmallPlayer, LargestRoster;
    if EntryBound(k, u) * n <= Framing.MAX_BODY {
      forall m | SmallRoster(m, n, k, u) ensures Size(RES_SPAWN_ALL, m) <= Framing.MAX_BODY {
        RosterSize(m, n, k, u);
        EntriesFit(m.vals[0].ms, k, u);
      }
    } else {
      LargestRosterSize(n, k, u);
      assert SmallRoster(LargestRoster(n, k, u), n, k, u);
    }
  }

  // For names of at most 127 bytes and no unknown fields: up to 380 players.
  lemma {:induction false} PlayersOfShortNames(n: nat)
    ensures ObjectBound(127, 0) == 169 && EntryBound(127, 0) == 172
    ensures (forall m | SmallRoster(m, n, 127, 0) :: Size(RES_SPAWN_ALL, m) <= Framing.MAX_BODY) <==> n <= 380
  {
    hide Size, Shaped, SmallRoster, VarintSize;
    VarintBounds(127);
    VarintBounds(21);
    VarintBounds(169);
    HeaderBound(n, 127, 0);
  }
}
