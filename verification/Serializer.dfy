/** Saving the current bake: the blob, and exactly when the parser gives it back. */
module Serializer {
  import opened Machine
  import opened Grid
  import opened Bytes
  import opened BakeFormat
  import opened BakeParser
  import opened BakeWriter

  /** The baked half of a swarm. Its tile table has room for TILE_COUNT tiles; count of them are active. */
  datatype Baked = Baked(
    tiles: seq<Tile>, count: nat, w: nat, h: nat, topo: Topology, readout: Readout,
    bakeId: u32, profileId: u32, flags: u32)

  ghost predicate BakedOk(b: Baked) { |b.tiles| == TILE_COUNT && b.count <= TILE_COUNT }

  function SaveCount(b: Baked): (n: nat)
    ensures n <= TILE_COUNT
  {
    if b.count == 0 || b.count > TILE_COUNT then TILE_COUNT else b.count
  }

  function Saved(b: Baked): (s: seq<Tile>)
    requires BakedOk(b)
    ensures |s| == SaveCount(b)
  {
    b.tiles[..SaveCount(b)]
  }

  function EntriesRecord(k: Kind, tiles: seq<Tile>): (r: Record)
    requires |tiles| <= TILE_COUNT
    ensures r.ty == TypeOf(k)
  {
    EntriesLength(k, tiles);
    Within(k, |tiles|, TILE_COUNT);
    Record(TypeOf(k), Entries(k, tiles))
  }

  function TopologyRecord(b: Baked): Record
    requires BakedOk(b)
  {
    Record(TLV_TOPOLOGY, TopologyBytes(SaveCount(b), b.topo.tileW, b.topo.tileH, b.topo.lanes, b.topo.domains, b.count))
  }

  function ReadoutRecord(b: Baked): Record { Record(TLV_READOUT_POLICY, ReadoutBytes(b.readout)) }

  function LimitRecord(b: Baked): Record
    requires BakedOk(b)
  {
    Record(TLV_TILE_FIELD_LIMIT, Le32(b.count))
  }

  /** The seven records the serializer writes, in order. */
  function SavedRecords(b: Baked): seq<Record>
    requires BakedOk(b)
  {
    [TopologyRecord(b),
     EntriesRecord(Params, Saved(b)), EntriesRecord(Routing, Saved(b)),
     EntriesRecord(Weights, Saved(b)), EntriesRecord(ResetMasks, Saved(b)),
     ReadoutRecord(b), LimitRecord(b)]
  }

  lemma PackedLength(b: Baked)
    requires BakedOk(b)
    ensures |Packed(SavedRecords(b))| == 88 + 57 * SaveCount(b)
  {
    hide Entries, Saved, TopologyBytes, ReadoutBytes, Le32;
    var rs := SavedRecords(b);
    SavedLengths(b);
    PackedStep(rs, 0);
    PackedStep(rs, 1);
    PackedStep(rs, 2);
    PackedStep(rs, 3);
    PackedStep(rs, 4);
    PackedStep(rs, 5);
    PackedStep(rs, 6);
    assert rs[0..] == rs && rs[7..] == [];
  }

  lemma PackedStep(rs: seq<Record>, i: nat)
    requires i < |rs|
    ensures Packed(rs[i..]) == Bare(rs[i]) + Packed(rs[i + 1..])
    ensures |Packed(rs[i..])| == 8 + |rs[i].value| + |Packed(rs[i + 1..])|
  {
    assert rs[i..][1..] == rs[i + 1..];
  }

  lemma SavedLengths(b: Baked)
    requires BakedOk(b)
    ensures var rs, n := SavedRecords(b), SaveCount(b);
            && |rs[0].value| == 16 && |rs[1].value| == 13 * n && |rs[2].value| == 2 * n && |rs[3].value| == 40 * n
            && |rs[4].value| == 2 * n && |rs[5].value| == 12 && |rs[6].value| == 4
  {
    hide Entries;
    EntriesLength(Params, Saved(b));
    EntriesLength(Routing, Saved(b));
    EntriesLength(Weights, Saved(b));
    EntriesLength(ResetMasks, Saved(b));
  }

  /** d8_swarm_serialize_current_bake: records without padding, total length and checksum patched in. */
  function Serialize(b: Baked): (blob: Blob)
    requires BakedOk(b)
    ensures |blob| == 128 + 57 * SaveCount(b)
  {
    PackedLength(b);
    Sealed(Header(128 + 57 * SaveCount(b), b.bakeId, b.profileId, b.flags) + Packed(SavedRecords(b)))
  }

  // ---------- What the parser makes of it ----------

  /** A tile as the format keeps it: the domain is a nibble. */
  function Masked(t: Tile): Tile { t.(domain := t.domain % 16) }

  function SavedTiles(b: Baked): seq<Tile>
    requires BakedOk(b)
  {
    seq(TILE_COUNT, t requires 0 <= t < TILE_COUNT => if t < SaveCount(b) then Masked(b.tiles[t]) else ZeroTile())
  }

  /** The view a saved bake is expected to come back as. */
  function ViewOf(b: Baked): View
    requires BakedOk(b)
  {
    View(SavedTiles(b),
      b.topo.(tileCount := SaveCount(b), reserved := 0, reserved2 := b.count),
      b.readout.(reserved0 := 0), b.count, b.bakeId, b.profileId, b.flags, SaveCount(b))
  }

  /** The parser's reading of one per-tile record. */
  lemma TakeEntries(blob: Blob, k: Kind, from: seq<Tile>, a: Acc)
    requires 12 <= |blob| && ViewOk(a.view) && a.topology && a.view.tileCount == |from| <= TILE_COUNT
    ensures Take(blob, TypeOf(k), EntriesRecord(k, from).value, a) ==
            if k == Params && FirstInverted(from) < |from| then Stop(Rejected(BAKE_RESERVED_NON_ZERO, FirstInverted(from)))
            else Go(Flagged(k, a.(view := a.view.(tiles := CarryTiles(k, a.view.tiles, from, |from|)))))
  {
    hide DecodeTiles, FirstBad, CarryTiles, Entries, Decode, FirstInverted;
    ListRoundTrip(k, a.view.tiles, from);
    var v := EntriesRecord(k, from).value;
    if k == Params && FirstInverted(from) < |from| {
      Within(k, FirstInverted(from) + 1, |from|);
      ChunkFits(Size(k), FirstInverted(from));
      TakesEntryType(blob, k, v, a);
    } else {
      TakesEntryType(blob, k, v, a);
    }
  }

  lemma TakesEntryType(blob: Blob, k: Kind, v: Blob, a: Acc)
    requires |v| < 0x1_0000_0000 && 12 <= |blob| && ViewOk(a.view)
    ensures Take(blob, TypeOf(k), v, a) == TakeTiles(k, v, a)
  {
    hide TakeTiles;
  }

  /** Parameters, routing, weights and reset masks together carry every field of a tile. */
  lemma AllCarried(to: Tile, from: Tile)
    ensures Carry(ResetMasks, Carry(Weights, Carry(Routing, Carry(Params, to, from), from), from), from) == Masked(from)
  {
  }

  function Carried(b: Baked, ks: nat): (r: seq<Tile>)
    requires BakedOk(b)
    ensures |r| == TILE_COUNT
  {
    var n := SaveCount(b);
    if ks == 0 then seq(TILE_COUNT, _ => ZeroTile())
    else CarryTiles(
      if ks == 1 then Params else if ks == 2 then Routing else if ks == 3 then Weights else ResetMasks,
      Carried(b, ks - 1), Saved(b), n)
  }

  lemma CarriedAll(b: Baked)
    requires BakedOk(b)
    ensures Carried(b, 4) == SavedTiles(b)
  {
    hide Carry;
    forall t | 0 <= t < TILE_COUNT
      ensures Carried(b, 4)[t] == SavedTiles(b)[t]
    {
      if t < SaveCount(b) {
        assert Carried(b, 0)[t] == ZeroTile();
        var t1 := Carried(b, 1)[t];
        assert t1 == Carry(Params, ZeroTile(), b.tiles[t]);
        var t2 := Carried(b, 2)[t];
        assert t2 == Carry(Routing, t1, b.tiles[t]);
        var t3 := Carried(b, 3)[t];
        assert t3 == Carry(Weights, t2, b.tiles[t]);
        AllCarried(ZeroTile(), b.tiles[t]);
      } else {
        assert Carried(b, 1)[t] == Carried(b, 2)[t] == Carried(b, 3)[t] == ZeroTile();
      }
    }
  }

  /** Acceptance, spelled out. */
  ghost predicate Savable(b: Baked)
    requires BakedOk(b)
  {
    && SaveCount(b) % 4 == 0
    && b.topo.lanes == 8 && b.topo.domains == 16 && b.readout.mode <= 1
    && forall t | 0 <= t < SaveCount(b) :: b.tiles[t].thrLo <= b.tiles[t].thrHi
  }

  /** What feeding the saved records leads to. */
  function SavedOutcome(b: Baked): Step
    requires BakedOk(b)
  {
    if b.topo.lanes != 8 || b.topo.domains != 16 then Stop(Rejected(TOPOLOGY_MISMATCH, 0))
    else if FirstInverted(Saved(b)) < SaveCount(b) then Stop(Rejected(BAKE_RESERVED_NON_ZERO, FirstInverted(Saved(b))))
    else if b.readout.mode > 1 then Stop(Rejected(BAKE_RESERVED_NON_ZERO, b.readout.mode))
    else Go(Acc(ViewOf(b), true, true, true, true, false))
  }

  /** The registers after the topology and the first ks per-tile records. */
  function Midway(b: Baked, ks: nat): (a: Acc)
    requires BakedOk(b)
    ensures ViewOk(a.view)
  {
    Acc(View(Carried(b, ks), ViewOf(b).topo, NO_READOUT, 0, b.bakeId, b.profileId, b.flags, SaveCount(b)),
      true, ks >= 1, ks >= 2, ks >= 3, false)
  }

  lemma TakesTopology(blob: Blob, b: Baked)
    requires BakedOk(b) && 12 <= |blob|
    ensures Take(blob, TLV_TOPOLOGY, TopologyRecord(b).value, EmptyAcc(b.bakeId, b.profileId, b.flags)) ==
            if b.topo.lanes != 8 || b.topo.domains != 16 then Stop(Rejected(TOPOLOGY_MISMATCH, 0)) else Go(Midway(b, 0))
  {
    hide TopologyBytes, ReadTopology;
    TopologyRoundTrip(SaveCount(b), b.topo.tileW, b.topo.tileH, b.topo.lanes, b.topo.domains, b.count);
  }

  lemma TakesReadout(blob: Blob, b: Baked, a: Acc)
    requires BakedOk(b) && 12 <= |blob| && ViewOk(a.view)
    ensures Take(blob, TLV_READOUT_POLICY, ReadoutBytes(b.readout), a) ==
            if b.readout.mode > 1 then Stop(Rejected(BAKE_RESERVED_NON_ZERO, b.readout.mode))
            else Go(a.(view := a.view.(readout := ViewOf(b).readout)))
  {
    hide ReadReadout, SavedTiles;
    ReadoutRoundTrip(b.readout);
    assert ReadoutBytes(b.readout)[0] == b.readout.mode;
  }

  lemma TakesLimit(blob: Blob, b: Baked, a: Acc)
    requires BakedOk(b) && 12 <= |blob| && ViewOk(a.view)
    ensures Take(blob, TLV_TILE_FIELD_LIMIT, Le32(b.count), a) == Go(a.(view := a.view.(tileFieldLimit := b.count)))
  {
    hide ReadLe32;
    Word32RoundTrip(b.count);
  }

  function KindAt(i: nat): Kind {
    if i == 1 then Params else if i == 2 then Routing else if i == 3 then Weights else ResetMasks
  }

  lemma TakesKind(blob: Blob, b: Baked, i: nat)
    requires BakedOk(b) && 12 <= |blob| && 1 <= i <= 4
    ensures Take(blob, TypeOf(KindAt(i)), EntriesRecord(KindAt(i), Saved(b)).value, Midway(b, i - 1)) ==
            if i == 1 && FirstInverted(Saved(b)) < SaveCount(b)
            then Stop(Rejected(BAKE_RESERVED_NON_ZERO, FirstInverted(Saved(b)))) else Go(Midway(b, i))
  {
    hide Take, CarryTiles, FirstInverted, SavedTiles, Entries;
    TakeEntries(blob, KindAt(i), Saved(b), Midway(b, i - 1));
  }

  /** Feeding the saved records step by step. */
  lemma FeedSaved(blob: Blob, b: Baked)
    requires BakedOk(b) && 12 <= |blob|
    ensures Feed(blob, SavedRecords(b), EmptyAcc(b.bakeId, b.profileId, b.flags)) == SavedOutcome(b)
  {
    hide Take, Feed, FirstInverted, Midway, EntriesRecord, Saved, SavedTiles, EmptyAcc, TopologyBytes, ReadoutBytes, Le32;
    var rs, a0 := SavedRecords(b), EmptyAcc(b.bakeId, b.profileId, b.flags);
    assert rs[0..] == rs;
    EmptyIsOk(b);
    FeedStep(blob, rs, 0, a0);
    TakesTopology(blob, b);
    if b.topo.lanes == 8 && b.topo.domains == 16 {
      FeedTiles(blob, b, 1);
    }
  }

  lemma EmptyIsOk(b: Baked)
    ensures ViewOk(EmptyAcc(b.bakeId, b.profileId, b.flags).view)
  {
  }

  /** The per-tile records, from the i-th on. */
  lemma {:induction false} FeedTiles(blob: Blob, b: Baked, i: nat)
    requires BakedOk(b) && 12 <= |blob| && 1 <= i <= 5
    requires i > 1 ==> FirstInverted(Saved(b)) == SaveCount(b)
    ensures Feed(blob, SavedRecords(b)[i..], Midway(b, i - 1)) ==
            if FirstInverted(Saved(b)) < SaveCount(b) then Stop(Rejected(BAKE_RESERVED_NON_ZERO, FirstInverted(Saved(b))))
            else if b.readout.mode > 1 then Stop(Rejected(BAKE_RESERVED_NON_ZERO, b.readout.mode))
            else Go(Acc(ViewOf(b), true, true, true, true, false))
    decreases 5 - i
  {
    hide Take, Feed, FirstInverted, Midway, EntriesRecord, Saved, SavedTiles, TopologyBytes, ReadoutBytes, Le32;
    if i == 5 {
      FeedTail(blob, b);
    } else {
      assert SavedRecords(b)[i] == EntriesRecord(KindAt(i), Saved(b));
      FeedStep(blob, SavedRecords(b), i, Midway(b, i - 1));
      TakesKind(blob, b, i);
      if i > 1 || FirstInverted(Saved(b)) == SaveCount(b) {
        FeedTiles(blob, b, i + 1);
      }
    }
  }

  lemma FeedTail(blob: Blob, b: Baked)
    requires BakedOk(b) && 12 <= |blob|
    ensures Feed(blob, SavedRecords(b)[5..], Midway(b, 4)) ==
            if b.readout.mode > 1 then Stop(Rejected(BAKE_RESERVED_NON_ZERO, b.readout.mode))
            else Go(Acc(ViewOf(b), true, true, true, true, false))
  {
    hide Take, EntriesRecord, Saved, SavedTiles, TopologyBytes, ReadoutBytes, Le32, Carried;
    var rs, a := SavedRecords(b), Midway(b, 4);
    FeedStep(blob, rs, 5, a);
    TakesReadout(blob, b, a);
    if b.readout.mode <= 1 {
      var a' := a.(view := a.view.(readout := ViewOf(b).readout));
      FeedStep(blob, rs, 6, a');
      TakesLimit(blob, b, a');
      CarriedAll(b);
      assert rs[7..] == [];
    }
  }

  /** The exact round trip: the parser gives back what was saved, tile for tile, if and only if the saved
      tile count is a multiple of four, the lane and domain counts are the contract's, the readout mode is
      known and no fuse range is inverted. Otherwise it does not accept the blob; with a tile count that is a
      multiple of four it says so. */
  lemma RoundTripExactly(b: Baked)
    requires BakedOk(b)
    ensures Parse(Serialize(b)) == Accepted(ViewOf(b)) <==> Savable(b)
    ensures !Savable(b) ==> !Parse(Serialize(b)).Accepted?
    ensures !Savable(b) && SaveCount(b) % 4 == 0 ==> Parse(Serialize(b)).Rejected?
  {
    hide Parse, Serialize, SavedRecords, Written, Feed, ViewOf, FirstInverted;
    NoneInverted(Saved(b));
    SavedInverted(b);
    if SaveCount(b) % 4 == 0 {
      SerializeIsWritten(b);
      ParseWritten(SavedRecords(b), b.bakeId, b.profileId, b.flags);
      FeedSaved(Serialize(b), b);
    } else {
      ParserAlignment(Serialize(b));
    }
  }

  lemma SavedInverted(b: Baked)
    requires BakedOk(b)
    ensures (forall t | 0 <= t < |Saved(b)| :: Saved(b)[t].thrLo <= Saved(b)[t].thrHi)
            <==> forall t | 0 <= t < SaveCount(b) :: b.tiles[t].thrLo <= b.tiles[t].thrHi
  {
    assert forall t | 0 <= t < SaveCount(b) :: Saved(b)[t] == b.tiles[t];
  }

  /** With whole-word entries the unpadded layout is the aligned one. */
  lemma SerializeIsWritten(b: Baked)
    requires BakedOk(b) && SaveCount(b) % 4 == 0
    ensures 28 + |Padded(SavedRecords(b))| + 12 < 0x1_0000_0000
    ensures Serialize(b) == Written(SavedRecords(b), b.bakeId, b.profileId, b.flags)
  {
    hide Packed, Padded, SavedRecords, Header, Sealed;
    PackedLength(b);
    SavedAligned(b);
    PackedIsPadded(SavedRecords(b));
  }

  lemma SavedAligned(b: Baked)
    requires BakedOk(b) && SaveCount(b) % 4 == 0
    ensures forall i | 0 <= i < |SavedRecords(b)| :: |SavedRecords(b)[i].value| % 4 == 0
  {
    hide TopologyRecord, EntriesRecord, ReadoutRecord, LimitRecord;
    SavedLengths(b);
    var q := SaveCount(b) / 4;
    InWords(13 * q, 13 * SaveCount(b));
    InWords(2 * q, 2 * SaveCount(b));
    InWords(40 * q, 40 * SaveCount(b));
  }

  /** Nothing is lost on the way for a bake whose domains fit in a nibble. */
  lemma ViewIsFaithful(b: Baked)
    requires BakedOk(b) && forall t | 0 <= t < SaveCount(b) :: b.tiles[t].domain < 16
    ensures ViewOf(b).tiles[..SaveCount(b)] == b.tiles[..SaveCount(b)]
    ensures b.readout.reserved0 == 0 ==> ViewOf(b).readout == b.readout
    ensures ViewOf(b).topo.tileW == b.topo.tileW && ViewOf(b).topo.tileH == b.topo.tileH
  {
    forall t | 0 <= t < SaveCount(b)
      ensures ViewOf(b).tiles[t] == b.tiles[t]
    {
      assert Masked(b.tiles[t]) == b.tiles[t];
    }
  }
}
