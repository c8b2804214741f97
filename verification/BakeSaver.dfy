/** The serializer's code, and what baking a saved blob again does. */
module BakeSaver {
  import opened Machine
  import opened Grid
  import opened Bytes
  import opened BakeFormat
  import opened BakeParser
  import opened BakeWriter
  import opened Serializer
  import opened BlobBuffer
  import opened Crc
  import opened Ragged

  lemma ExtendPacked(h: Blob, rs: seq<Record>, i: nat)
    requires i < |rs|
    ensures h + Packed(rs[..i]) + Bare(rs[i]) == h + Packed(rs[..i + 1])
  {
    hide Bare;
    PackedSnoc(rs, i);
    assert h + Packed(rs[..i]) + Bare(rs[i]) == h + (Packed(rs[..i]) + Bare(rs[i]));
  }

  lemma {:induction false} PackedSnoc(rs: seq<Record>, i: nat)
    requires i < |rs|
    ensures Packed(rs[..i + 1]) == Packed(rs[..i]) + Bare(rs[i])
    decreases |rs|
  {
    hide Bare;
    if i == 0 {
      assert rs[..1] == [rs[0]] && rs[..1][1..] == [] && rs[..0] == [];
    } else {
      PackedSnoc(rs[1..], i - 1);
      assert rs[..i + 1][1..] == rs[1..][..i] && rs[..i][1..] == rs[1..][..i - 1];
      assert Bare(rs[0]) + (Packed(rs[..i][1..]) + Bare(rs[i])) == Bare(rs[0]) + Packed(rs[..i][1..]) + Bare(rs[i]);
    }
  }

  /** Patching the length field turns a header written with total 0 into the final one. */
  lemma PatchedHeader(total: u32, bakeId: u32, profileId: u32, flags: u32, rest: Blob)
    ensures var b := Header(0, bakeId, profileId, flags) + rest;
            b[..12] + Le32(total) + b[16..] == Header(total, bakeId, profileId, flags) + rest
  {
    hide Le32, Le16;
  }

  /** Record i goes after a header and the first i records. */
  method Append(buf: array<u8>, off: nat, r: Record, ghost h: Blob, ghost rs: seq<Record>, ghost i: nat)
    returns (next: nat)
    requires off + 8 + |r.value| <= buf.Length && i < |rs| && r == rs[i]
    requires buf[..off] == h + Packed(rs[..i])
    modifies buf
    ensures next == off + 8 + |r.value| && buf[..next] == h + Packed(rs[..i + 1])
    ensures forall j | next <= j < buf.Length :: buf[j] == old(buf[j])
  {
    hide Bare, Packed;
    next := Put(buf, off, Bare(r));
    ExtendPacked(h, rs, i);
  }

  /** The same for a per-tile record, written entry by entry. */
  method AppendEntries(k: Kind, buf: array<u8>, off: nat, tiles: seq<Tile>, ghost h: Blob, ghost rs: seq<Record>, ghost i: nat)
    returns (next: nat)
    requires |tiles| <= TILE_COUNT && i < |rs| && EntriesRecord(k, tiles) == rs[i]
    requires off + 8 + Size(k) * |tiles| <= buf.Length && buf[..off] == h + Packed(rs[..i])
    modifies buf
    ensures next == off + 8 + Size(k) * |tiles| && buf[..next] == h + Packed(rs[..i + 1])
    ensures forall j | next <= j < buf.Length :: buf[j] == old(buf[j])
  {
    hide Bare, Packed, EntriesRecord;
    next := PutEntries(k, buf, off, tiles);
    ExtendPacked(h, rs, i);
  }

  /** Header with a zero length field, then the seven records. */
  method PutSavedRecords(b: Baked, buf: array<u8>) returns (off: nat)
    requires BakedOk(b) && buf.Length == 128 + 57 * SaveCount(b)
    modifies buf
    ensures off == 116 + 57 * SaveCount(b)
    ensures buf[..off] == Header(0, b.bakeId, b.profileId, b.flags) + Packed(SavedRecords(b))
  {
    hide Bare, Packed, Header, TopologyBytes, ReadoutBytes, Le32, EntriesRecord, TopologyRecord, ReadoutRecord, LimitRecord, Saved;
    var saved := Saved(b);
    ghost var rs, h := SavedRecords(b), Header(0, b.bakeId, b.profileId, b.flags);
    SavedLengths(b);
    off := Put(buf, 0, Header(0, b.bakeId, b.profileId, b.flags));
    PackedEmpty(h, rs);
    off := Append(buf, off, TopologyRecord(b), h, rs, 0);
    off := AppendEntries(Params, buf, off, saved, h, rs, 1);
    off := AppendEntries(Routing, buf, off, saved, h, rs, 2);
    off := AppendEntries(Weights, buf, off, saved, h, rs, 3);
    off := AppendEntries(ResetMasks, buf, off, saved, h, rs, 4);
    off := Append(buf, off, ReadoutRecord(b), h, rs, 5);
    off := Append(buf, off, LimitRecord(b), h, rs, 6);
    assert rs[..7] == rs;
  }

  /** Patch the total length, then append the checksum of everything before it. */
  method Seal(buf: array<u8>, off: nat, bakeId: u32, profileId: u32, flags: u32, ghost records: Blob) returns (size: nat)
    requires off + 12 <= buf.Length && off + 12 < 0x1_0000_0000
    requires off == 28 + |records| && buf[..off] == Header(0, bakeId, profileId, flags) + records
    modifies buf
    ensures size == off + 12 && buf[..size] == Sealed(Header(off + 12, bakeId, profileId, flags) + records)
    ensures forall j | size <= j < buf.Length :: buf[j] == old(buf[j])
  {
    hide Header, Le32, Crc32;
    ghost var h := Header(0, bakeId, profileId, flags) + records;
    Patch(buf, 12, Le32(off + 12), off);
    assert old(buf[..12]) == h[..12] && old(buf[16..off]) == h[16..];
    PatchedHeader(off + 12, bakeId, profileId, flags, records);
    var crc := ComputeCrc32(buf[..off]);
    size := Put(buf, off, Tlv(TLV_CRC32, Le32(crc)));
  }

  /** d8_swarm_serialize_current_bake. */
  method SerializeCurrentBake(b: Baked) returns (buf: array<u8>, size: nat)
    requires BakedOk(b)
    ensures fresh(buf) && size == buf.Length && buf[..] == Serialize(b)
  {
    hide Packed, Header, Sealed, SavedRecords;
    PackedLength(b);
    buf := new u8[128 + 57 * SaveCount(b)](_ => 0);
    var off := PutSavedRecords(b, buf);
    size := Seal(buf, off, b.bakeId, b.profileId, b.flags, Packed(SavedRecords(b)));
    assert buf[..] == buf[..size];
  }

  lemma PackedEmpty(h: Blob, rs: seq<Record>)
    ensures h + Packed(rs[..0]) == h
  {
    assert rs[..0] == [];
  }

  // ---------- Baking ----------

  /** The active row width and height a baked tile count gets. */
  function ActiveDims(count: nat, topo: Topology): (nat, nat) {
    if count == 0 || count == TILE_COUNT then (EXPECTED_W, EXPECTED_H)
    else if count == 256 then (32, 8)
    else if count == 512 then (32, 16)
    else if count == 1024 then (64, 16)
    else if count == 2048 then (64, 32)
    else (topo.tileW, topo.tileH)
  }

  function ActiveCount(v: View): nat {
    if 0 < v.tileFieldLimit <= TILE_COUNT then v.tileFieldLimit
    else if 0 < v.topo.reserved2 <= TILE_COUNT then v.topo.reserved2
    else v.tileCount
  }

  /** What d8_swarm_ev_bake copies from an accepted view. Tiles beyond the view's count keep what an earlier
      bake put there. */
  function Apply(prev: Baked, v: View): Baked
    requires |prev.tiles| == |v.tiles| == TILE_COUNT && v.tileCount <= TILE_COUNT
  {
    var count := ActiveCount(v);
    var dims := ActiveDims(count, v.topo);
    Baked(v.tiles[..v.tileCount] + prev.tiles[v.tileCount..], count, dims.0, dims.1, v.topo, v.readout,
      v.bakeId, v.profileId, v.flags)
  }

  lemma MaskedEncodesSame(k: Kind, t: Tile)
    ensures Encode(k, Masked(t)) == Encode(k, t)
  {
    hide EncodeParams, RoutingFlags, EncodeWeights, Masked;
    MaskedParams(t);
    MaskedFlags(t);
    MaskedWeights(t);
  }

  lemma MaskedParams(t: Tile)
    ensures EncodeParams(Masked(t)) == EncodeParams(t) && Masked(t).resetMask == t.resetMask
  {
    hide Le16, Pattern;
  }

  lemma MaskedFlags(t: Tile)
    ensures RoutingFlags(Masked(t)) == RoutingFlags(t)
  {
    hide PackBits;
  }

  lemma MaskedWeights(t: Tile)
    ensures EncodeWeights(Masked(t)) == EncodeWeights(t)
  {
    hide PackBits;
    forall i: nat | i < 32
      ensures NibblePair(Masked(t), i) == NibblePair(t, i)
    {
    }
    forall i: nat | i < 8
      ensures SignByte(Masked(t), i) == SignByte(t, i)
    {
    }
  }

  lemma {:induction false} EntriesOfMasked(k: Kind, ts: seq<Tile>, ms: seq<Tile>)
    requires |ts| == |ms| && forall t | 0 <= t < |ts| :: ms[t] == Masked(ts[t])
    ensures Entries(k, ms) == Entries(k, ts)
  {
    hide Encode, Masked;
    if ts != [] {
      var n := |ts| - 1;
      EntriesOfMasked(k, ts[..n], ms[..n]);
      MaskedEncodesSame(k, ts[n]);
    }
  }

  lemma ReappliedTiles(prev: Baked, b: Baked)
    requires BakedOk(prev) && BakedOk(b) && b.count > 0
    ensures BakedOk(Apply(prev, ViewOf(b))) && SaveCount(Apply(prev, ViewOf(b))) == SaveCount(b) == b.count
    ensures forall t | 0 <= t < b.count :: Saved(Apply(prev, ViewOf(b)))[t] == Masked(Saved(b)[t])
  {
    hide Masked;
  }

  lemma EntriesReapplied(prev: Baked, b: Baked, k: Kind)
    requires BakedOk(prev) && BakedOk(b) && b.count > 0
    ensures BakedOk(Apply(prev, ViewOf(b)))
    ensures EntriesRecord(k, Saved(Apply(prev, ViewOf(b)))) == EntriesRecord(k, Saved(b))
  {
    hide Entries, Saved, Masked;
    ReappliedTiles(prev, b);
    EntriesOfMasked(k, Saved(b), Saved(Apply(prev, ViewOf(b))));
  }

  lemma ReappliedSavesSame(prev: Baked, b: Baked)
    requires BakedOk(prev) && BakedOk(b) && b.count > 0
    ensures BakedOk(Apply(prev, ViewOf(b))) && Serialize(Apply(prev, ViewOf(b))) == Serialize(b)
  {
    hide Entries, Packed, Header, EntriesRecord, Sealed, Saved, TopologyBytes;
    var b' := Apply(prev, ViewOf(b));
    ReappliedTiles(prev, b);
    EntriesReapplied(prev, b, Params);
    EntriesReapplied(prev, b, Routing);
    EntriesReapplied(prev, b, Weights);
    EntriesReapplied(prev, b, ResetMasks);
    assert SavedRecords(b') == SavedRecords(b);
  }

  /** Baking the blob over prev succeeds, and saving then gives the same blob. */
  ghost predicate Rebakes(prev: Baked, blob: Blob)
    requires BakedOk(prev) && |blob| < 0x1_0000_0000
  {
    var o := Parse(blob);
    && o.Accepted?
    && |o.view.tiles| == TILE_COUNT && o.view.tileCount <= TILE_COUNT
    && BakedOk(Apply(prev, o.view))
    && Serialize(Apply(prev, o.view)) == blob
  }

  /** Saving, baking over any earlier bake and saving again gives the same bytes ... */
  lemma SaveBakeSave(prev: Baked, b: Baked)
    requires BakedOk(prev) && BakedOk(b) && Savable(b) && b.count > 0
    ensures Rebakes(prev, Serialize(b))
  {
    hide Parse, Serialize, Savable, Apply, ViewOf;
    RoundTripExactly(b);
    ViewFits(b);
    ReappliedSavesSame(prev, b);
  }

  lemma ViewFits(b: Baked)
    requires BakedOk(b)
    ensures |ViewOf(b).tiles| == TILE_COUNT && ViewOf(b).tileCount <= TILE_COUNT
  {
  }

  /** ... exactly for the savable bakes with a count: a swarm whose active count is zero is saved as a full table,
      and comes back with every tile active. */
  lemma SaveBakeSaveExactly(prev: Baked, b: Baked)
    requires BakedOk(prev) && BakedOk(b)
    ensures Rebakes(prev, Serialize(b)) <==> Savable(b) && b.count > 0
  {
    hide Parse, Serialize, Savable, Apply, ViewOf;
    RoundTripExactly(b);
    if Savable(b) {
      if b.count > 0 {
        SaveBakeSave(prev, b);
      } else {
        ViewFits(b);
        EmptyCountGrows(prev, b);
        RoundTripExactly(Apply(prev, ViewOf(b)));
      }
    }
  }

  lemma EmptyCountGrows(prev: Baked, b: Baked)
    requires BakedOk(prev) && BakedOk(b) && b.count == 0
    ensures BakedOk(Apply(prev, ViewOf(b))) && Apply(prev, ViewOf(b)).count == TILE_COUNT
    ensures ViewOf(Apply(prev, ViewOf(b))) != ViewOf(b)
  {
    hide Masked;
    assert ViewOf(b).tileFieldLimit == 0;
  }

  /** The dimensions the five standard tile counts get are rectangles, so both views of the activation
      graph agree on them. */
  lemma StandardCountsAreRectangles(count: nat, topo: Topology)
    requires count in {256, 512, 1024, 2048, 4096}
    ensures ActiveDims(count, topo).0 * ActiveDims(count, topo).1 == count
    ensures ActiveDims(count, topo).0 == if count in {256, 1024, 4096} then 4 * ActiveDims(count, topo).1 else 2 * ActiveDims(count, topo).1
    ensures ViewsAgree(count, ActiveDims(count, topo).0)
  {
    hide ViewsAgree, RunsAgree;
    ViewsAgreeExactlyOnRectangles(count, ActiveDims(count, topo).0);
  }

  /** What baking leaves, field by field. Tiles that the view names come from it and the others stay; the tile field limit
      is the active count if it is legal, then the topology's second reserved word, then the tile count; a count of zero
      gets 128 by 32, a standard count the rectangle of its area that is two or four times as wide as high, and any other
      count the topology's own grid. */
  lemma BakedInFields(prev: Baked, v: View, t: nat)
    requires |prev.tiles| == |v.tiles| == 4096 && v.tileCount <= 4096 && t < 4096
    ensures var b := Apply(prev, v);
            && b.tiles[t] == (if t < v.tileCount then v.tiles[t] else prev.tiles[t])
            && b.topo == v.topo && b.readout == v.readout
            && b.bakeId == v.bakeId && b.profileId == v.profileId && b.flags == v.flags
            && b.count == (if 0 < v.tileFieldLimit <= 4096 then v.tileFieldLimit
                           else if 0 < v.topo.reserved2 <= 4096 then v.topo.reserved2
                           else v.tileCount)
            && (b.count == 0 ==> b.w == 128 && b.h == 32)
            && (b.count in {256, 512, 1024, 2048, 4096} ==> b.w * b.h == b.count && (b.w == 2 * b.h || b.w == 4 * b.h))
            && (b.count !in {0, 256, 512, 1024, 2048, 4096} ==> b.w == v.topo.tileW && b.h == v.topo.tileH)
  {
  }

  /** That fixes the five standard grids. */
  lemma OneSuchRectangle(w: nat, h: nat, w': nat, h': nat)
    requires w * h == w' * h' && w * h in {256, 512, 1024, 2048, 4096}
    requires (w == 2 * h || w == 4 * h) && (w' == 2 * h' || w' == 4 * h')
    ensures w == w' && h == h'
  {
    SideBound(h, w * h);
    SideBound(h', w * h);
  }

  lemma SideBound(h: nat, area: nat)
    requires area in {256, 512, 1024, 2048, 4096} && (2 * h * h == area || 4 * h * h == area)
    ensures h == if area == 256 then 8 else if area in {512, 1024} then 16 else 32
  {
    assert h >= 46 ==> h * h >= 46 * 46;
    assert h < 46;
  }
}
