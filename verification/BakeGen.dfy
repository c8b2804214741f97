/** The bake generator: one default tile repeated, records aligned to four bytes. */
module BakeGen {
  import opened Machine
  import opened Grid
  import opened Bytes
  import opened BakeFormat
  import opened BakeParser
  import opened BakeWriter
  import opened Serializer
  import opened BlobBuffer
  import opened BakeSaver

  function RoundUp4(x: nat): nat { (x + 3) / 4 * 4 }

  /** d8_bake_gen_estimate_size, and d8_bake_estimate_serialized_size with it. */
  function EstimateSize(n: nat): nat {
    28 + 24 + RoundUp4(8 + n * 13) + RoundUp4(8 + n * 2) + RoundUp4(8 + n * 40) + RoundUp4(8 + n * 2) + 20 + 12 + 12
  }

  /** The estimate is the size of a padded blob; the serializer, which does not pad, meets it exactly when
      the tile count is a multiple of four, and otherwise falls short. */
  lemma EstimateOfSerializer(b: Baked)
    requires BakedOk(b)
    ensures |Serialize(b)| <= EstimateSize(SaveCount(b))
    ensures |Serialize(b)| == EstimateSize(SaveCount(b)) <==> SaveCount(b) % 4 == 0
  {
    hide Serialize, RoundUp4, Padding;
    var n := SaveCount(b);
    RoundUpGap(8 + n * 13);
    RoundUpGap(8 + n * 2);
    RoundUpGap(8 + n * 40);
    GapOfParams(n);
  }

  lemma RoundUpGap(x: nat)
    ensures RoundUp4(x) == x + Padding(x)
  {
  }

  lemma NoGap(x: nat, q: nat, r: nat)
    requires x == 4 * q + r
    ensures Padding(x) == 0 <==> r % 4 == 0
  {
    SameRest(q, r);
  }

  lemma SameRest(q: nat, r: nat)
    ensures (4 * q + r) % 4 == r % 4
  {
    var k := r / 4;
    assert 4 * q + r == 4 * (q + k) + r % 4;
  }

  lemma GapOfParams(n: nat)
    ensures Padding(8 + n * 13) == 0 <==> n % 4 == 0
    ensures n % 4 == 0 ==> Padding(8 + n * 2) == 0 && Padding(8 + n * 40) == 0
  {
    var q, r := n / 4, n % 4;
    NoGap(8 + n * 13, 2 + 13 * q + 3 * r, r);
    NoGap(8 + n * 2, 2 + 2 * q, 2 * r);
    NoGap(8 + n * 40, 2 + n * 10, 0);
  }

  function WithFuse(t: Tile, lo: i16, hi: i16, decay: u16): Tile {
    t.(thrLo := lo, thrHi := hi, decay := decay)
  }

  function DefaultTile(lo: i16, hi: i16, decay: u16): Tile { WithFuse(ZeroTile(), lo, hi, decay) }

  function DefaultTiles(lo: i16, hi: i16, decay: u16): (tiles: seq<Tile>)
    ensures |tiles| == TILE_COUNT && forall t | 0 <= t < TILE_COUNT :: tiles[t] == DefaultTile(lo, hi, decay)
  {
    seq<Tile>(TILE_COUNT, t requires 0 <= t < TILE_COUNT => DefaultTile(lo, hi, decay))
  }

  /** The swarm a generated bake describes: n default tiles, bake and profile ids 1. */
  function Generated(n: nat, lo: i16, hi: i16, decay: u16): (b: Baked)
    requires 0 < n <= TILE_COUNT
    ensures BakedOk(b) && SaveCount(b) == n
  {
    Baked(DefaultTiles(lo, hi, decay), n, EXPECTED_W, EXPECTED_H, Topology(n, EXPECTED_W, EXPECTED_H, 8, 16, 0, n), NO_READOUT, 1, 1, 0)
  }

  /** The seven records in the generator's order. */
  function GenRecords(b: Baked): seq<Record>
    requires BakedOk(b)
  {
    [TopologyRecord(b),
     EntriesRecord(Params, Saved(b)), EntriesRecord(Routing, Saved(b)),
     ReadoutRecord(b),
     EntriesRecord(ResetMasks, Saved(b)), EntriesRecord(Weights, Saved(b)),
     LimitRecord(b)]
  }

  lemma PaddedStep(rs: seq<Record>, i: nat)
    requires i < |rs|
    ensures |Padded(rs[i..])| == RoundUp4(8 + |rs[i].value|) + |Padded(rs[i + 1..])|
  {
    assert rs[i..][1..] == rs[i + 1..];
    AlignedLength(rs[i]);
  }

  lemma AlignedLength(r: Record)
    ensures |Aligned(r)| == RoundUp4(8 + |r.value|)
  {
    hide Bare;
  }

  lemma PaddedLength(b: Baked)
    requires BakedOk(b)
    ensures 28 + |Padded(GenRecords(b))| + 12 == EstimateSize(SaveCount(b)) < 0x1_0000_0000
  {
    hide Padded, RoundUp4, TopologyRecord, EntriesRecord, ReadoutRecord, LimitRecord;
    var rs := GenRecords(b);
    SavedLengths(b);
    assert rs[0].value == SavedRecords(b)[0].value && rs[6].value == SavedRecords(b)[6].value;
    PaddedStep(rs, 0);
    PaddedStep(rs, 1);
    PaddedStep(rs, 2);
    PaddedStep(rs, 3);
    PaddedStep(rs, 4);
    PaddedStep(rs, 5);
    PaddedStep(rs, 6);
    assert rs[0..] == rs && rs[7..] == [];
    NoPadded();
    RoundedSizes(SaveCount(b));
  }

  lemma NoPadded()
    ensures |Padded([])| == 0
  {
  }

  lemma RoundedSizes(n: nat)
    requires n <= TILE_COUNT
    ensures RoundUp4(8 + 16) == 24 && RoundUp4(8 + 12) == 20 && RoundUp4(8 + 4) == 12
    ensures EstimateSize(n) < 0x1_0000_0000
  {
  }

  /** The blob d8_bake_gen_custom writes. */
  function GenBlob(n: nat, lo: i16, hi: i16, decay: u16): (blob: Blob)
    requires 0 < n <= TILE_COUNT
  {
    var b := Generated(n, lo, hi, decay);
    PaddedLength(b);
    Written(GenRecords(b), 1, 1, 0)
  }

  // ---------- The parser accepts it ----------

  lemma {:induction false} SameTilesInverted(ts: seq<Tile>, t: Tile)
    requires forall i | 0 <= i < |ts| :: ts[i] == t
    ensures FirstInverted(ts) == if t.thrLo > t.thrHi && ts != [] then 0 else |ts|
  {
    if ts != [] {
      SameTilesInverted(ts[..|ts| - 1], t);
    }
  }

  /** Reset masks and weights may come in either order. */
  lemma CarryCommutes(to: seq<Tile>, from: seq<Tile>, n: nat)
    requires n <= |from| && n <= |to|
    ensures CarryTiles(Weights, CarryTiles(ResetMasks, to, from, n), from, n)
            == CarryTiles(ResetMasks, CarryTiles(Weights, to, from, n), from, n)
  {
  }

  lemma FeedGenHead(blob: Blob, b: Baked)
    requires BakedOk(b) && 12 <= |blob| && b.topo.lanes == 8 && b.topo.domains == 16
    ensures Feed(blob, GenRecords(b), EmptyAcc(b.bakeId, b.profileId, b.flags)) == Feed(blob, GenRecords(b)[1..], Midway(b, 0))
  {
    hide Take, Feed, Midway, EntriesRecord, Saved, SavedTiles, EmptyAcc, TopologyBytes, ReadoutBytes, Le32;
    var rs := GenRecords(b);
    assert rs[0..] == rs;
    EmptyIsOk(b);
    FeedStep(blob, rs, 0, EmptyAcc(b.bakeId, b.profileId, b.flags));
    TakesTopology(blob, b);
  }

  lemma FeedGenKind(blob: Blob, b: Baked, i: nat)
    requires BakedOk(b) && 12 <= |blob| && 1 <= i <= 2
    ensures Feed(blob, GenRecords(b)[i..], Midway(b, i - 1)) ==
            if i == 1 && FirstInverted(Saved(b)) < SaveCount(b)
            then Stop(Rejected(BAKE_RESERVED_NON_ZERO, FirstInverted(Saved(b))))
            else Feed(blob, GenRecords(b)[i + 1..], Midway(b, i))
  {
    hide Take, Feed, FirstInverted, Midway, TopologyRecord, ReadoutRecord, LimitRecord, EntriesRecord, Saved;
    var rs := GenRecords(b);
    assert rs[i] == EntriesRecord(KindAt(i), Saved(b));
    FeedStep(blob, rs, i, Midway(b, i - 1));
    TakesKind(blob, b, i);
  }

  lemma FeedGenRest(blob: Blob, b: Baked)
    requires BakedOk(b) && 12 <= |blob| && b.readout.mode <= 1
    ensures Feed(blob, GenRecords(b)[3..], Midway(b, 2)) == Go(Acc(ViewOf(b), true, true, true, true, false))
  {
    hide Take, EntriesRecord, Saved, SavedTiles, TopologyBytes, ReadoutBytes, Le32, CarryTiles;
    var rs, a2 := GenRecords(b), Midway(b, 2);
    FeedStep(blob, rs, 3, a2);
    TakesReadout(blob, b, a2);
    var a3 := a2.(view := a2.view.(readout := ViewOf(b).readout));
    FeedStep(blob, rs, 4, a3);
    TakeEntries(blob, ResetMasks, Saved(b), a3);
    var a4 := a3.(view := a3.view.(tiles := CarryTiles(ResetMasks, Carried(b, 2), Saved(b), SaveCount(b))));
    FeedStep(blob, rs, 5, a4);
    TakeEntries(blob, Weights, Saved(b), a4);
    CarryCommutes(Carried(b, 2), Saved(b), SaveCount(b));
    FeedGenLast(blob, b);
  }

  lemma FeedGenLast(blob: Blob, b: Baked)
    requires BakedOk(b) && 12 <= |blob|
    ensures var a := Acc(View(Carried(b, 4), ViewOf(b).topo, ViewOf(b).readout, 0, b.bakeId, b.profileId, b.flags, SaveCount(b)),
                         true, true, true, true, false);
            Feed(blob, GenRecords(b)[6..], a) == Go(Acc(ViewOf(b), true, true, true, true, false))
  {
    hide Take, EntriesRecord, Saved, SavedTiles, TopologyBytes, ReadoutBytes, Le32, CarryTiles, Carried;
    var rs := GenRecords(b);
    var a := Acc(View(Carried(b, 4), ViewOf(b).topo, ViewOf(b).readout, 0, b.bakeId, b.profileId, b.flags, SaveCount(b)),
               true, true, true, true, false);
    FeedStep(blob, rs, 6, a);
    TakesLimit(blob, b, a);
    CarriedAll(b);
    assert rs[7..] == [];
  }

  lemma GenParses(b: Baked)
    requires BakedOk(b) && b.readout.mode <= 1 && b.topo.lanes == 8 && b.topo.domains == 16
    requires 28 + |Padded(GenRecords(b))| + 12 < 0x1_0000_0000
    ensures Parse(Written(GenRecords(b), b.bakeId, b.profileId, b.flags)) ==
            if FirstInverted(Saved(b)) < SaveCount(b) then Rejected(BAKE_RESERVED_NON_ZERO, FirstInverted(Saved(b)))
            else Accepted(ViewOf(b))
  {
    hide Parse, Feed, FirstInverted, Midway, GenRecords, Padded, Written, Saved, ViewOf, EmptyAcc;
    var blob := Written(GenRecords(b), b.bakeId, b.profileId, b.flags);
    WrittenLength(GenRecords(b), b.bakeId, b.profileId, b.flags);
    ParseWritten(GenRecords(b), b.bakeId, b.profileId, b.flags);
    FeedGenHead(blob, b);
    FeedGenKind(blob, b, 1);
    FeedGenKind(blob, b, 2);
    FeedGenRest(blob, b);
  }

  /** The accepted view: each of the n tiles carries the requested thresholds and decay with everything else
      zero, and the remaining tiles are zero. */
  lemma GeneratedTiles(n: nat, lo: i16, hi: i16, decay: u16)
    requires 0 < n <= TILE_COUNT
    ensures forall t | 0 <= t < TILE_COUNT ::
              ViewOf(Generated(n, lo, hi, decay)).tiles[t] == if t < n then DefaultTile(lo, hi, decay) else ZeroTile()
  {
  }

  lemma GeneratedInverted(n: nat, lo: i16, hi: i16, decay: u16)
    requires 0 < n <= TILE_COUNT
    ensures FirstInverted(Saved(Generated(n, lo, hi, decay))) == if lo > hi then 0 else n
  {
    hide FirstInverted;
    SameTilesInverted(Saved(Generated(n, lo, hi, decay)), DefaultTile(lo, hi, decay));
  }

  /** For every tile count from 1 to 4096 the generated blob has the estimated size, and the parser accepts
      it exactly when lo <= hi. */
  lemma GeneratorAndParserAgree(n: nat, lo: i16, hi: i16, decay: u16)
    requires 0 < n <= TILE_COUNT
    ensures |GenBlob(n, lo, hi, decay)| == EstimateSize(n) && EstimateSize(n) % 4 == 0
    ensures Parse(GenBlob(n, lo, hi, decay)) ==
            if lo <= hi then Accepted(ViewOf(Generated(n, lo, hi, decay))) else Rejected(BAKE_RESERVED_NON_ZERO, 0)
  {
    hide Parse, FirstInverted, GenRecords, Padded, Written, Saved, ViewOf, RoundUp4;
    var b := Generated(n, lo, hi, decay);
    PaddedLength(b);
    WrittenLength(GenRecords(b), 1, 1, 0);
    GeneratedInverted(n, lo, hi, decay);
    GenParses(b);
    EstimateIsAligned(n);
  }

  lemma EstimateIsAligned(n: nat)
    ensures EstimateSize(n) % 4 == 0
  {
    hide RoundUp4;
    var a := RoundUpInWords(8 + n * 13);
    var b := RoundUpInWords(8 + n * 2);
    var c := RoundUpInWords(8 + n * 40);
    assert EstimateSize(n) == 4 * (24 + a + b + c + b);
    FourDivides(24 + a + b + c + b);
  }

  lemma RoundUpInWords(x: nat) returns (k: nat)
    ensures RoundUp4(x) == 4 * k
  {
    k := (x + 3) / 4;
  }

  lemma FourDivides(k: nat)
    ensures 4 * k % 4 == 0
  {
  }

  // ---------- The generator's code ----------

  lemma {:induction false} PaddedSnoc(rs: seq<Record>, i: nat)
    requires i < |rs|
    ensures Padded(rs[..i + 1]) == Padded(rs[..i]) + Aligned(rs[i])
    decreases |rs|
  {
    hide Aligned;
    if i == 0 {
      assert rs[..1] == [rs[0]] && rs[..1][1..] == [] && rs[..0] == [];
    } else {
      PaddedSnoc(rs[1..], i - 1);
      assert rs[..i + 1][1..] == rs[1..][..i] && rs[..i][1..] == rs[1..][..i - 1];
      assert Aligned(rs[0]) + (Padded(rs[..i][1..]) + Aligned(rs[i])) == Aligned(rs[0]) + Padded(rs[..i][1..]) + Aligned(rs[i]);
    }
  }

  lemma ExtendPadded(h: Blob, rs: seq<Record>, i: nat)
    requires i < |rs|
    ensures h + Padded(rs[..i]) + Bare(rs[i]) + Zeros(Padding(|rs[i].value|)) == h + Padded(rs[..i + 1])
  {
    hide Bare, Zeros, Padding, Padded;
    PaddedSnoc(rs, i);
    var p, z := Padded(rs[..i]), Zeros(Padding(|rs[i].value|));
    assert h + p + Bare(rs[i]) + z == h + (p + (Bare(rs[i]) + z));
  }

  /** Pad to 4 bytes. */
  method PadTo4(buf: array<u8>, off: nat) returns (next: nat)
    requires off + Padding(off) <= buf.Length
    modifies buf
    ensures next == off + Padding(off) && buf[..next] == old(buf[..off]) + Zeros(Padding(off))
    ensures forall j | next <= j < buf.Length :: buf[j] == old(buf[j])
  {
    next := off;
    ghost var before := buf[..off];
    while next % 4 != 0
      invariant off <= next <= off + Padding(off)
      invariant buf[..next] == before + Zeros(next - off)
      invariant forall j | next <= j < buf.Length :: buf[j] == old(buf[j])
      decreases off + Padding(off) - next
    {
      next := PutByte(buf, next, 0);
    }
  }

  lemma PaddingOfRecord(off: nat, len: nat)
    requires off % 4 == 0
    ensures Padding(off + 8 + len) == Padding(len) && 8 + len + Padding(len) == RoundUp4(8 + len)
    ensures RoundUp4(8 + len) % 4 == 0
  {
  }

  /** Record i, padded, goes after a header and the first i padded records. */
  method AppendAligned(buf: array<u8>, off: nat, r: Record, ghost h: Blob, ghost rs: seq<Record>, ghost i: nat)
    returns (next: nat)
    requires off % 4 == 0 && off + RoundUp4(8 + |r.value|) <= buf.Length && i < |rs| && r == rs[i]
    requires buf[..off] == h + Padded(rs[..i])
    modifies buf
    ensures next == off + RoundUp4(8 + |r.value|) && next % 4 == 0 && buf[..next] == h + Padded(rs[..i + 1])
    ensures forall j | next <= j < buf.Length :: buf[j] == old(buf[j])
  {
    hide Bare, Padded, Padding, RoundUp4, Zeros;
    PaddingOfRecord(off, |r.value|);
    next := Put(buf, off, Bare(r));
    next := PadTo4(buf, next);
    ExtendPadded(h, rs, i);
  }

  method AppendAlignedEntries(k: Kind, buf: array<u8>, off: nat, tiles: seq<Tile>, ghost h: Blob, ghost rs: seq<Record>, ghost i: nat)
    returns (next: nat)
    requires |tiles| <= TILE_COUNT && i < |rs| && EntriesRecord(k, tiles) == rs[i]
    requires off % 4 == 0 && off + RoundUp4(8 + Size(k) * |tiles|) <= buf.Length && buf[..off] == h + Padded(rs[..i])
    modifies buf
    ensures next == off + RoundUp4(8 + Size(k) * |tiles|) && next % 4 == 0 && buf[..next] == h + Padded(rs[..i + 1])
    ensures forall j | next <= j < buf.Length :: buf[j] == old(buf[j])
  {
    hide Bare, Padded, Padding, RoundUp4, Zeros, Entries;
    var len: nat := Size(k) * |tiles|;
    EntriesLength(k, tiles);
    PaddingOfRecord(off, len);
    next := PutEntries(k, buf, off, tiles);
    next := PadTo4(buf, next);
    ExtendPadded(h, rs, i);
  }

  method PutGenRecords(b: Baked, buf: array<u8>) returns (off: nat)
    requires BakedOk(b) && EstimateSize(SaveCount(b)) <= buf.Length
    modifies buf
    ensures off + 12 == EstimateSize(SaveCount(b))
    ensures buf[..off] == Header(0, b.bakeId, b.profileId, b.flags) + Padded(GenRecords(b))
    ensures forall j | off <= j < buf.Length :: buf[j] == old(buf[j])
  {
    hide Padded, Header, RoundUp4, EntriesRecord, TopologyRecord, ReadoutRecord, LimitRecord, Saved;
    var saved := Saved(b);
    ghost var rs, h := GenRecords(b), Header(0, b.bakeId, b.profileId, b.flags);
    SavedLengths(b);
    assert rs[0] == SavedRecords(b)[0] && rs[3] == SavedRecords(b)[5] && rs[6] == SavedRecords(b)[6];
    RoundedSizes(SaveCount(b));
    off := Put(buf, 0, Header(0, b.bakeId, b.profileId, b.flags));
    PaddedEmpty(h, rs);
    off := AppendAligned(buf, off, TopologyRecord(b), h, rs, 0);
    off := AppendAlignedEntries(Params, buf, off, saved, h, rs, 1);
    off := AppendAlignedEntries(Routing, buf, off, saved, h, rs, 2);
    off := AppendAligned(buf, off, ReadoutRecord(b), h, rs, 3);
    off := AppendAlignedEntries(ResetMasks, buf, off, saved, h, rs, 4);
    off := AppendAlignedEntries(Weights, buf, off, saved, h, rs, 5);
    off := AppendAligned(buf, off, LimitRecord(b), h, rs, 6);
    assert rs[..7] == rs;
  }

  lemma PaddedEmpty(h: Blob, rs: seq<Record>)
    ensures h + Padded(rs[..0]) == h
  {
    assert rs[..0] == [];
  }

  /** d8_bake_gen_custom: it refuses tile counts outside 1..4096, and otherwise fills exactly the estimated
      size, leaving the rest of the caller's buffer alone. */
  method GenCustom(buf: array<u8>, tileCount: u32, lo: i16, hi: i16, decay: u16) returns (rc: int, size: nat)
    requires 0 < tileCount <= TILE_COUNT ==> EstimateSize(tileCount) <= buf.Length
    modifies buf
    ensures !(0 < tileCount <= TILE_COUNT) ==> rc == -1 && buf[..] == old(buf[..])
    ensures 0 < tileCount <= TILE_COUNT ==>
              && rc == 0 && size == EstimateSize(tileCount)
              && buf[..size] == GenBlob(tileCount, lo, hi, decay)
    ensures forall j | size <= j < buf.Length :: buf[j] == old(buf[j])
  {
    hide Padded, Header, Sealed, GenRecords, EstimateSize;
    if tileCount == 0 || tileCount > TILE_COUNT {
      return -1, 0;
    }
    var b := Generated(tileCount, lo, hi, decay);
    PaddedLength(b);
    var off := PutGenRecords(b, buf);
    size := Seal(buf, off, 1, 1, 0, Padded(GenRecords(b)));
    rc := 0;
  }
}
