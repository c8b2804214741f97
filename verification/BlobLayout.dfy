/** Both writers' blobs in literal offsets and bytes. */
module BlobLayout {
  import opened Machine
  import opened Grid
  import opened Bytes
  import opened BakeFormat
  import opened BakeWriter
  import opened Serializer
  import opened Overrun
  import SavedOverrun
  import opened ByteLayout
  import opened BakeGen

  /** A record with this type and length stands at pos, its flag word zero. */
  ghost predicate RecordHead(blob: Blob, pos: nat, ty: int, len: int) {
    && pos + 8 + len <= |blob| && 0 <= len
    && Word2(blob[pos], blob[pos + 1]) == ty && blob[pos + 2] == 0 && blob[pos + 3] == 0
    && Word4(blob[pos + 4], blob[pos + 5], blob[pos + 6], blob[pos + 7]) == len
  }

  lemma HeadOf(blob: Blob, pos: nat, r: Record)
    requires Stands(blob, pos, r)
    ensures RecordHead(blob, pos, r.ty, |r.value|) && blob[pos + 8..pos + 8 + |r.value|] == r.value
  {
    hide Le16, Le32;
    var w, n := Bare(r), 8 + |r.value|;
    assert blob[pos..pos + n] == w;
    assert forall i | 0 <= i < n :: blob[pos + i] == w[i];
    BareHead(r);
    forall i | 0 <= i < |r.value|
      ensures blob[pos + 8..pos + n][i] == r.value[i]
    {
      assert w[8..][i] == w[8 + i];
    }
  }

  lemma BareHead(r: Record)
    ensures var w := Bare(r);
            && Word2(w[0], w[1]) == r.ty && w[2] == 0 && w[3] == 0 && Word4(w[4], w[5], w[6], w[7]) == |r.value|
            && w[8..] == r.value
  {
    hide Le16, Le32, Word2, Word4;
    BareFields(r);
    var w := Bare(r);
    LowFirst(w, 0);
    LowFirst(w, 4);
    assert w[2..4] == Le16(0);
    WordBytes(0, 0);
    assert w[2] == w[2..4][0] && w[3] == w[2..4][1];
  }

  /** The 28 header bytes. */
  ghost predicate BlobHead(blob: Blob, total: int, bakeId: int, profileId: int, flags: int) {
    && |blob| >= 28 && blob[..8] == [0x44, 0x38, 0x42, 0x4B, 2, 0, 0, 0]
    && Word4(blob[8], blob[9], blob[10], blob[11]) == flags
    && Word4(blob[12], blob[13], blob[14], blob[15]) == total
    && Word4(blob[16], blob[17], blob[18], blob[19]) == bakeId
    && Word4(blob[20], blob[21], blob[22], blob[23]) == profileId
    && Word4(blob[24], blob[25], blob[26], blob[27]) == 0
  }

  lemma HeaderBytes(blob: Blob, total: u32, bakeId: u32, profileId: u32, flags: u32)
    requires |blob| >= 28 && blob[..28] == Header(total, bakeId, profileId, flags)
    ensures BlobHead(blob, total, bakeId, profileId, flags)
  {
    hide Le32, Word4, ReadLe32, ReadLe16;
    HeaderFields(total, bakeId, profileId, flags, blob[28..]);
    assert blob == Header(total, bakeId, profileId, flags) + blob[28..];
    LowFirst(blob, 8);
    LowFirst(blob, 12);
    LowFirst(blob, 16);
    LowFirst(blob, 20);
    LowFirst(blob, 24);
    assert blob[..8] == Header(total, bakeId, profileId, flags)[..8];
  }

  /** Sixteen bytes of topology. */
  ghost predicate TopologyAt(blob: Blob, pos: nat, count: int, w: int, h: int, lanes: int, domains: int, limit: int) {
    && pos + 16 <= |blob|
    && Word4(blob[pos], blob[pos + 1], blob[pos + 2], blob[pos + 3]) == count
    && Word2(blob[pos + 4], blob[pos + 5]) == w && Word2(blob[pos + 6], blob[pos + 7]) == h
    && blob[pos + 8] == lanes && blob[pos + 9] == domains && blob[pos + 10] == 0 && blob[pos + 11] == 0
    && Word4(blob[pos + 12], blob[pos + 13], blob[pos + 14], blob[pos + 15]) == limit
  }

  lemma TopologyInBytes(blob: Blob, pos: nat, count: u32, w: u16, h: u16, lanes: u8, domains: u8, limit: u32)
    requires pos + 16 <= |blob| && blob[pos..pos + 16] == TopologyBytes(count, w, h, lanes, domains, limit)
    ensures TopologyAt(blob, pos, count, w, h, lanes, domains, limit)
  {
    hide Le32, Le16, Word4, Word2, ReadLe32, ReadLe16;
    var v := TopologyBytes(count, w, h, lanes, domains, limit);
    assert forall i | 0 <= i < 16 :: blob[pos + i] == v[i];
    TopologyRoundTrip(count, w, h, lanes, domains, limit);
    LowFirst(v, 0);
    LowFirst(v, 4);
    LowFirst(v, 6);
    LowFirst(v, 12);
    assert v[10..12] == Le16(0);
    WordBytes(0, 0);
    assert v[10] == v[10..12][0] && v[11] == v[10..12][1];
  }

  /** Twelve bytes of readout policy. */
  ghost predicate ReadoutAt(blob: Blob, pos: nat, r: Readout) {
    && pos + 12 <= |blob|
    && blob[pos] == r.mode && blob[pos + 1] == 0
    && Word2(blob[pos + 2], blob[pos + 3]) == r.winnerMask && Word2(blob[pos + 4], blob[pos + 5]) == r.settleNs
    && Word2(blob[pos + 6], blob[pos + 7]) == r.reserved1
    && Word4(blob[pos + 8], blob[pos + 9], blob[pos + 10], blob[pos + 11]) == r.reserved2
  }

  lemma ReadoutInBytes(blob: Blob, pos: nat, r: Readout)
    requires pos + 12 <= |blob| && blob[pos..pos + 12] == ReadoutBytes(r)
    ensures ReadoutAt(blob, pos, r)
  {
    hide Le32, Le16, Word4, Word2, ReadLe32, ReadLe16;
    var v := ReadoutBytes(r);
    assert forall i | 0 <= i < 12 :: blob[pos + i] == v[i];
    ReadoutRoundTrip(r);
    LowFirst(v, 2);
    LowFirst(v, 4);
    LowFirst(v, 6);
    LowFirst(v, 8);
  }

  /** From pos on, one entry of the given size for each tile, encoded as its kind. */
  ghost predicate EntriesAt(blob: Blob, pos: nat, k: Kind, size: nat, tiles: seq<Tile>) {
    pos + size * |tiles| <= |blob| && forall t: nat | t < |tiles| :: EntryAtByte(blob, pos + size * t, k, tiles[t])
  }

  ghost predicate EntryAtByte(blob: Blob, pos: nat, k: Kind, t: Tile) {
    pos + |Encode(k, t)| <= |blob| && blob[pos..pos + |Encode(k, t)|] == Encode(k, t)
  }

  lemma EntriesInBytes(blob: Blob, pos: nat, k: Kind, tiles: seq<Tile>)
    requires |tiles| <= TILE_COUNT && Stands(blob, pos, EntriesRecord(k, tiles))
    ensures EntriesAt(blob, pos + 8, k, Size(k), tiles)
  {
    hide Encode, Entries, Stands;
    EntriesLength(k, tiles);
    SavedOverrun.StandsInside(blob, pos, EntriesRecord(k, tiles));
    forall t: nat | t < |tiles|
      ensures EntryAtByte(blob, pos + 8 + Size(k) * t, k, tiles[t])
    {
      EntryInBytes(blob, pos, k, tiles, t);
    }
  }

  lemma EntryInBytes(blob: Blob, pos: nat, k: Kind, tiles: seq<Tile>, t: nat)
    requires |tiles| <= TILE_COUNT && t < |tiles| && Stands(blob, pos, EntriesRecord(k, tiles))
    ensures EntryAtByte(blob, pos + 8 + Size(k) * t, k, tiles[t])
  {
    hide Encode, Entries, Stands;
    var p := pos + 8 + Size(k) * t;
    forall i: nat | i < Size(k)
      ensures p + i < |blob| && blob[p + i] == Encode(k, tiles[t])[i]
    {
      SavedOverrun.EntryByte(blob, pos, k, tiles, t, i);
    }
    SavedOverrun.EntryByte(blob, pos, k, tiles, t, Size(k) - 1);
  }

  // ---------- The serializer's blob ----------

  /** Every byte of a saved bake: header, eight records at fixed offsets without padding, and what their values hold. The
      entries are those of `ByteLayout`. */
  ghost predicate SavedBlob(blob: Blob, b: Baked, n: nat, tiles: seq<Tile>) {
    && |blob| == 128 + 57 * n && |tiles| == n
    && BlobHead(blob, 128 + 57 * n, b.bakeId, b.profileId, b.flags)
    && RecordHead(blob, 28, 0x0100, 16)
    && TopologyAt(blob, 36, n, b.topo.tileW, b.topo.tileH, b.topo.lanes, b.topo.domains, b.count)
    && RecordHead(blob, 52, 0x0121, 13 * n) && EntriesAt(blob, 60, Params, 13, tiles)
    && RecordHead(blob, 60 + 13 * n, 0x0131, 2 * n) && EntriesAt(blob, 68 + 13 * n, Routing, 2, tiles)
    && RecordHead(blob, 68 + 15 * n, 0x0160, 40 * n) && EntriesAt(blob, 76 + 15 * n, Weights, 40, tiles)
    && RecordHead(blob, 76 + 55 * n, 0x0150, 2 * n) && EntriesAt(blob, 84 + 55 * n, ResetMasks, 2, tiles)
    && RecordHead(blob, 84 + 57 * n, 0x0140, 12) && ReadoutAt(blob, 92 + 57 * n, b.readout)
    && RecordHead(blob, 104 + 57 * n, 0x0170, 4) && WordAt(blob, 112 + 57 * n, b.count)
    && RecordHead(blob, 116 + 57 * n, 0xFFFE, 4) && WordAt(blob, 124 + 57 * n, Crc.Crc32(blob[..116 + 57 * n]))
  }

  ghost predicate WordAt(blob: Blob, pos: nat, w: int) {
    pos + 4 <= |blob| && Word4(blob[pos], blob[pos + 1], blob[pos + 2], blob[pos + 3]) == w
  }

  lemma WordInBytes(blob: Blob, pos: nat, w: u32)
    requires pos + 4 <= |blob| && blob[pos..pos + 4] == Le32(w)
    ensures WordAt(blob, pos, w)
  {
    hide Le32, Word4;
    WordBytes(0, w);
    assert forall i | 0 <= i < 4 :: blob[pos + i] == Le32(w)[i];
  }

  /** A zero count stands for the whole table. */
  lemma SerializedBytes(b: Baked)
    requires BakedOk(b)
    ensures var n := if b.count == 0 then 4096 else b.count;
            SavedBlob(Serialize(b), b, n, b.tiles[..n])
  {
    hide Serialize, Stands, RecordHead, BlobHead, TopologyAt, ReadoutAt, EntriesAt, WordAt, Crc.Crc32, Le32, TopologyBytes,
         ReadoutBytes, Entries, Header;
    var blob, n := Serialize(b), SaveCount(b);
    SavedLengths(b);
    SavedOverrun.AllRecordsStand(b);
    SavedHead(b);
    HeadOf(blob, 28, TopologyRecord(b));
    TopologyInBytes(blob, 36, n, b.topo.tileW, b.topo.tileH, b.topo.lanes, b.topo.domains, b.count);
    HeadOf(blob, 52, EntriesRecord(Params, Saved(b)));
    EntriesInBytes(blob, 52, Params, Saved(b));
    HeadOf(blob, 60 + 13 * n, EntriesRecord(Routing, Saved(b)));
    EntriesInBytes(blob, 60 + 13 * n, Routing, Saved(b));
    HeadOf(blob, 68 + 15 * n, EntriesRecord(Weights, Saved(b)));
    EntriesInBytes(blob, 68 + 15 * n, Weights, Saved(b));
    HeadOf(blob, 76 + 55 * n, EntriesRecord(ResetMasks, Saved(b)));
    EntriesInBytes(blob, 76 + 55 * n, ResetMasks, Saved(b));
    HeadOf(blob, 84 + 57 * n, ReadoutRecord(b));
    ReadoutInBytes(blob, 92 + 57 * n, b.readout);
    HeadOf(blob, 104 + 57 * n, LimitRecord(b));
    WordInBytes(blob, 112 + 57 * n, b.count);
    HeadOf(blob, 116 + 57 * n, Record(TLV_CRC32, Le32(Crc.Crc32(blob[..116 + 57 * n]))));
    WordInBytes(blob, 124 + 57 * n, Crc.Crc32(blob[..116 + 57 * n]));
  }

  lemma SavedHead(b: Baked)
    requires BakedOk(b)
    ensures BlobHead(Serialize(b), 128 + 57 * SaveCount(b), b.bakeId, b.profileId, b.flags)
  {
    hide Header, Packed, Sealed, BlobHead, SavedRecords;
    PackedLength(b);
    var head := Header(128 + 57 * SaveCount(b), b.bakeId, b.profileId, b.flags);
    SealedIs(head + Packed(SavedRecords(b)), head, Packed(SavedRecords(b)));
    HeaderBytes(Serialize(b), 128 + 57 * SaveCount(b), b.bakeId, b.profileId, b.flags);
  }

  // ---------- The generator's blob ----------

  /** The next multiple of four. */
  function Up(x: nat): nat { (x + 3) / 4 * 4 }

  /** Zero bytes fill a record of this length up to the next multiple of four. */
  ghost predicate ZeroFill(blob: Blob, from: nat, to: nat) {
    from <= to <= |blob| && forall i | from <= i < to :: blob[i] == 0
  }

  /** Every byte of a generated blob: header, eight records in the generator's order, each padded with zeros. */
  ghost predicate GeneratedBlob(blob: Blob, n: nat, tiles: seq<Tile>) {
    var routing := 52 + Up(8 + 13 * n);
    var readout := routing + Up(8 + 2 * n);
    var masks := readout + 20;
    var weights := masks + Up(8 + 2 * n);
    var limit := weights + 8 + 40 * n;
    && |blob| == limit + 24 && |tiles| == n
    && BlobHead(blob, limit + 24, 1, 1, 0)
    && RecordHead(blob, 28, 0x0100, 16) && TopologyAt(blob, 36, n, 128, 32, 8, 16, n)
    && RecordHead(blob, 52, 0x0121, 13 * n) && EntriesAt(blob, 60, Params, 13, tiles) && ZeroFill(blob, 60 + 13 * n, routing)
    && RecordHead(blob, routing, 0x0131, 2 * n) && EntriesAt(blob, routing + 8, Routing, 2, tiles)
    && ZeroFill(blob, routing + 8 + 2 * n, readout)
    && RecordHead(blob, readout, 0x0140, 12) && ReadoutAt(blob, readout + 8, Readout(0, 0, 0, 0, 0, 0))
    && RecordHead(blob, masks, 0x0150, 2 * n) && EntriesAt(blob, masks + 8, ResetMasks, 2, tiles)
    && ZeroFill(blob, masks + 8 + 2 * n, weights)
    && RecordHead(blob, weights, 0x0160, 40 * n) && EntriesAt(blob, weights + 8, Weights, 40, tiles)
    && RecordHead(blob, limit, 0x0170, 4) && WordAt(blob, limit + 8, n)
    && RecordHead(blob, limit + 12, 0xFFFE, 4) && WordAt(blob, limit + 20, Crc.Crc32(blob[..limit + 12]))
  }

  lemma PeelPadded(blob: Blob, pos: nat, rs: seq<Record>, i: nat, tail: Blob)
    requires pos <= |blob| && i < |rs| && blob[pos..] == Padded(rs[i..]) + tail
    ensures Stands(blob, pos, rs[i]) && pos + Up(8 + |rs[i].value|) <= |blob|
    ensures ZeroFill(blob, pos + 8 + |rs[i].value|, pos + Up(8 + |rs[i].value|))
    ensures blob[pos + Up(8 + |rs[i].value|)..] == Padded(rs[i + 1..]) + tail
  {
    hide Bare, Padded, Padding, Up;
    var r := rs[i];
    PaddedFirst(rs, i);
    UpIsPadding(|r.value|);
    var w, len, n := Bare(r), 8 + |r.value|, Up(8 + |r.value|);
    var rest := Padded(rs[i + 1..]) + tail;
    var zeros := Zeros(Padding(|r.value|));
    assert blob[pos..] == w + (zeros + rest);
    assert blob[pos..pos + len] == blob[pos..][..len] == w;
    assert blob[pos + n..] == blob[pos..][n..] == rest;
    forall j | pos + len <= j < pos + n
      ensures blob[j] == 0
    {
      assert blob[j] == blob[pos..][j - pos] == zeros[j - pos - len];
    }
  }

  lemma PaddedFirst(rs: seq<Record>, i: nat)
    requires i < |rs|
    ensures Padded(rs[i..]) == Bare(rs[i]) + Zeros(Padding(|rs[i].value|)) + Padded(rs[i + 1..])
  {
    hide Bare, Padding;
    assert rs[i..][1..] == rs[i + 1..];
  }

  lemma UpIsPadding(len: nat)
    ensures Up(8 + len) == 8 + len + Padding(len) && 8 + len <= Up(8 + len)
  {
    hide Padding;
    PaddedInWords(len);
    assert (8 + len + 3) / 4 == 2 + (len + 3) / 4;
  }

  lemma UpOfWords(len: nat)
    requires len % 4 == 0
    ensures Up(len) == len
  {
  }

  lemma GeneratedHead(rs: seq<Record>)
    requires 28 + |Padded(rs)| + 12 < 0x1_0000_0000
    ensures var blob, c := Written(rs, 1, 1, 0), 28 + |Padded(rs)|;
            && |blob| == c + 12
            && BlobHead(blob, c + 12, 1, 1, 0)
            && blob[28..] == Padded(rs[0..]) + blob[c..]
            && Stands(blob, c, Record(TLV_CRC32, Le32(Crc.Crc32(blob[..c]))))
  {
    hide Header, Padded, Sealed, BlobHead, Stands, Crc.Crc32;
    var head := Header(28 + |Padded(rs)| + 12, 1, 1, 0);
    var body := head + Padded(rs);
    var blob := Written(rs, 1, 1, 0);
    SealedIs(body, head, Padded(rs));
    HeaderBytes(blob, 28 + |Padded(rs)| + 12, 1, 1, 0);
    SavedOverrun.SealStands(body);
    assert rs[0..] == rs;
    assert blob[28..] == blob[28..28 + |Padded(rs)|] + blob[28 + |Padded(rs)|..];
  }

  lemma GeneratedStands(blob: Blob, rs: seq<Record>, n: nat, tail: Blob)
    requires |rs| == 7 && 28 <= |blob| && blob[28..] == Padded(rs[0..]) + tail
    requires |rs[0].value| == 16 && |rs[1].value| == 13 * n && |rs[2].value| == 2 * n && |rs[3].value| == 12
    requires |rs[4].value| == 2 * n && |rs[5].value| == 40 * n && |rs[6].value| == 4
    ensures var routing := 52 + Up(8 + 13 * n);
            var readout := routing + Up(8 + 2 * n);
            var masks := readout + 20;
            var weights := masks + Up(8 + 2 * n);
            var limit := weights + 8 + 40 * n;
            && |blob| == limit + 12 + |tail|
            && Stands(blob, 28, rs[0]) && Stands(blob, 52, rs[1]) && ZeroFill(blob, 60 + 13 * n, routing)
            && Stands(blob, routing, rs[2]) && ZeroFill(blob, routing + 8 + 2 * n, readout)
            && Stands(blob, readout, rs[3])
            && Stands(blob, masks, rs[4]) && ZeroFill(blob, masks + 8 + 2 * n, weights)
            && Stands(blob, weights, rs[5]) && Stands(blob, limit, rs[6])
  {
    hide Stands, ZeroFill, Padded, Up;
    UpOfWords(24);
    UpOfWords(20);
    UpOfWords(12);
    InWords(2 + 10 * n, 8 + 40 * n);
    UpOfWords(8 + 40 * n);
    var routing := 52 + Up(8 + 13 * n);
    var readout := routing + Up(8 + 2 * n);
    var masks := readout + 20;
    var weights := masks + Up(8 + 2 * n);
    PeelPadded(blob, 28, rs, 0, tail);
    PeelPadded(blob, 52, rs, 1, tail);
    PeelPadded(blob, routing, rs, 2, tail);
    PeelPadded(blob, readout, rs, 3, tail);
    PeelPadded(blob, masks, rs, 4, tail);
    PeelPadded(blob, weights, rs, 5, tail);
    PeelPadded(blob, weights + 8 + 40 * n, rs, 6, tail);
    PaddedEnd(rs);
  }

  lemma PaddedEnd(rs: seq<Record>)
    requires |rs| == 7
    ensures Padded(rs[7..]) == []
  {
  }

  /** A generated blob byte by byte: its tiles are all default ones. */
  lemma GeneratedBytes(n: nat, lo: i16, hi: i16, decay: u16)
    requires 0 < n <= 4096
    ensures GeneratedBlob(GenBlob(n, lo, hi, decay), n, seq<Tile>(n, _ => DefaultTile(lo, hi, decay)))
  {
    hide Stands, RecordHead, BlobHead, TopologyAt, ReadoutAt, EntriesAt, WordAt, ZeroFill, Crc.Crc32, Le32, TopologyBytes,
         ReadoutBytes, Entries, Written, Padded, Up, DefaultTile, DefaultTiles, EstimateSize;
    var b := Generated(n, lo, hi, decay);
    var blob, rs := GenBlob(n, lo, hi, decay), GenRecords(b);
    var tiles := seq<Tile>(n, _ => DefaultTile(lo, hi, decay));
    assert Saved(b) == tiles;
    PaddedLength(b);
    SavedLengths(b);
    GeneratedHead(rs);
    var crc := 28 + |Padded(rs)|;
    GeneratedStands(blob, rs, n, blob[crc..]);
    var routing := 52 + Up(8 + 13 * n);
    var readout := routing + Up(8 + 2 * n);
    var masks := readout + 20;
    var weights := masks + Up(8 + 2 * n);
    var limit := weights + 8 + 40 * n;
    HeadOf(blob, 28, rs[0]);
    TopologyInBytes(blob, 36, n, 128, 32, 8, 16, n);
    HeadOf(blob, 52, rs[1]);
    EntriesInBytes(blob, 52, Params, tiles);
    HeadOf(blob, routing, rs[2]);
    EntriesInBytes(blob, routing, Routing, tiles);
    HeadOf(blob, readout, rs[3]);
    ReadoutInBytes(blob, readout + 8, NO_READOUT);
    HeadOf(blob, masks, rs[4]);
    EntriesInBytes(blob, masks, ResetMasks, tiles);
    HeadOf(blob, weights, rs[5]);
    EntriesInBytes(blob, weights, Weights, tiles);
    HeadOf(blob, limit, rs[6]);
    WordInBytes(blob, limit + 8, n);
    HeadOf(blob, crc, Record(TLV_CRC32, Le32(Crc.Crc32(blob[..crc]))));
    WordInBytes(blob, crc + 8, Crc.Crc32(blob[..crc]));
  }
}
