/** Saved bakes whose tile count is not a multiple of four: from six tiles on, some of them drive the parser off its
    blob, because it skips padding that the serializer does not write. */
module SavedOverrun {
  import opened Machine
  import opened Grid
  import opened Bytes
  import opened BakeFormat
  import opened BakeParser
  import opened BakeWriter
  import opened Serializer
  import opened Overrun

  // ---------- Where the records of a saved bake stand ----------

  function RoutingStart(n: nat): nat { 60 + 13 * n }

  function WeightsStart(n: nat): nat { 68 + 15 * n }

  function LimitStart(n: nat): nat { 104 + 57 * n }

  lemma Peel(blob: Blob, pos: nat, rs: seq<Record>, i: nat, tail: Blob)
    requires pos <= |blob| && i < |rs| && blob[pos..] == Packed(rs[i..]) + tail
    ensures Stands(blob, pos, rs[i])
    ensures blob[pos + 8 + |rs[i].value|..] == Packed(rs[i + 1..]) + tail
  {
    hide Bare, Packed;
    PackedStep(rs, i);
    var w, n := Bare(rs[i]), 8 + |rs[i].value|;
    var rest := Packed(rs[i + 1..]) + tail;
    assert blob[pos..] == w + rest;
    assert blob[pos..pos + n] == blob[pos..][..n] == w;
    assert blob[pos + n..] == blob[pos..][n..] == rest;
  }

  lemma SavedLayout(b: Baked)
    requires BakedOk(b)
    ensures var blob, n := Serialize(b), SaveCount(b);
            && Stands(blob, 28, TopologyRecord(b))
            && Stands(blob, 52, EntriesRecord(Params, Saved(b)))
            && Stands(blob, RoutingStart(n), EntriesRecord(Routing, Saved(b)))
            && Stands(blob, WeightsStart(n), EntriesRecord(Weights, Saved(b)))
            && Stands(blob, LimitStart(n), LimitRecord(b))
  {
    hide Serialize, Stands, EntriesRecord, Saved;
    AllRecordsStand(b);
  }

  /** All eight records of a saved bake. */
  lemma AllRecordsStand(b: Baked)
    requires BakedOk(b)
    ensures var blob, n := Serialize(b), SaveCount(b);
            && Stands(blob, 28, TopologyRecord(b))
            && Stands(blob, 52, EntriesRecord(Params, Saved(b)))
            && Stands(blob, RoutingStart(n), EntriesRecord(Routing, Saved(b)))
            && Stands(blob, WeightsStart(n), EntriesRecord(Weights, Saved(b)))
            && Stands(blob, 76 + 55 * n, EntriesRecord(ResetMasks, Saved(b)))
            && Stands(blob, 84 + 57 * n, ReadoutRecord(b))
            && Stands(blob, LimitStart(n), LimitRecord(b))
            && Stands(blob, 116 + 57 * n, Record(TLV_CRC32, Le32(Crc.Crc32(blob[..116 + 57 * n]))))
  {
    hide Stands, Packed, Header, TopologyRecord, EntriesRecord, ReadoutRecord, LimitRecord, Saved, Crc.Crc32;
    var blob, n, rs := Serialize(b), SaveCount(b), SavedRecords(b);
    var tail := blob[116 + 57 * n..];
    PackedLength(b);
    SavedLengths(b);
    SealedIs(Header(|blob|, b.bakeId, b.profileId, b.flags) + Packed(rs), Header(|blob|, b.bakeId, b.profileId, b.flags), Packed(rs));
    assert rs[0..] == rs;
    assert blob[28..] == blob[28..28 + |Packed(rs)|] + tail;
    Peel(blob, 28, rs, 0, tail);
    Peel(blob, 52, rs, 1, tail);
    Peel(blob, RoutingStart(n), rs, 2, tail);
    Peel(blob, WeightsStart(n), rs, 3, tail);
    Peel(blob, WeightsStart(n) + 8 + 40 * n, rs, 4, tail);
    Peel(blob, WeightsStart(n) + 16 + 42 * n, rs, 5, tail);
    Peel(blob, LimitStart(n), rs, 6, tail);
    SealStands(Header(|blob|, b.bakeId, b.profileId, b.flags) + Packed(rs));
  }

  lemma SealStands(body: Blob)
    ensures Sealed(body)[..|body|] == body && Stands(Sealed(body), |body|, Record(TLV_CRC32, Le32(Crc.Crc32(body))))
  {
    hide Crc.Crc32, Le32, Tlv;
  }

  lemma BareHeader(blob: Blob, pos: nat, r: Record)
    requires Stands(blob, pos, r)
    ensures HeaderAt(blob, pos, r.ty, |r.value|)
  {
    var w, n := Bare(r), 8 + |r.value|;
    assert forall i | 0 <= i < n :: blob[pos..pos + n][i] == w[i];
  }

  lemma BareValue(blob: Blob, pos: nat, r: Record, i: nat)
    requires Stands(blob, pos, r) && i < |r.value|
    ensures pos + 8 + i < |blob| && blob[pos + 8 + i] == r.value[i]
  {
    hide Le16, Le32;
    var w, n := Bare(r), 8 + |r.value|;
    assert blob[pos..pos + n][8 + i] == w[8 + i];
  }

  /** Byte i of tile t's entry, where its record stands. */
  lemma EntryByte(blob: Blob, pos: nat, k: Kind, tiles: seq<Tile>, t: nat, i: nat)
    requires |tiles| <= TILE_COUNT && t < |tiles| && i < Size(k) && Stands(blob, pos, EntriesRecord(k, tiles))
    ensures pos + 8 + Size(k) * t + i < |blob| && blob[pos + 8 + Size(k) * t + i] == Encode(k, tiles[t])[i]
  {
    hide Encode, Entries, Stands;
    EntriesLength(k, tiles);
    EntryAt(k, tiles, t);
    ChunkBelow(Size(k), t, |tiles|);
    ChunkFits(Size(k), t);
    assert Chunk(Entries(k, tiles), Size(k), t)[i] == Entries(k, tiles)[Size(k) * t + i];
    BareValue(blob, pos, EntriesRecord(k, tiles), Size(k) * t + i);
  }

  // ---------- Up to the routing record ----------

  /** Where the parser looks for the third record. */
  function ThirdPos(n: nat): nat { RoutingStart(n) + Padding(13 * n) }

  /** The header of a saved bake is in order. */
  lemma SavedStart(b: Baked)
    requires BakedOk(b)
    ensures Parse(Serialize(b)) == ParseFrom(Serialize(b), 28, EmptyAcc(b.bakeId, b.profileId, b.flags))
  {
    hide Header, Packed, Sealed, ParseFrom, EmptyAcc, ReadLe16, ReadLe32, SavedRecords;
    PackedLength(b);
    var blob := Serialize(b);
    var head := Header(|blob|, b.bakeId, b.profileId, b.flags);
    SealedIs(head + Packed(SavedRecords(b)), head, Packed(SavedRecords(b)));
    HeaderRead(blob, head, b.bakeId, b.profileId, b.flags);
  }

  lemma Paddings(n: nat)
    ensures Padding(16) == 0 && Padding(n) <= 3
  {
  }

  lemma UpToRouting(b: Baked)
    requires BakedOk(b) && SaveCount(b) < TILE_COUNT
    ensures var n := SaveCount(b);
            ThirdPos(n) <= |Serialize(b)| && ViewOk(Midway(b, 1).view)
            && Parse(Serialize(b)) ==
               if b.topo.lanes != 8 || b.topo.domains != 16 then Rejected(TOPOLOGY_MISMATCH, 0)
               else if FirstInverted(Saved(b)) < n then Rejected(BAKE_RESERVED_NON_ZERO, FirstInverted(Saved(b)))
               else ParseFrom(Serialize(b), ThirdPos(n), Midway(b, 1))
  {
    hide Parse, ParseFrom, Serialize, Stands, Take, Midway, TopologyBytes, Entries, Saved,
         FirstInverted, Header, Padding, EmptyAcc;
    var blob, n := Serialize(b), SaveCount(b);
    var topo, params := TopologyRecord(b), EntriesRecord(Params, Saved(b));
    SavedLayout(b);
    SavedLengths(b);
    SavedStart(b);
    Paddings(13 * n);
    EmptyIsOk(b);
    TakesTopology(blob, b);
    TakesKind(blob, b, 1);
    StepOver(blob, 28, topo, EmptyAcc(b.bakeId, b.profileId, b.flags));
    if b.topo.lanes == 8 && b.topo.domains == 16 {
      StepOver(blob, 52, params, Midway(b, 0));
    }
  }

  // ---------- Raw bytes from the routing record on ----------

  function FlagByte(t: Tile, i: nat): u8 { if i % 2 == 0 then RoutingFlags(t) % 0x100 else RoutingFlags(t) / 0x100 }

  /** A record header with type ty and length len stands at pos. */
  ghost predicate HeaderAt(blob: Blob, pos: nat, ty: u16, len: u32) {
    && pos + 8 <= |blob|
    && blob[pos] == ty % 0x100 && blob[pos + 1] == ty / 0x100 && blob[pos + 2] == 0 && blob[pos + 3] == 0
    && blob[pos + 4] == len % 0x100 && blob[pos + 5] == len / 0x100 % 0x100
    && blob[pos + 6] == len / 0x100 / 0x100 % 0x100 && blob[pos + 7] == len / 0x100 / 0x100 / 0x100
  }

  /** What the serializer wrote where the parser looks for records. */
  ghost predicate RawBytes(b: Baked, blob: Blob, n: nat)
    requires BakedOk(b) && n == SaveCount(b)
  {
    var R, W := RoutingStart(n), WeightsStart(n);
    && |blob| == 128 + 57 * n
    && HeaderAt(blob, R, TLV_TILE_ROUTING_FLAGS16, 2 * n)
    && (forall k | R + 8 <= k < R + 8 + 2 * n :: blob[k] == FlagByte(b.tiles[(k - R - 8) / 2], k - R - 8))
    && HeaderAt(blob, W, TLV_TILE_WEIGHTS_PACKED, 40 * n)
    && (forall k | W + 8 <= k < W + 8 + 40 * n :: blob[k] == Encode(Weights, b.tiles[(k - W - 8) / 40])[(k - W - 8) % 40])
  }

  lemma SavedBytes(b: Baked)
    requires BakedOk(b)
    ensures RawBytes(b, Serialize(b), SaveCount(b))
  {
    hide Serialize, Encode, RoutingFlags, HeaderAt, Stands;
    var blob, n := Serialize(b), SaveCount(b);
    SavedLayout(b);
    RoutingBytes(blob, RoutingStart(n), Saved(b));
    WeightBytes(blob, WeightsStart(n), Saved(b));
  }

  lemma RoutingBytes(blob: Blob, pos: nat, tiles: seq<Tile>)
    requires |tiles| <= TILE_COUNT && Stands(blob, pos, EntriesRecord(Routing, tiles))
    ensures HeaderAt(blob, pos, TLV_TILE_ROUTING_FLAGS16, 2 * |tiles|) && pos + 8 + 2 * |tiles| <= |blob|
    ensures forall k | pos + 8 <= k < pos + 8 + 2 * |tiles| :: blob[k] == FlagByte(tiles[(k - pos - 8) / 2], k - pos - 8)
  {
    hide Entries, Encode, RoutingFlags, HeaderAt, Stands;
    EntriesLength(Routing, tiles);
    BareHeader(blob, pos, EntriesRecord(Routing, tiles));
    StandsInside(blob, pos, EntriesRecord(Routing, tiles));
    forall k | pos + 8 <= k < pos + 8 + 2 * |tiles|
      ensures blob[k] == FlagByte(tiles[(k - pos - 8) / 2], k - pos - 8)
    {
      var i: nat := k - pos - 8;
      EntryByte(blob, pos, Routing, tiles, i / 2, i % 2);
      RoutingEntry(tiles[i / 2], i);
    }
  }

  lemma WeightBytes(blob: Blob, pos: nat, tiles: seq<Tile>)
    requires |tiles| <= TILE_COUNT && Stands(blob, pos, EntriesRecord(Weights, tiles))
    ensures HeaderAt(blob, pos, TLV_TILE_WEIGHTS_PACKED, 40 * |tiles|) && pos + 8 + 40 * |tiles| <= |blob|
    ensures forall k | pos + 8 <= k < pos + 8 + 40 * |tiles| ::
              blob[k] == Encode(Weights, tiles[(k - pos - 8) / 40])[(k - pos - 8) % 40]
  {
    hide Entries, Encode, HeaderAt, Stands;
    EntriesLength(Weights, tiles);
    BareHeader(blob, pos, EntriesRecord(Weights, tiles));
    StandsInside(blob, pos, EntriesRecord(Weights, tiles));
    forall k | pos + 8 <= k < pos + 8 + 40 * |tiles|
      ensures blob[k] == Encode(Weights, tiles[(k - pos - 8) / 40])[(k - pos - 8) % 40]
    {
      var i: nat := k - pos - 8;
      EntryByte(blob, pos, Weights, tiles, i / 40, i % 40);
    }
  }

  lemma StandsInside(blob: Blob, pos: nat, r: Record)
    requires Stands(blob, pos, r)
    ensures pos + 8 + |r.value| <= |blob|
  {
  }

  lemma RoutingEntry(t: Tile, i: nat)
    ensures Encode(Routing, t)[i % 2] == FlagByte(t, i)
  {
    hide RoutingFlags;
  }

  // ---------- Steps of the parser over raw bytes ----------

  /** The parser reads this type and length at pos. */
  ghost predicate Sees(blob: Blob, pos: nat, ty: int, len: int) {
    pos + 8 <= |blob| && ReadLe16(blob, pos) == ty && ReadLe32(blob, pos + 4) == len
  }

  function Word(b0: int, b1: int, b2: int, b3: int): int { b0 + 0x100 * b1 + 0x1_0000 * b2 + 0x100_0000 * b3 }

  lemma Reads(blob: Blob, pos: nat, ty: int, len: int)
    requires pos + 8 <= |blob| && ty == Word(blob[pos], blob[pos + 1], 0, 0)
    requires len == Word(blob[pos + 4], blob[pos + 5], blob[pos + 6], blob[pos + 7])
    ensures Sees(blob, pos, ty, len)
  {
  }

  /** The parser meets a length that does not fit. */
  lemma Refuses(blob: Blob, pos: nat, a: Acc, ty: int, len: int)
    requires 28 <= pos && ViewOk(a.view) && Sees(blob, pos, ty, len) && pos + 8 + len > |blob|
    ensures ParseFrom(blob, pos, a).Rejected?
  {
    hide Take, ReadLe16, ReadLe32;
  }

  /** It meets a record of a type that it does not know. */
  lemma Jumps(blob: Blob, pos: nat, a: Acc, ty: u16, len: nat)
    requires 28 <= pos && ViewOk(a.view) && Sees(blob, pos, ty, len) && pos + 8 + len <= |blob| && Unknown(ty)
    ensures ParseFrom(blob, pos, a) ==
            if pos + 8 + len + Padding(len) > |blob| then PastBlob else ParseFrom(blob, pos + 8 + len + Padding(len), a)
  {
    hide Padding, ParseFrom, Unknown, ReadLe16, ReadLe32;
    Skip(blob, pos, a);
  }

  lemma SeesZero(blob: Blob, pos: nat)
    requires pos + 8 <= |blob| && forall j | pos <= j < pos + 8 :: blob[j] == 0
    ensures Sees(blob, pos, 0, 0)
  {
    Reads(blob, pos, 0, 0);
  }

  /** Zero bytes are empty records of type 0. */
  lemma {:induction false} ZeroRun(blob: Blob, pos: nat, a: Acc, k: nat)
    requires 28 <= pos && pos + 8 * k <= |blob| && ViewOk(a.view)
    requires forall j | pos <= j < pos + 8 * k :: blob[j] == 0
    ensures ParseFrom(blob, pos, a) == ParseFrom(blob, pos + 8 * k, a)
    decreases k
  {
    hide ParseFrom, Unknown, Padding, Sees, ViewOk;
    if k > 0 {
      KnownFacts();
      SeesZero(blob, pos);
      Jumps(blob, pos, a, 0, 0);
      ZeroRun(blob, pos + 8, a, k - 1);
    }
  }

  lemma KnownFacts()
    ensures Unknown(0) && Unknown(1) && Unknown(0xA00) && Padding(0) == 0 == Padding(256)
    ensures Padding(13) == 3 && Padding(26) == 2 && Padding(39) == 1 && Padding(65) == 3
  {
  }

  // ---------- Small counts never run off ----------

  /** One, two, three and five tiles: whatever is saved, the parser gives a verdict. */
  lemma SmallSaved(b: Baked)
    requires BakedOk(b) && SaveCount(b) in {1, 2, 3, 5}
    ensures Parse(Serialize(b)).Rejected?
  {
    hide Parse, ParseFrom, Serialize, HeaderAt, FirstInverted, Saved, Midway;
    UpToRouting(b);
    SavedBytes(b);
    var n := SaveCount(b);
    if n == 1 {
      One(Serialize(b), Midway(b, 1));
    } else if n == 2 {
      Two(Serialize(b), Midway(b, 1));
    } else if n == 3 {
      Three(Serialize(b), Midway(b, 1));
    } else {
      LimitBytes(b);
      Five(Serialize(b), Midway(b, 1));
    }
  }

  lemma One(blob: Blob, a: Acc)
    requires |blob| == 185 && ViewOk(a.view)
    requires HeaderAt(blob, 73, TLV_TILE_ROUTING_FLAGS16, 2) && HeaderAt(blob, 83, TLV_TILE_WEIGHTS_PACKED, 40)
    ensures ParseFrom(blob, ThirdPos(1), a).Rejected?
  {
    hide ParseFrom, Sees, ViewOk, Padding;
    KnownFacts();
    var R := RoutingStart(1);
    var len := Word(0, blob[R + 8], blob[R + 9], 0x60);
    Reads(blob, R + 3, 0x200, len);
    Refuses(blob, R + 3, a, 0x200, len);
  }

  lemma Two(blob: Blob, a: Acc)
    requires |blob| == 242 && ViewOk(a.view)
    requires HeaderAt(blob, 86, TLV_TILE_ROUTING_FLAGS16, 4) && HeaderAt(blob, 98, TLV_TILE_WEIGHTS_PACKED, 80)
    ensures ParseFrom(blob, ThirdPos(2), a).Rejected?
  {
    hide ParseFrom, Sees, ViewOk, Unknown, Padding, Word;
    var R := RoutingStart(2);
    KnownFacts();
    HighBytes(blob[R + 8], blob[R + 9]);
    var len, next := Word(0, 0, blob[R + 8], blob[R + 9]), Word(blob[R + 10], blob[R + 11], 0, 0);
    Reads(blob, R + 2, 0, len);
    if len == 0 {
      Reads(blob, R + 10, next, 0x50_0000);
      Jumps(blob, R + 2, a, 0, 0);
      Refuses(blob, R + 10, a, next, 0x50_0000);
    } else {
      Refuses(blob, R + 2, a, 0, len);
    }
  }

  lemma HighBytes(x: u8, y: u8)
    ensures Word(0, 0, x, y) == 0 || Word(0, 0, x, y) >= 0x1_0000
    ensures Word(0, 0, 80, 0) == 0x50_0000 && Word(0, 0, 0, 0) == 0
  {
  }

  lemma Three(blob: Blob, a: Acc)
    requires |blob| == 299 && ViewOk(a.view)
    requires HeaderAt(blob, 99, TLV_TILE_ROUTING_FLAGS16, 6) && HeaderAt(blob, 113, TLV_TILE_WEIGHTS_PACKED, 120)
    ensures ParseFrom(blob, ThirdPos(3), a).Rejected?
  {
    hide ParseFrom, Sees, ViewOk, Unknown, Padding;
    var R := RoutingStart(3);
    KnownFacts();
    var len, next := Word(0, 0, 0, blob[R + 8]), Word(blob[R + 9], blob[R + 10], 0, 0);
    Reads(blob, R + 1, 1, len);
    Reads(blob, R + 9, next, Word(blob[R + 13], 0x60, 1, 0));
    if len == 0 {
      Jumps(blob, R + 1, a, 1, 0);
      Refuses(blob, R + 9, a, next, Word(blob[R + 13], 0x60, 1, 0));
    } else {
      Refuses(blob, R + 1, a, 1, len);
    }
  }

  lemma LimitBytes(b: Baked)
    requires BakedOk(b) && SaveCount(b) == 5
    ensures var blob := Serialize(b);
            |blob| == 413 && blob[396] == 0 && blob[397] == 5 && blob[398] == 0 && blob[399] == 0
  {
    hide Serialize, Stands, Le32;
    SavedLayout(b);
    LimitOfFive(Serialize(b), LimitRecord(b));
  }

  lemma LimitOfFive(blob: Blob, r: Record)
    requires |blob| == 413 && r.value == Le32(5) && Stands(blob, 389, r)
    ensures blob[396] == 0 && blob[397] == 5 && blob[398] == 0 && blob[399] == 0
  {
    hide Stands;
    BareHeader(blob, 389, r);
    BareValue(blob, 389, r, 0);
    BareValue(blob, 389, r, 1);
    BareValue(blob, 389, r, 2);
  }

  lemma Five(blob: Blob, a: Acc)
    requires |blob| == 413 && ViewOk(a.view)
    requires HeaderAt(blob, 125, TLV_TILE_ROUTING_FLAGS16, 10) && HeaderAt(blob, 143, TLV_TILE_WEIGHTS_PACKED, 200)
    requires blob[396] == 0 && blob[397] == 5 && blob[398] == 0 && blob[399] == 0
    ensures ParseFrom(blob, ThirdPos(5), a).Rejected?
  {
    hide ParseFrom, Sees, ViewOk, Unknown, Padding;
    var R := RoutingStart(5);
    KnownFacts();
    var len := Word(0, blob[R + 8], blob[R + 9], blob[R + 10]);
    Reads(blob, R + 3, 0xA00, len);
    if len == 0 {
      var ty, big := Word(blob[R + 11], blob[R + 12], 0, 0), Word(blob[R + 15], blob[R + 16], blob[R + 17], 0x60);
      Reads(blob, R + 11, ty, big);
      Jumps(blob, R + 3, a, 0xA00, 0);
      Refuses(blob, R + 11, a, ty, big);
    } else if len == 256 {
      var ty := Word(blob[392], blob[393], 0, 0);
      Reads(blob, 392, ty, Word(0, 5, 0, 0));
      Jumps(blob, R + 3, a, 0xA00, 256);
      Refuses(blob, 392, a, ty, Word(0, 5, 0, 0));
    } else {
      Refuses(blob, R + 3, a, 0xA00, len);
    }
  }
}
