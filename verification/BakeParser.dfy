/** The bake parser: a cursor over type-length-value records, each padded to four bytes. */
module BakeParser {
  import opened Machine
  import opened Grid
  import opened Bytes
  import opened BakeFormat
  import opened Crc

  /** How a parse ends. The C code has no check against two events, and the model stops there instead of
      reading or writing outside its memory: skipping padding that the blob does not have, and entries for
      more tiles than the view's arrays hold. */
  datatype Outcome = Accepted(view: View) | Rejected(code: Code, extra: u32) | PastBlob | PastArrays

  /** The parser's registers: the view so far and the has_* flags. */
  datatype Acc = Acc(view: View, topology: bool, params: bool, routing: bool, weights: bool, crc: bool)

  datatype Step = Go(acc: Acc) | Stop(out: Outcome)

  /** A record that is taken keeps the view's capacity; one that is not ends the parse. */
  ghost predicate Fine(s: Step) {
    if s.Go? then ViewOk(s.acc.view) else s.out.Rejected? || s.out.PastArrays?
  }

  ghost predicate ViewOk(v: View) { |v.tiles| == TILE_COUNT }

  function Tlv(ty: u16, value: Blob): (r: Blob)
    requires |value| < 0x1_0000_0000
    ensures |r| == 8 + |value|
  {
    Le16(ty) + Le16(0) + Le32(|value|) + value
  }

  // ---------- One record ----------

  function ReadTopology(v: Blob): Topology
    requires |v| == 16
  {
    Topology(ReadLe32(v, 0), ReadLe16(v, 4), ReadLe16(v, 6), v[8], v[9], ReadLe16(v, 10), ReadLe32(v, 12))
  }

  function TakeTopology(v: Blob, a: Acc): (r: Step)
    requires |v| < 0x1_0000_0000 && ViewOk(a.view)
    ensures Fine(r)
  {
    if |v| != 16 then Stop(Rejected(BAKE_BAD_TLV_LEN, |v|))
    else
      var topo := ReadTopology(v);
      if topo.lanes != 8 || topo.domains != 16 then Stop(Rejected(TOPOLOGY_MISMATCH, 0))
      else if topo.reserved != 0 then Stop(Rejected(BAKE_RESERVED_NON_ZERO, 0))
      else Go(a.(view := a.view.(topo := topo, tileCount := topo.tileCount), topology := true))
  }

  function BadExtra(k: Kind, p: Blob, t: nat): u32
    requires |p| == Size(k) && t < TILE_COUNT
  {
    if k == Routing then ReadLe16(p, 0) else t
  }

  function Flagged(k: Kind, a: Acc): Acc {
    match k
    case Params => a.(params := true)
    case Routing => a.(routing := true)
    case Weights => a.(weights := true)
    case ResetMasks => a
  }

  function TakeTiles(k: Kind, v: Blob, a: Acc): (r: Step)
    requires |v| < 0x1_0000_0000 && ViewOk(a.view)
    ensures Fine(r)
  {
    if !a.topology then Stop(Rejected(BAKE_MISSING_TLV, 0))
    else if |v| != Size(k) * a.view.tileCount then Stop(Rejected(BAKE_BAD_TLV_LEN, |v|))
    else
      var n := Min(a.view.tileCount, TILE_COUNT);
      Within(k, n, a.view.tileCount);
      var f := FirstBad(k, v, n);
      if f < n then
        Within(k, f + 1, n);
        ChunkFits(Size(k), f);
        Stop(Rejected(BAKE_RESERVED_NON_ZERO, BadExtra(k, Chunk(v, Size(k), f), f)))
      else if n < a.view.tileCount then Stop(PastArrays)
      else Go(Flagged(k, a.(view := a.view.(tiles := DecodeTiles(k, v, a.view.tiles, n)))))
  }

  lemma Within(k: Kind, m: nat, n: nat)
    requires m <= n
    ensures Size(k) * m <= Size(k) * n
  {
  }

  function ReadReadout(v: Blob): Readout
    requires |v| == 12
  {
    Readout(v[0], v[1], ReadLe16(v, 2), ReadLe16(v, 4), ReadLe16(v, 6), ReadLe32(v, 8))
  }

  function TakeReadout(v: Blob, a: Acc): (r: Step)
    requires |v| < 0x1_0000_0000 && ViewOk(a.view)
    ensures Fine(r)
  {
    if |v| != 12 then Stop(Rejected(BAKE_BAD_TLV_LEN, |v|))
    else if v[0] > 1 then Stop(Rejected(BAKE_RESERVED_NON_ZERO, v[0]))
    else Go(a.(view := a.view.(readout := ReadReadout(v))))
  }

  function TakeLimit(v: Blob, a: Acc): (r: Step)
    requires |v| < 0x1_0000_0000 && ViewOk(a.view)
    ensures Fine(r)
  {
    if |v| != 4 then Stop(Rejected(BAKE_BAD_TLV_LEN, |v|))
    else Go(a.(view := a.view.(tileFieldLimit := ReadLe32(v, 0))))
  }

  /** The checksum covers everything but the last twelve bytes of the blob, wherever this record stands. */
  function TakeCrc(blob: Blob, v: Blob, a: Acc): (r: Step)
    requires |v| < 0x1_0000_0000 && 12 <= |blob| && ViewOk(a.view)
    ensures Fine(r)
  {
    if |v| != 4 then Stop(Rejected(BAKE_BAD_TLV_LEN, |v|))
    else if ReadLe32(v, 0) != Crc32(blob[..|blob| - 12]) then Stop(Rejected(BAKE_CRC_FAIL, ReadLe32(v, 0)))
    else Go(a.(crc := true))
  }

  /** Dispatch on the record type; unknown types are skipped. */
  function Take(blob: Blob, ty: u16, v: Blob, a: Acc): (r: Step)
    requires |v| < 0x1_0000_0000 && 12 <= |blob| && ViewOk(a.view)
    ensures Fine(r)
  {
    if ty == TLV_TOPOLOGY then TakeTopology(v, a)
    else if ty == TLV_TILE_PARAMS_V2 then TakeTiles(Params, v, a)
    else if ty == TLV_TILE_ROUTING_FLAGS16 then TakeTiles(Routing, v, a)
    else if ty == TLV_TILE_WEIGHTS_PACKED then TakeTiles(Weights, v, a)
    else if ty == TLV_RESET_ON_FIRE_MASK16 then TakeTiles(ResetMasks, v, a)
    else if ty == TLV_READOUT_POLICY then TakeReadout(v, a)
    else if ty == TLV_TILE_FIELD_LIMIT then TakeLimit(v, a)
    else if ty == TLV_CRC32 then TakeCrc(blob, v, a)
    else Go(a)
  }

  // ---------- The whole blob ----------

  function Finish(a: Acc): (o: Outcome)
    ensures o.Accepted? || o.Rejected?
  {
    if !a.topology then Rejected(BAKE_MISSING_TLV, TLV_TOPOLOGY)
    else if !a.params then Rejected(BAKE_MISSING_TLV, TLV_TILE_PARAMS_V2)
    else if !a.routing then Rejected(BAKE_MISSING_TLV, TLV_TILE_ROUTING_FLAGS16)
    else if !a.weights then Rejected(BAKE_MISSING_TLV, TLV_TILE_WEIGHTS_PACKED)
    else if !a.crc then Rejected(BAKE_MISSING_TLV, TLV_CRC32)
    else Accepted(a.view)
  }

  /** A record header stands at pos, and its value fits in the rest of the blob. */
  predicate HasRecord(blob: Blob, pos: nat)
    requires pos <= |blob|
  {
    pos + 8 <= |blob| && pos + 8 + ReadLe32(blob, pos + 4) <= |blob|
  }

  function TypeAt(blob: Blob, pos: nat): u16
    requires pos <= |blob| && HasRecord(blob, pos)
  {
    ReadLe16(blob, pos)
  }

  function ValueAt(blob: Blob, pos: nat): (v: Blob)
    requires pos <= |blob| && HasRecord(blob, pos)
    ensures |v| < 0x1_0000_0000
  {
    blob[pos + 8..pos + 8 + ReadLe32(blob, pos + 4)]
  }

  /** Where the next record is looked for, after the padding. */
  function NextPos(blob: Blob, pos: nat): (p: nat)
    requires pos <= |blob| && HasRecord(blob, pos)
    ensures p >= pos + 8
  {
    pos + 8 + ReadLe32(blob, pos + 4) + Padding(ReadLe32(blob, pos + 4))
  }

  /** The record loop with the cursor at blob[pos..]. */
  function ParseFrom(blob: Blob, pos: nat, a: Acc): Outcome
    requires 28 <= pos <= |blob| && ViewOk(a.view)
    decreases |blob| - pos
  {
    if pos == |blob| then Finish(a)
    else if |blob| - pos < 8 then Rejected(BAKE_MISSING_TLV, 0)
    else if !HasRecord(blob, pos) then Rejected(BAKE_BAD_TLV_LEN, ReadLe32(blob, pos + 4))
    else
      match Take(blob, TypeAt(blob, pos), ValueAt(blob, pos), a)
      case Stop(out) => out
      case Go(next) => if NextPos(blob, pos) > |blob| then PastBlob else ParseFrom(blob, NextPos(blob, pos), next)
  }

  function EmptyAcc(bakeId: u32, profileId: u32, flags: u32): Acc {
    Acc(View(seq(TILE_COUNT, _ => ZeroTile()), NO_TOPOLOGY, NO_READOUT, 0, bakeId, profileId, flags, 0),
      false, false, false, false, false)
  }

  function Parse(blob: Blob): Outcome
    requires |blob| < 0x1_0000_0000
  {
    if |blob| < 28 then Rejected(BAKE_BAD_LEN, |blob|)
    else if blob[0] != 68 || blob[1] != 56 || blob[2] != 66 || blob[3] != 75 then Rejected(BAKE_BAD_MAGIC, 0)
    else if ReadLe16(blob, 4) != 2 then Rejected(BAKE_BAD_VERSION, ReadLe16(blob, 4))
    else if ReadLe32(blob, 12) != |blob| then Rejected(BAKE_BAD_LEN_TOTAL, ReadLe32(blob, 12))
    else if ReadLe32(blob, 24) != 0 then Rejected(BAKE_RESERVED_NON_ZERO, ReadLe32(blob, 24))
    else ParseFrom(blob, 28, EmptyAcc(ReadLe32(blob, 16), ReadLe32(blob, 20), ReadLe32(blob, 8)))
  }

  // ---------- Cursor safety ----------

  lemma NextIsAligned(blob: Blob, pos: nat)
    requires pos <= |blob| && pos % 4 == 0 && HasRecord(blob, pos)
    ensures NextPos(blob, pos) % 4 == 0
    ensures |blob| % 4 == 0 ==> NextPos(blob, pos) <= |blob|
  {
    hide ReadLe32, Padding;
    var len: int := ReadLe32(blob, pos + 4);
    PaddedInWords(len);
    InWords(pos / 4 + 2 + (len + 3) / 4, pos + 8 + len + Padding(len));
    WordsFit(pos + 8, len, |blob|);
  }

  /** On a blob whose size is a multiple of four the cursor never leaves the blob: at every record the bytes
      left are a multiple of four, so the padding is always there. */
  lemma {:induction false} CursorStaysInside(blob: Blob, pos: nat, a: Acc)
    requires 28 <= pos <= |blob| && ViewOk(a.view)
    requires |blob| % 4 == 0 && pos % 4 == 0
    ensures ParseFrom(blob, pos, a) != PastBlob
    decreases |blob| - pos
  {
    hide Take, Finish, HasRecord, TypeAt, ValueAt, NextPos;
    if pos < |blob| && HasRecord(blob, pos) {
      NextIsAligned(blob, pos);
      var step := Take(blob, TypeAt(blob, pos), ValueAt(blob, pos), a);
      if step.Go? {
        CursorStaysInside(blob, NextPos(blob, pos), step.acc);
      }
    }
  }

  lemma {:induction false} EndIsAligned(blob: Blob, pos: nat, a: Acc)
    requires 28 <= pos <= |blob| && ViewOk(a.view) && pos % 4 == 0
    requires ParseFrom(blob, pos, a).Accepted?
    ensures |blob| % 4 == 0
    decreases |blob| - pos
  {
    hide Take, Finish, HasRecord, TypeAt, ValueAt, NextPos;
    if pos < |blob| && HasRecord(blob, pos) {
      NextIsAligned(blob, pos);
      var step := Take(blob, TypeAt(blob, pos), ValueAt(blob, pos), a);
      if step.Go? {
        EndIsAligned(blob, NextPos(blob, pos), step.acc);
      }
    }
  }

  /** Cursor safety for whole blobs, and its converse: a blob whose size is not a multiple of four is never
      accepted. */
  lemma ParserAlignment(blob: Blob)
    requires |blob| < 0x1_0000_0000
    ensures |blob| % 4 == 0 ==> Parse(blob) != PastBlob
    ensures Parse(blob).Accepted? ==> |blob| % 4 == 0
  {
    hide ParseFrom;
    if 28 <= |blob| {
      var a := EmptyAcc(ReadLe32(blob, 16), ReadLe32(blob, 20), ReadLe32(blob, 8));
      if |blob| % 4 == 0 {
        CursorStaysInside(blob, 28, a);
      }
      if ParseFrom(blob, 28, a).Accepted? {
        EndIsAligned(blob, 28, a);
      }
    }
  }

  // ---------- What every accepted view satisfies ----------

  ghost predicate SaneTile(t: Tile) { t.domain < 16 && t.thrLo <= t.thrHi }

  /** A full table of tiles with nibble domains and no inverted range, and a known readout mode. */
  ghost predicate Sane(v: View) {
    ViewOk(v) && v.readout.mode <= 1 && forall t | 0 <= t < TILE_COUNT :: SaneTile(v.tiles[t])
  }

  /** The registers keep a sane view, and a topology seen has the contract's lanes and domains. */
  ghost predicate SaneAcc(a: Acc) {
    && Sane(a.view)
    && (a.topology ==> a.view.topo.lanes == 8 && a.view.topo.domains == 16 && a.view.topo.reserved == 0
                       && a.view.tileCount == a.view.topo.tileCount)
  }

  lemma DecodeKeepsSane(k: Kind, t: Tile, p: Blob)
    requires |p| == Size(k) && SaneTile(t) && !Bad(k, p)
    ensures SaneTile(Decode(k, t, p))
  {
    hide Bit, ReadLe16, DecodeMag, DecodeSign, DecodeParams, DecodeRouting, DecodeWeights;
    match k {
      case Params => DecodedParams(t, p);
      case Routing => DecodedOthers(t, p, ReadLe16(p, 0));
      case Weights => DecodedOthers(t, p, 0);
      case ResetMasks =>
    }
  }

  lemma DecodedParams(t: Tile, p: Blob)
    requires |p| == 13 && !Bad(Params, p)
    ensures SaneTile(DecodeParams(t, p))
  {
    hide ReadLe16;
  }

  lemma DecodedOthers(t: Tile, p: Blob, flags: u16)
    ensures |p| == 40 && SaneTile(t) ==> SaneTile(DecodeWeights(t, p))
    ensures SaneTile(t) ==> SaneTile(DecodeRouting(t, flags))
  {
    hide Bit, ReadLe16, DecodeMag, DecodeSign;
  }

  /** If no entry is the first refused one, none is refused. */
  lemma {:induction false} NoneBad(k: Kind, v: Blob, n: nat, t: nat)
    requires Size(k) * n <= |v| && FirstBad(k, v, n) == n && t < n
    ensures Size(k) * (t + 1) <= |v| && !Bad(k, Chunk(v, Size(k), t))
  {
    ChunkBelow(Size(k), t, n);
    ChunkFits(Size(k), n - 1);
    if t < n - 1 {
      NoneBad(k, v, n - 1, t);
    }
  }

  lemma TakeTilesKeepsSane(k: Kind, v: Blob, a: Acc)
    requires |v| < 0x1_0000_0000 && SaneAcc(a) && TakeTiles(k, v, a).Go?
    ensures SaneAcc(TakeTiles(k, v, a).acc)
  {
    hide Decode, FirstBad, Bad, SaneTile;
    var n := Min(a.view.tileCount, TILE_COUNT);
    forall t | 0 <= t < n
      ensures SaneTile(TakeTiles(k, v, a).acc.view.tiles[t])
    {
      Within(k, n, a.view.tileCount);
      NoneBad(k, v, n, t);
      ChunkFits(Size(k), t);
      DecodeKeepsSane(k, a.view.tiles[t], Chunk(v, Size(k), t));
    }
  }

  lemma TakeKeepsSane(blob: Blob, ty: u16, v: Blob, a: Acc)
    requires |v| < 0x1_0000_0000 && 12 <= |blob| && SaneAcc(a) && Take(blob, ty, v, a).Go?
    ensures SaneAcc(Take(blob, ty, v, a).acc)
  {
    hide TakeTiles, Crc32, SaneTile;
    if ty == TLV_TILE_PARAMS_V2 {
      TakeTilesKeepsSane(Params, v, a);
    } else if ty == TLV_TILE_ROUTING_FLAGS16 {
      TakeTilesKeepsSane(Routing, v, a);
    } else if ty == TLV_TILE_WEIGHTS_PACKED {
      TakeTilesKeepsSane(Weights, v, a);
    } else if ty == TLV_RESET_ON_FIRE_MASK16 {
      TakeTilesKeepsSane(ResetMasks, v, a);
    }
  }

  lemma {:induction false} ParseFromKeepsSane(blob: Blob, pos: nat, a: Acc)
    requires 28 <= pos <= |blob| && SaneAcc(a)
    requires ParseFrom(blob, pos, a).Accepted?
    ensures ParseFrom(blob, pos, a).view.topo.lanes == 8 && ParseFrom(blob, pos, a).view.topo.domains == 16
    ensures ParseFrom(blob, pos, a).view.tileCount == ParseFrom(blob, pos, a).view.topo.tileCount
    ensures Sane(ParseFrom(blob, pos, a).view)
    decreases |blob| - pos
  {
    hide Take, HasRecord, TypeAt, ValueAt, NextPos, SaneTile;
    if pos < |blob| {
      TakeKeepsSane(blob, TypeAt(blob, pos), ValueAt(blob, pos), a);
      ParseFromKeepsSane(blob, NextPos(blob, pos), Take(blob, TypeAt(blob, pos), ValueAt(blob, pos), a).acc);
    }
  }

  /** Whatever bytes the parser accepts, in whatever order its records come: magic, version, length and
      reserved word are right, lanes and domains are the contract's, the readout mode is known, and every
      tile has a nibble domain and an ordered range. */
  lemma AcceptedIsSane(blob: Blob)
    requires |blob| < 0x1_0000_0000 && Parse(blob).Accepted?
    ensures |blob| >= 28 && blob[..4] == [68, 56, 66, 75] && ReadLe16(blob, 4) == 2
    ensures ReadLe32(blob, 12) == |blob| && ReadLe32(blob, 24) == 0
    ensures Sane(Parse(blob).view) && Parse(blob).view.topo.lanes == 8 && Parse(blob).view.topo.domains == 16
    ensures Parse(blob).view.tileCount == Parse(blob).view.topo.tileCount
  {
    hide ParseFrom, ReadLe16, ReadLe32;
    var a := EmptyAcc(ReadLe32(blob, 16), ReadLe32(blob, 20), ReadLe32(blob, 8));
    assert SaneAcc(a);
    ParseFromKeepsSane(blob, 28, a);
  }
}
