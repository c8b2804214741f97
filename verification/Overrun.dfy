/** When the parser leaves its memory: the blob with its cursor, or the view with its entries. */
module Overrun {
  import opened Machine
  import opened Bytes
  import opened BakeFormat
  import opened BakeParser
  import opened BakeWriter

  /** Types the parser skips. */
  predicate Unknown(ty: u16) {
    ty !in {TLV_TOPOLOGY, TLV_TILE_PARAMS_V2, TLV_TILE_ROUTING_FLAGS16, TLV_READOUT_POLICY,
            TLV_RESET_ON_FIRE_MASK16, TLV_TILE_WEIGHTS_PACKED, TLV_TILE_FIELD_LIMIT, TLV_CRC32}
  }

  /** A record of unknown type only moves the cursor. */
  lemma Skip(blob: Blob, pos: nat, a: Acc)
    requires 28 <= pos <= |blob| && ViewOk(a.view) && HasRecord(blob, pos) && Unknown(TypeAt(blob, pos))
    ensures ParseFrom(blob, pos, a) ==
            if NextPos(blob, pos) > |blob| then PastBlob else ParseFrom(blob, NextPos(blob, pos), a)
  {
    hide TakeTopology, TakeTiles, TakeReadout, TakeLimit, TakeCrc, ReadLe16, ReadLe32;
  }

  /** Record r stands at pos, without regard to padding. */
  ghost predicate Stands(blob: Blob, pos: nat, r: Record) {
    pos + 8 + |r.value| <= |blob| && blob[pos..pos + 8 + |r.value|] == Bare(r)
  }

  /** The parser's step over a record, written with padding or not. */
  lemma StepOver(blob: Blob, pos: nat, r: Record, a: Acc)
    requires 28 <= pos && ViewOk(a.view) && Stands(blob, pos, r)
    ensures ParseFrom(blob, pos, a) ==
            match Take(blob, r.ty, r.value, a)
            case Stop(out) => out
            case Go(next) =>
              var p := pos + 8 + |r.value| + Padding(|r.value|);
              if p > |blob| then PastBlob else ParseFrom(blob, p, next)
  {
    hide Take, Bare, HasRecord, TypeAt, ValueAt, NextPos;
    RecordAt(blob, pos, r);
  }

  lemma HeaderRead(blob: Blob, head: Blob, bakeId: u32, profileId: u32, flags: u32)
    requires 28 <= |blob| < 0x1_0000_0000 && head == Header(|blob|, bakeId, profileId, flags) && blob[..28] == head
    ensures Parse(blob) == ParseFrom(blob, 28, EmptyAcc(bakeId, profileId, flags))
  {
    hide Header, ParseFrom, EmptyAcc, ReadLe16, ReadLe32;
    HeaderFields(|blob|, bakeId, profileId, flags, blob[28..]);
    assert blob == head + blob[28..];
  }

  // ---------- Sizes ----------

  /** A well-formed header and one record of unknown type that fills the rest. */
  function OneRecord(n: u32): (b: Blob)
    requires 36 <= n
    ensures |b| == n
  {
    Header(n, 0, 0, 0) + Tlv(7, Zeros(n - 36))
  }

  lemma OneRecordOverruns(n: u32)
    requires 36 <= n && n % 4 != 0
    ensures Parse(OneRecord(n)) == PastBlob
  {
    hide Parse, Header, Tlv, ParseFrom, Zeros, EmptyAcc, Take, Padding;
    var b, r, a := OneRecord(n), Record(7, Zeros(n - 36)), EmptyAcc(0, 0, 0);
    HeaderRead(b, Header(n, 0, 0, 0), 0, 0, 0);
    assert b[28..28 + 8 + |r.value|] == Bare(r);
    EmptyView(0, 0, 0);
    StepOver(b, 28, r, a);
    TakesUnknown(b, 7, r.value, a);
    NoGapLeft(n);
  }

  lemma EmptyView(bakeId: u32, profileId: u32, flags: u32)
    ensures ViewOk(EmptyAcc(bakeId, profileId, flags).view) && !EmptyAcc(bakeId, profileId, flags).crc
  {
  }

  lemma TakesUnknown(blob: Blob, ty: u16, v: Blob, a: Acc)
    requires |v| < 0x1_0000_0000 && 12 <= |blob| && ViewOk(a.view) && Unknown(ty)
    ensures Take(blob, ty, v, a) == Go(a)
  {
    hide TakeTopology, TakeTiles, TakeReadout, TakeLimit, TakeCrc;
  }

  lemma NoGapLeft(n: nat)
    requires 36 <= n && n % 4 != 0
    ensures Padding(n - 36) > 0
  {
  }

  /** Cursor safety by size: the parser stays inside every blob of n bytes exactly when n is a multiple of four, or too
      small for a record with a value. */
  lemma CursorSafeExactly(n: u32)
    ensures (forall b: Blob | |b| == n :: Parse(b) != PastBlob) <==> n % 4 == 0 || n < 37
  {
    hide Parse;
    if n % 4 == 0 {
      forall b: Blob | |b| == n
        ensures Parse(b) != PastBlob
      {
        ParserAlignment(b);
      }
    } else if n < 37 {
      forall b: Blob | |b| == n
        ensures Parse(b) != PastBlob
      {
        TooSmall(b);
      }
    } else {
      OneRecordOverruns(n);
    }
  }

  lemma TooSmall(b: Blob)
    requires |b| < 36
    ensures Parse(b) != PastBlob
  {
  }

  // ---------- Tables ----------

  /** From pos on, every topology record names at most as many tiles as the view holds. */
  predicate SmallTables(blob: Blob, pos: nat)
    requires pos <= |blob|
    decreases |blob| - pos
  {
    HasRecord(blob, pos) ==>
      && (TypeAt(blob, pos) == TLV_TOPOLOGY && |ValueAt(blob, pos)| == 16 ==>
            ReadTopology(ValueAt(blob, pos)).tileCount <= TILE_COUNT)
      && (NextPos(blob, pos) <= |blob| ==> SmallTables(blob, NextPos(blob, pos)))
  }

  /** What a record does to the tile count, and when it names too many tiles for the arrays. */
  lemma TakeAndCount(blob: Blob, ty: u16, v: Blob, a: Acc)
    requires |v| < 0x1_0000_0000 && 12 <= |blob| && ViewOk(a.view)
    ensures var step := Take(blob, ty, v, a);
            && (step == Stop(PastArrays) ==> a.topology && a.view.tileCount > TILE_COUNT && |v| >= 2 * a.view.tileCount)
            && (step.Go? && ty == TLV_TOPOLOGY ==> |v| == 16 && step.acc.view.tileCount == ReadTopology(v).tileCount)
            && (step.Go? && ty != TLV_TOPOLOGY ==>
                  step.acc.view.tileCount == a.view.tileCount && step.acc.topology == a.topology)
  {
    hide FirstBad, DecodeTiles, ReadTopology, Crc.Crc32;
  }

  /** Then the parser never writes outside the view. */
  lemma {:induction false} SmallTablesFit(blob: Blob, pos: nat, a: Acc)
    requires 28 <= pos <= |blob| && ViewOk(a.view) && SmallTables(blob, pos) && a.view.tileCount <= TILE_COUNT
    ensures ParseFrom(blob, pos, a) != PastArrays
    decreases |blob| - pos
  {
    hide Take, HasRecord, TypeAt, ValueAt, NextPos, ReadTopology;
    if pos < |blob| && HasRecord(blob, pos) {
      TakeAndCount(blob, TypeAt(blob, pos), ValueAt(blob, pos), a);
      var step := Take(blob, TypeAt(blob, pos), ValueAt(blob, pos), a);
      if step.Go? && NextPos(blob, pos) <= |blob| {
        SmallTablesFit(blob, NextPos(blob, pos), step.acc);
      }
    }
  }

  /** Overrunning the arrays takes a topology record and two bytes for each of 4097 tiles. */
  lemma {:induction false} OverrunTakesRoom(blob: Blob, pos: nat, a: Acc)
    requires 28 <= pos <= |blob| && ViewOk(a.view) && ParseFrom(blob, pos, a) == PastArrays
    ensures |blob| >= pos + 8 + 2 * (TILE_COUNT + 1) + if a.topology then 0 else 24
    decreases |blob| - pos
  {
    hide Take, HasRecord, TypeAt, ValueAt, NextPos, ReadTopology, BakeParser.Finish;
    assert BakeParser.Finish(a) != PastArrays;
    if pos < |blob| && HasRecord(blob, pos) {
      TakeAndCount(blob, TypeAt(blob, pos), ValueAt(blob, pos), a);
      RecordRoom(blob, pos);
      var step := Take(blob, TypeAt(blob, pos), ValueAt(blob, pos), a);
      if step.Go? {
        OverrunTakesRoom(blob, NextPos(blob, pos), step.acc);
      }
    }
  }

  lemma RecordRoom(blob: Blob, pos: nat)
    requires pos <= |blob| && HasRecord(blob, pos)
    ensures pos + 8 + |ValueAt(blob, pos)| <= |blob| && NextPos(blob, pos) >= pos + 8 + |ValueAt(blob, pos)|
  {
  }

  /** A topology of 4097 tiles, and a reset mask for each of them. */
  function BigTable(n: u32): (b: Blob)
    requires 8254 <= n
    ensures |b| == n
  {
    Header(n, 0, 0, 0) + Tlv(TLV_TOPOLOGY, TopologyBytes(4097, 1, 1, 8, 16, 0))
    + Tlv(TLV_RESET_ON_FIRE_MASK16, Zeros(8194)) + Zeros(n - 8254)
  }

  lemma BigTableOverruns(n: u32)
    requires 8254 <= n
    ensures Parse(BigTable(n)) == PastArrays
  {
    hide Parse, Header, Tlv, ParseFrom, Take, Zeros, EmptyAcc, TopologyBytes, Padding;
    var b, a := BigTable(n), EmptyAcc(0, 0, 0);
    var topo, masks := Record(TLV_TOPOLOGY, TopologyBytes(4097, 1, 1, 8, 16, 0)), Record(TLV_RESET_ON_FIRE_MASK16, Zeros(8194));
    TopologyRoundTrip(4097, 1, 1, 8, 16, 0);
    HeaderRead(b, Header(n, 0, 0, 0), 0, 0, 0);
    BigTableRecords(n, b, topo, masks);
    EmptyView(0, 0, 0);
    TakesBigTable(b, a, topo.value, masks.value);
    StepOver(b, 28, topo, a);
    StepOver(b, 52, masks, Take(b, TLV_TOPOLOGY, topo.value, a).acc);
  }

  lemma BigTableRecords(n: u32, b: Blob, topo: Record, masks: Record)
    requires 8254 <= n && b == Header(n, 0, 0, 0) + Bare(topo) + Bare(masks) + Zeros(n - 8254)
    requires |topo.value| == 16 && |masks.value| == 8194
    ensures Stands(b, 28, topo) && Stands(b, 52, masks)
  {
    hide Header, Bare, Zeros;
    assert b[28..52] == Bare(topo);
    assert b[52..8254] == Bare(masks);
  }

  lemma TakesBigTable(b: Blob, a: Acc, topo: Blob, masks: Blob)
    requires 12 <= |b| && ViewOk(a.view) && |topo| == 16 && |masks| == 8194
    requires ReadTopology(topo) == Topology(4097, 1, 1, 8, 16, 0, 0)
    ensures Padding(16) == 0
    ensures var step := Take(b, TLV_TOPOLOGY, topo, a);
            step.Go? && Take(b, TLV_RESET_ON_FIRE_MASK16, masks, step.acc) == Stop(PastArrays)
  {
    hide ReadTopology, FirstBad;
    MasksAreGood(masks, TILE_COUNT);
  }

  lemma {:induction false} MasksAreGood(v: Blob, n: nat)
    requires 2 * n <= |v|
    ensures FirstBad(ResetMasks, v, n) == n
  {
    if n > 0 {
      MasksAreGood(v, n - 1);
    }
  }

  /** Table safety by size: the parser keeps to the view's arrays on every blob of n bytes exactly when n is below
      8254. */
  lemma ArraysSafeExactly(n: u32)
    ensures (forall b: Blob | |b| == n :: Parse(b) != PastArrays) <==> n < 8254
  {
    hide Parse;
    if n < 8254 {
      forall b: Blob | |b| == n
        ensures Parse(b) != PastArrays
      {
        NoRoom(b);
      }
    } else {
      BigTableOverruns(n);
    }
  }

  lemma NoRoom(b: Blob)
    requires |b| < 8254
    ensures Parse(b) != PastArrays
  {
    hide ParseFrom;
    if 28 <= |b| {
      var a := EmptyAcc(ReadLe32(b, 16), ReadLe32(b, 20), ReadLe32(b, 8));
      if ParseFrom(b, 28, a) == PastArrays {
        OverrunTakesRoom(b, 28, a);
      }
    }
  }
}
