/** The parser's loops, proved against the functions of BakeParser. */
module BakeReader {
  import opened Machine
  import opened Grid
  import opened Bytes
  import opened BakeFormat
  import opened BakeParser
  import opened Crc

  lemma DecodeStep(k: Kind, v: Blob, tiles: seq<Tile>, t: nat)
    requires Size(k) * (t + 1) <= |v| && t < |tiles|
    ensures Size(k) * t <= |v|
    ensures DecodeTiles(k, v, tiles, t + 1)
            == DecodeTiles(k, v, tiles, t)[t := Decode(k, tiles[t], Chunk(v, Size(k), t))]
    ensures DecodeTiles(k, v, tiles, t)[t] == tiles[t]
  {
    hide Decode;
    ChunkFits(Size(k), t);
  }

  lemma DecodeNone(k: Kind, v: Blob, tiles: seq<Tile>)
    ensures DecodeTiles(k, v, tiles, 0) == tiles
  {
  }

  /** Once a refused entry is found, looking further does not change which one came first. */
  lemma {:induction false} FirstBadStays(k: Kind, v: Blob, t: nat, n: nat)
    requires t < n && Size(k) * n <= |v|
    ensures Size(k) * (t + 1) <= |v|
    ensures FirstBad(k, v, t + 1) == t ==> FirstBad(k, v, n) == t
  {
    ChunkBelow(Size(k), t, n);
    if t + 1 < n {
      ChunkFits(Size(k), n - 1);
      FirstBadStays(k, v, t, n - 1);
    }
  }

  /** Bookkeeping shared by the per-tile loops: entry t has been read into tile t. */
  lemma EntryRead(k: Kind, v: Blob, tiles: seq<Tile>, t: nat, n: nat)
    requires t < n && n <= |tiles| && Size(k) * n <= |v|
    ensures Size(k) * t <= Size(k) * (t + 1) <= |v|
    ensures DecodeTiles(k, v, tiles, t + 1)
            == DecodeTiles(k, v, tiles, t)[t := Decode(k, tiles[t], Chunk(v, Size(k), t))]
    ensures DecodeTiles(k, v, tiles, t)[t] == tiles[t]
    ensures FirstBad(k, v, t) == t && Bad(k, Chunk(v, Size(k), t)) ==> FirstBad(k, v, n) == t
    ensures FirstBad(k, v, t) == t && !Bad(k, Chunk(v, Size(k), t)) ==> FirstBad(k, v, t + 1) == t + 1
  {
    hide Decode, Bad, DecodeTiles;
    ChunkBelow(Size(k), t, n);
    ChunkFits(Size(k), t);
    DecodeStep(k, v, tiles, t);
    FirstBadStays(k, v, t, n);
  }

  method ParseTileParams(v: Blob, a: Acc) returns (r: Step)
    requires |v| < 0x1_0000_0000 && ViewOk(a.view) && a.topology
    ensures r == TakeTiles(Params, v, a)
  {
    hide Decode, DecodeTiles, FirstBad;
    var count := a.view.tileCount;
    if |v| != count * 13 {
      return Stop(Rejected(BAKE_BAD_TLV_LEN, |v|));
    }
    var tiles := a.view.tiles;
    StartOfEntries(Params, v, tiles);
    var t := 0;
    while t < count
      invariant t <= Min(count, TILE_COUNT)
      invariant FirstBad(Params, v, t) == t && tiles == DecodeTiles(Params, v, a.view.tiles, t)
    {
      if t == TILE_COUNT {
        return Stop(PastArrays);
      }
      EntryRead(Params, v, a.view.tiles, t, Min(count, TILE_COUNT));
      var p := v[13 * t..13 * (t + 1)];
      assert p == Chunk(v, Size(Params), t);
      tiles := tiles[t := DecodeParams(tiles[t], p)];
      ParamsDecoded(a.view.tiles[t], p);
      if tiles[t].thrLo > tiles[t].thrHi {
        return Stop(Rejected(BAKE_RESERVED_NON_ZERO, t));
      }
      t := t + 1;
    }
    r := Go(a.(view := a.view.(tiles := tiles), params := true));
  }

  lemma ParamsDecoded(t: Tile, p: Blob)
    requires |p| == 13
    ensures Decode(Params, t, p) == DecodeParams(t, p)
    ensures Bad(Params, p) <==> DecodeParams(t, p).thrLo > DecodeParams(t, p).thrHi
  {
  }

  lemma StartOfEntries(k: Kind, v: Blob, tiles: seq<Tile>)
    ensures Size(k) * 0 <= |v| && FirstBad(k, v, 0) == 0 && DecodeTiles(k, v, tiles, 0) == tiles
  {
    DecodeNone(k, v, tiles);
  }

  method ParseRoutingFlags(v: Blob, a: Acc) returns (r: Step)
    requires |v| < 0x1_0000_0000 && ViewOk(a.view) && a.topology
    ensures r == TakeTiles(Routing, v, a)
  {
    hide Decode, DecodeTiles, FirstBad, Bit;
    var count := a.view.tileCount;
    if |v| != count * 2 {
      return Stop(Rejected(BAKE_BAD_TLV_LEN, |v|));
    }
    var tiles := a.view.tiles;
    StartOfEntries(Routing, v, tiles);
    var t := 0;
    while t < count
      invariant t <= Min(count, TILE_COUNT)
      invariant FirstBad(Routing, v, t) == t && tiles == DecodeTiles(Routing, v, a.view.tiles, t)
    {
      if t == TILE_COUNT {
        return Stop(PastArrays);
      }
      EntryRead(Routing, v, a.view.tiles, t, Min(count, TILE_COUNT));
      var p := v[2 * t..2 * (t + 1)];
      assert p == Chunk(v, Size(Routing), t);
      var flags := ReadLe16(p, 0);
      RoutingDecoded(tiles[t], p);
      tiles := tiles[t := DecodeRouting(tiles[t], flags)];
      if flags >= 0x400 {
        return Stop(Rejected(BAKE_RESERVED_NON_ZERO, flags));
      }
      t := t + 1;
    }
    r := Go(a.(view := a.view.(tiles := tiles), routing := true));
  }

  lemma RoutingDecoded(t: Tile, p: Blob)
    requires |p| == 2
    ensures Decode(Routing, t, p) == DecodeRouting(t, ReadLe16(p, 0))
    ensures Bad(Routing, p) <==> ReadLe16(p, 0) >= 0x400
  {
  }

  /** Sixty-four nibbles, then sixty-four sign bits. */
  method UnpackWeights(p: Blob) returns (mag: seq<Level>, sign: seq<bool>)
    requires |p| == 40
    ensures |mag| == |sign| == 64
    ensures forall j | 0 <= j < 64 :: mag[j] == DecodeMag(p, j) && sign[j] == DecodeSign(p, j)
  {
    hide Bit;
    mag, sign := seq(64, _ => 0), seq(64, _ => false);
    var i := 0;
    while i < 32
      invariant 0 <= i <= 32 && |mag| == 64
      invariant forall j | 0 <= j < 2 * i :: mag[j] == DecodeMag(p, j)
    {
      var byte := p[i];
      mag := mag[2 * i := byte % 16];
      mag := mag[2 * i + 1 := byte / 16];
      i := i + 1;
    }
    i := 0;
    while i < 8
      invariant 0 <= i <= 8 && |sign| == 64
      invariant forall j | 0 <= j < 8 * i :: sign[j] == DecodeSign(p, j)
    {
      var byte := p[32 + i];
      var bit := 0;
      while bit < 8
        invariant 0 <= bit <= 8 && |sign| == 64
        invariant forall j | 0 <= j < 8 * i + bit :: sign[j] == DecodeSign(p, j)
      {
        assert (8 * i + bit) / 8 == i && (8 * i + bit) % 8 == bit;
        sign := sign[8 * i + bit := Bit(byte, bit)];
        bit := bit + 1;
      }
      i := i + 1;
    }
  }

  method ParseWeightsPacked(v: Blob, a: Acc) returns (r: Step)
    requires |v| < 0x1_0000_0000 && ViewOk(a.view) && a.topology
    ensures r == TakeTiles(Weights, v, a)
  {
    hide Decode, DecodeTiles, FirstBad, Bit;
    var count := a.view.tileCount;
    if |v| != count * 40 {
      return Stop(Rejected(BAKE_BAD_TLV_LEN, |v|));
    }
    var tiles := a.view.tiles;
    StartOfEntries(Weights, v, tiles);
    var t := 0;
    while t < count
      invariant t <= Min(count, TILE_COUNT)
      invariant FirstBad(Weights, v, t) == t && tiles == DecodeTiles(Weights, v, a.view.tiles, t)
    {
      if t == TILE_COUNT {
        return Stop(PastArrays);
      }
      EntryRead(Weights, v, a.view.tiles, t, Min(count, TILE_COUNT));
      var p := v[40 * t..40 * (t + 1)];
      assert p == Chunk(v, Size(Weights), t);
      var mag, sign := UnpackWeights(p);
      WeightsDecoded(tiles[t], p, mag, sign);
      tiles := tiles[t := tiles[t].(mag := mag, sign := sign)];
      t := t + 1;
    }
    r := Go(a.(view := a.view.(tiles := tiles), weights := true));
  }

  lemma WeightsDecoded(t: Tile, p: Blob, mag: seq<Level>, sign: seq<bool>)
    requires |p| == 40 && |mag| == |sign| == 64
    requires forall j | 0 <= j < 64 :: mag[j] == DecodeMag(p, j) && sign[j] == DecodeSign(p, j)
    ensures Decode(Weights, t, p) == t.(mag := mag, sign := sign) && !Bad(Weights, p)
  {
    hide DecodeMag, DecodeSign;
    assert DecodeWeights(t, p).mag == mag && DecodeWeights(t, p).sign == sign;
  }

  method ParseResetOnFire(v: Blob, a: Acc) returns (r: Step)
    requires |v| < 0x1_0000_0000 && ViewOk(a.view) && a.topology
    ensures r == TakeTiles(ResetMasks, v, a)
  {
    hide Decode, DecodeTiles, FirstBad;
    var count := a.view.tileCount;
    if |v| != count * 2 {
      return Stop(Rejected(BAKE_BAD_TLV_LEN, |v|));
    }
    var tiles := a.view.tiles;
    StartOfEntries(ResetMasks, v, tiles);
    var t := 0;
    while t < count
      invariant t <= Min(count, TILE_COUNT)
      invariant FirstBad(ResetMasks, v, t) == t && tiles == DecodeTiles(ResetMasks, v, a.view.tiles, t)
    {
      if t == TILE_COUNT {
        return Stop(PastArrays);
      }
      EntryRead(ResetMasks, v, a.view.tiles, t, Min(count, TILE_COUNT));
      var p := v[2 * t..2 * (t + 1)];
      assert p == Chunk(v, Size(ResetMasks), t);
      MaskDecoded(tiles[t], p);
      tiles := tiles[t := tiles[t].(resetMask := ReadLe16(p, 0))];
      t := t + 1;
    }
    r := Go(a.(view := a.view.(tiles := tiles)));
  }

  lemma MaskDecoded(t: Tile, p: Blob)
    requires |p| == 2
    ensures Decode(ResetMasks, t, p) == t.(resetMask := ReadLe16(p, 0)) && !Bad(ResetMasks, p)
  {
  }

  /** One turn of the record loop's switch. */
  method TakeRecord(blob: Blob, ty: u16, v: Blob, a: Acc) returns (r: Step)
    requires |v| < 0x1_0000_0000 && 12 <= |blob| && ViewOk(a.view)
    ensures r == Take(blob, ty, v, a)
  {
    hide TakeTiles, TakeTopology, TakeReadout, TakeLimit, Crc32;
    if ty == TLV_TOPOLOGY {
      r := TakeTopology(v, a);
    } else if ty == TLV_READOUT_POLICY {
      r := TakeReadout(v, a);
    } else if ty == TLV_TILE_FIELD_LIMIT {
      r := TakeLimit(v, a);
    } else if ty == TLV_CRC32 {
      if |v| != 4 {
        return Stop(Rejected(BAKE_BAD_TLV_LEN, |v|));
      }
      var stored := ReadLe32(v, 0);
      var computed := ComputeCrc32(blob[..|blob| - 12]);
      r := if stored != computed then Stop(Rejected(BAKE_CRC_FAIL, stored)) else Go(a.(crc := true));
    } else if ty in {TLV_TILE_PARAMS_V2, TLV_TILE_ROUTING_FLAGS16, TLV_TILE_WEIGHTS_PACKED, TLV_RESET_ON_FIRE_MASK16} {
      NeedsTopology(v, a);
      if !a.topology {
        return Stop(Rejected(BAKE_MISSING_TLV, 0));
      }
      if ty == TLV_TILE_PARAMS_V2 {
        r := ParseTileParams(v, a);
      } else if ty == TLV_TILE_ROUTING_FLAGS16 {
        r := ParseRoutingFlags(v, a);
      } else if ty == TLV_TILE_WEIGHTS_PACKED {
        r := ParseWeightsPacked(v, a);
      } else {
        r := ParseResetOnFire(v, a);
      }
    } else {
      r := Go(a);
    }
  }

  lemma NeedsTopology(v: Blob, a: Acc)
    requires |v| < 0x1_0000_0000 && ViewOk(a.view)
    ensures !a.topology ==> forall k: Kind :: TakeTiles(k, v, a) == Stop(Rejected(BAKE_MISSING_TLV, 0))
  {
  }

  /** d8_bake_parse_view: header checks, then the record loop. It computes Parse, it terminates on every
      blob, and cursor plus bytes left is the end of the blob throughout. */
  method ParseView(blob: Blob) returns (o: Outcome)
    requires |blob| < 0x1_0000_0000
    ensures o == Parse(blob)
  {
    hide Take, BakeParser.Finish;
    if |blob| < 28 {
      return Rejected(BAKE_BAD_LEN, |blob|);
    }
    if blob[0] != 68 || blob[1] != 56 || blob[2] != 66 || blob[3] != 75 {
      return Rejected(BAKE_BAD_MAGIC, 0);
    }
    if ReadLe16(blob, 4) != 2 {
      return Rejected(BAKE_BAD_VERSION, ReadLe16(blob, 4));
    }
    if ReadLe32(blob, 12) != |blob| {
      return Rejected(BAKE_BAD_LEN_TOTAL, ReadLe32(blob, 12));
    }
    if ReadLe32(blob, 24) != 0 {
      return Rejected(BAKE_RESERVED_NON_ZERO, ReadLe32(blob, 24));
    }
    o := ParseRecords(blob, EmptyAcc(ReadLe32(blob, 16), ReadLe32(blob, 20), ReadLe32(blob, 8)));
  }

  method ParseRecords(blob: Blob, start: Acc) returns (o: Outcome)
    requires 28 <= |blob| < 0x1_0000_0000 && ViewOk(start.view)
    ensures o == ParseFrom(blob, 28, start)
  {
    hide Take, BakeParser.Finish;
    var a := start;
    var cursor, remaining := 28, |blob| - 28;
    while remaining > 0
      invariant 28 <= cursor && 0 <= remaining && cursor + remaining == |blob| && ViewOk(a.view)
      invariant ParseFrom(blob, cursor, a) == ParseFrom(blob, 28, start)
      decreases remaining
    {
      if remaining < 8 {
        return Rejected(BAKE_MISSING_TLV, 0);
      }
      var ty, len := ReadLe16(blob, cursor), ReadLe32(blob, cursor + 4);
      if len > remaining - 8 {
        return Rejected(BAKE_BAD_TLV_LEN, len);
      }
      assert HasRecord(blob, cursor);
      var step := TakeRecord(blob, ty, blob[cursor + 8..cursor + 8 + len], a);
      if step.Stop? {
        return step.out;
      }
      a := step.acc;
      var padding := (4 - len % 4) % 4;
      if remaining - 8 - len < padding {
        return PastBlob;
      }
      cursor := cursor + 8 + len + padding;
      remaining := remaining - 8 - len - padding;
    }
    o := BakeParser.Finish(a);
  }
}
