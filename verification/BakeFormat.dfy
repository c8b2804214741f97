/** The records of a bake blob: what each one holds, its bytes, and how those bytes are read back. */
module BakeFormat {
  import opened Machine
  import opened Grid
  import opened Bytes

  datatype Topology = Topology(tileCount: u32, tileW: u16, tileH: u16, lanes: u8, domains: u8, reserved: u16, reserved2: u32)

  datatype Readout = Readout(mode: u8, reserved0: u8, winnerMask: u16, settleNs: u16, reserved1: u16, reserved2: u32)

  /** What the parser fills in. */
  datatype View = View(
    tiles: seq<Tile>, topo: Topology, readout: Readout, tileFieldLimit: u32,
    bakeId: u32, profileId: u32, flags: u32, tileCount: u32)

  datatype Code =
    | OK | NOT_BAKED | BAD_PHASE | BAD_INGRESS_LEVEL | BAKE_BAD_MAGIC | BAKE_BAD_VERSION | BAKE_BAD_LEN
    | BAKE_MISSING_TLV | BAKE_BAD_TLV_LEN | BAKE_CRC_FAIL | BAKE_RESERVED_NON_ZERO | TOPOLOGY_MISMATCH
    | BAKE_NO_BLOB | BAKE_BAD_LEN_TOTAL

  const TLV_TOPOLOGY: u16 := 0x0100
  const TLV_TILE_PARAMS_V2: u16 := 0x0121
  const TLV_TILE_ROUTING_FLAGS16: u16 := 0x0131
  const TLV_READOUT_POLICY: u16 := 0x0140
  const TLV_RESET_ON_FIRE_MASK16: u16 := 0x0150
  const TLV_TILE_WEIGHTS_PACKED: u16 := 0x0160
  const TLV_TILE_FIELD_LIMIT: u16 := 0x0170
  const TLV_CRC32: u16 := 0xFFFE

  const NO_TOPOLOGY: Topology := Topology(0, 0, 0, 0, 0, 0, 0)
  const NO_READOUT: Readout := Readout(0, 0, 0, 0, 0, 0)

  // ---------- Per-tile records ----------

  /** The four records that hold one fixed-size entry per tile. */
  datatype Kind = Params | Routing | Weights | ResetMasks

  function Size(k: Kind): nat {
    match k case Params => 13 case Routing => 2 case Weights => 40 case ResetMasks => 2
  }

  function TypeOf(k: Kind): u16 {
    match k
    case Params => TLV_TILE_PARAMS_V2
    case Routing => TLV_TILE_ROUTING_FLAGS16
    case Weights => TLV_TILE_WEIGHTS_PACKED
    case ResetMasks => TLV_RESET_ON_FIRE_MASK16
  }

  function RoutingBits(t: Tile): seq<bool> {
    [t.maskN, t.maskE, t.maskS, t.maskW, t.maskNE, t.maskSE, t.maskSW, t.maskNW, t.busR, t.busW]
  }

  function RoutingFlags(t: Tile): u16 {
    PackBitsBound(RoutingBits(t));
    Pow2Monotone(10, 16);
    Pow2Of16();
    PackBits(RoutingBits(t))
  }

  /** Two magnitudes in one byte, the even one in the low nibble. */
  function NibblePair(t: Tile, i: nat): u8
    requires i < 32
  {
    var lo: int, hi: int := t.mag[2 * i], t.mag[2 * i + 1];
    hi * 16 + lo
  }

  /** Eight signs in one byte, least significant first. */
  function SignByte(t: Tile, i: nat): u8
    requires i < 8
  {
    PackBitsBound(t.sign[8 * i..8 * i + 8]);
    Pow2Of16();
    PackBits(t.sign[8 * i..8 * i + 8])
  }

  function EncodeParams(t: Tile): Blob {
    Le16(Pattern(t.thrLo)) + Le16(Pattern(t.thrHi)) + Le16(t.decay) + [t.domain % 16, t.priority]
    + Le16(t.pattern) + Le16(t.resetMask) + [0]
  }

  function EncodeWeights(t: Tile): Blob {
    seq(32, i requires 0 <= i < 32 => NibblePair(t, i)) + seq(8, i requires 0 <= i < 8 => SignByte(t, i))
  }

  function Encode(k: Kind, t: Tile): (p: Blob)
    ensures |p| == Size(k)
  {
    match k
    case Params => EncodeParams(t)
    case Routing => Le16(RoutingFlags(t))
    case Weights => EncodeWeights(t)
    case ResetMasks => Le16(t.resetMask)
  }

  function DecodeParams(t: Tile, p: Blob): Tile
    requires |p| == 13
  {
    t.(thrLo := WrapI16(ReadLe16(p, 0)), thrHi := WrapI16(ReadLe16(p, 2)), decay := ReadLe16(p, 4),
       domain := p[6] % 16, priority := p[7], pattern := ReadLe16(p, 8), resetMask := 0)
  }

  function DecodeRouting(t: Tile, flags: u16): Tile {
    t.(maskN := Bit(flags, 0), maskE := Bit(flags, 1), maskS := Bit(flags, 2), maskW := Bit(flags, 3),
       maskNE := Bit(flags, 4), maskSE := Bit(flags, 5), maskSW := Bit(flags, 6), maskNW := Bit(flags, 7),
       busR := Bit(flags, 8), busW := Bit(flags, 9))
  }

  function DecodeMag(p: Blob, j: nat): Level
    requires |p| == 40 && j < 64
  {
    if j % 2 == 0 then p[j / 2] % 16 else p[j / 2] / 16
  }

  function DecodeSign(p: Blob, j: nat): bool
    requires |p| == 40 && j < 64
  {
    Bit(p[32 + j / 8], j % 8)
  }

  function DecodeWeights(t: Tile, p: Blob): Tile
    requires |p| == 40
  {
    t.(mag := seq(64, j requires 0 <= j < 64 => DecodeMag(p, j)),
       sign := seq(64, j requires 0 <= j < 64 => DecodeSign(p, j)))
  }

  /** The fields one entry sets on its tile; TILE_PARAMS also clears the reset mask. */
  function Decode(k: Kind, t: Tile, p: Blob): Tile
    requires |p| == Size(k)
  {
    match k
    case Params => DecodeParams(t, p)
    case Routing => DecodeRouting(t, ReadLe16(p, 0))
    case Weights => DecodeWeights(t, p)
    case ResetMasks => t.(resetMask := ReadLe16(p, 0))
  }

  /** The entries the parser refuses: an inverted range, or a reserved routing bit. */
  predicate Bad(k: Kind, p: Blob)
    requires |p| == Size(k)
  {
    match k
    case Params => WrapI16(ReadLe16(p, 0)) > WrapI16(ReadLe16(p, 2))
    case Routing => ReadLe16(p, 0) >= 0x400
    case _ => false
  }

  function CarryParams(to: Tile, from: Tile): Tile {
    to.(thrLo := from.thrLo, thrHi := from.thrHi, decay := from.decay, domain := from.domain % 16,
        priority := from.priority, pattern := from.pattern, resetMask := 0)
  }

  function CarryRouting(to: Tile, from: Tile): Tile {
    to.(maskN := from.maskN, maskE := from.maskE, maskS := from.maskS, maskW := from.maskW,
        maskNE := from.maskNE, maskSE := from.maskSE, maskSW := from.maskSW, maskNW := from.maskNW,
        busR := from.busR, busW := from.busW)
  }

  /** The fields one kind of entry carries, copied from one tile to another. */
  function Carry(k: Kind, to: Tile, from: Tile): Tile {
    match k
    case Params => CarryParams(to, from)
    case Routing => CarryRouting(to, from)
    case Weights => to.(mag := from.mag, sign := from.sign)
    case ResetMasks => to.(resetMask := from.resetMask)
  }

  lemma ParamsRoundTrip(to: Tile, from: Tile)
    ensures Decode(Params, to, Encode(Params, from)) == Carry(Params, to, from)
    ensures Bad(Params, Encode(Params, from)) <==> from.thrLo > from.thrHi
  {
    var p := EncodeParams(from);
    assert ReadLe16(p, 0) == ReadLe16(Le16(Pattern(from.thrLo)), 0);
    assert ReadLe16(p, 2) == ReadLe16(Le16(Pattern(from.thrHi)), 0);
    assert ReadLe16(p, 4) == ReadLe16(Le16(from.decay), 0);
    assert ReadLe16(p, 8) == ReadLe16(Le16(from.pattern), 0);
    SignedRoundTrip(from.thrLo);
    SignedRoundTrip(from.thrHi);
    Word16RoundTrip(Pattern(from.thrLo));
    Word16RoundTrip(Pattern(from.thrHi));
    Word16RoundTrip(from.decay);
    Word16RoundTrip(from.pattern);
  }

  lemma RoutingRoundTrip(to: Tile, from: Tile)
    ensures Decode(Routing, to, Encode(Routing, from)) == Carry(Routing, to, from)
    ensures !Bad(Routing, Encode(Routing, from))
  {
    hide Bit, PackBits;
    Word16RoundTrip(RoutingFlags(from));
    TenBits(RoutingBits(from));
    FlagsBelow(from);
  }

  lemma FlagsBelow(t: Tile)
    ensures RoutingFlags(t) < 0x400
  {
    hide PackBits;
    PackBitsBound(RoutingBits(t));
    assert Pow2(5) == 32;
    assert Pow2(10) == 0x400;
  }

  lemma TenBits(bits: seq<bool>)
    requires |bits| == 10
    ensures var f := PackBits(bits);
            && Bit(f, 0) == bits[0] && Bit(f, 1) == bits[1] && Bit(f, 2) == bits[2] && Bit(f, 3) == bits[3]
            && Bit(f, 4) == bits[4] && Bit(f, 5) == bits[5] && Bit(f, 6) == bits[6] && Bit(f, 7) == bits[7]
            && Bit(f, 8) == bits[8] && Bit(f, 9) == bits[9]
  {
    hide Bit, PackBits;
    forall k: nat | k < 10
      ensures Bit(PackBits(bits), k) == bits[k]
    {
      BitOfPack(bits, k);
    }
  }

  lemma MagRoundTrip(t: Tile, j: nat)
    requires j < 64
    ensures DecodeMag(EncodeWeights(t), j) == t.mag[j]
  {
    assert EncodeWeights(t)[j / 2] == NibblePair(t, j / 2);
  }

  lemma SignRoundTrip(t: Tile, j: nat)
    requires j < 64
    ensures DecodeSign(EncodeWeights(t), j) == t.sign[j]
  {
    var i := j / 8;
    assert EncodeWeights(t)[32 + i] == SignByte(t, i);
    BitOfPack(t.sign[8 * i..8 * i + 8], j % 8);
  }

  lemma WeightsRoundTrip(to: Tile, from: Tile)
    ensures Decode(Weights, to, Encode(Weights, from)) == Carry(Weights, to, from)
  {
    var r := DecodeWeights(to, EncodeWeights(from));
    forall j | 0 <= j < 64
      ensures r.mag[j] == from.mag[j] && r.sign[j] == from.sign[j]
    {
      MagRoundTrip(from, j);
      SignRoundTrip(from, j);
    }
    assert r.mag == from.mag && r.sign == from.sign;
  }

  /** Reading an encoded entry sets exactly the fields it carries, and it is refused only for an inverted
      range. */
  lemma EntryRoundTrip(k: Kind, to: Tile, from: Tile)
    ensures Decode(k, to, Encode(k, from)) == Carry(k, to, from)
    ensures Bad(k, Encode(k, from)) <==> k == Params && from.thrLo > from.thrHi
  {
    match k
    case Params => ParamsRoundTrip(to, from);
    case Routing => RoutingRoundTrip(to, from);
    case Weights => WeightsRoundTrip(to, from);
    case ResetMasks => Word16RoundTrip(from.resetMask);
  }

  // ---------- Lists of entries ----------

  function Entries(k: Kind, tiles: seq<Tile>): Blob {
    if tiles == [] then [] else Entries(k, tiles[..|tiles| - 1]) + Encode(k, tiles[|tiles| - 1])
  }

  lemma {:induction false} EntriesLength(k: Kind, tiles: seq<Tile>)
    ensures |Entries(k, tiles)| == Size(k) * |tiles|
  {
    if tiles != [] {
      EntriesLength(k, tiles[..|tiles| - 1]);
      ChunkFits(Size(k), |tiles| - 1);
    }
  }

  lemma EntriesSnoc(k: Kind, tiles: seq<Tile>, n: nat)
    requires n < |tiles|
    ensures Entries(k, tiles[..n + 1]) == Entries(k, tiles[..n]) + Encode(k, tiles[n])
  {
    assert tiles[..n + 1][..n] == tiles[..n];
  }

  /** Chunk t of the list is the encoding of tile t. */
  lemma {:induction false} EntryAt(k: Kind, tiles: seq<Tile>, t: nat)
    requires t < |tiles|
    ensures Size(k) * (t + 1) <= |Entries(k, tiles)|
    ensures Chunk(Entries(k, tiles), Size(k), t) == Encode(k, tiles[t])
  {
    var init := tiles[..|tiles| - 1];
    EntriesLength(k, tiles);
    EntriesLength(k, init);
    ChunkBelow(Size(k), t, |tiles|);
    ChunkFits(Size(k), t);
    if t < |tiles| - 1 {
      EntryAt(k, init, t);
      ChunkOfPrefix(Entries(k, init), Encode(k, tiles[|tiles| - 1]), Size(k), t);
    } else {
      ChunkAtEnd(Entries(k, init), Encode(k, tiles[t]), Size(k), t);
    }
  }

  lemma ChunkOfPrefix(s: Blob, more: Blob, size: nat, t: nat)
    requires size * (t + 1) <= |s|
    ensures Chunk(s + more, size, t) == Chunk(s, size, t)
  {
    ChunkFits(size, t);
  }

  lemma ChunkAtEnd(s: Blob, last: Blob, size: nat, t: nat)
    requires |s| == size * t && |last| == size
    ensures size * (t + 1) <= |s + last| && Chunk(s + last, size, t) == last
  {
    ChunkFits(size, t);
  }

  /** The first refused entry among the first n, or n. */
  function FirstBad(k: Kind, v: Blob, n: nat): (f: nat)
    requires Size(k) * n <= |v|
    ensures f <= n
  {
    if n == 0 then 0
    else
      ChunkFits(Size(k), n - 1);
      var f := FirstBad(k, v, n - 1);
      if f < n - 1 then f else if Bad(k, Chunk(v, Size(k), n - 1)) then n - 1 else n
  }

  function DecodeTiles(k: Kind, v: Blob, tiles: seq<Tile>, n: nat): (r: seq<Tile>)
    requires Size(k) * n <= |v| && n <= |tiles|
    ensures |r| == |tiles|
  {
    seq(|tiles|, t requires 0 <= t < |tiles| =>
      if t < n then (ChunkBelow(Size(k), t, n); ChunkFits(Size(k), t); Decode(k, tiles[t], Chunk(v, Size(k), t)))
      else tiles[t])
  }

  function CarryTiles(k: Kind, to: seq<Tile>, from: seq<Tile>, n: nat): (r: seq<Tile>)
    requires n <= |from| && n <= |to|
    ensures |r| == |to|
  {
    seq(|to|, t requires 0 <= t < |to| => if t < n then Carry(k, to[t], from[t]) else to[t])
  }

  function FirstInverted(tiles: seq<Tile>): (f: nat)
    ensures f <= |tiles|
  {
    if tiles == [] then 0
    else
      var f := FirstInverted(tiles[..|tiles| - 1]);
      if f < |tiles| - 1 then f
      else if tiles[|tiles| - 1].thrLo > tiles[|tiles| - 1].thrHi then |tiles| - 1 else |tiles|
  }

  /** Reading back a list of encoded entries. */
  lemma ListRoundTrip(k: Kind, to: seq<Tile>, from: seq<Tile>)
    requires |from| <= |to|
    ensures |Entries(k, from)| == Size(k) * |from|
    ensures DecodeTiles(k, Entries(k, from), to, |from|) == CarryTiles(k, to, from, |from|)
    ensures FirstBad(k, Entries(k, from), |from|) == if k == Params then FirstInverted(from) else |from|
  {
    EntriesLength(k, from);
    var v, n := Entries(k, from), |from|;
    forall t | 0 <= t < n
      ensures DecodeTiles(k, v, to, n)[t] == Carry(k, to[t], from[t])
    {
      EntryAt(k, from, t);
      EntryRoundTrip(k, to[t], from[t]);
    }
    FirstBadOfEntries(k, from);
  }

  lemma {:induction false} FirstBadOfEntries(k: Kind, from: seq<Tile>)
    ensures |Entries(k, from)| == Size(k) * |from|
    ensures FirstBad(k, Entries(k, from), |from|) == if k == Params then FirstInverted(from) else |from|
  {
    hide Encode, Bad, Decode, Carry, Chunk;
    EntriesLength(k, from);
    if from != [] {
      var n := |from| - 1;
      var init, last := from[..n], from[n];
      FirstBadOfEntries(k, init);
      ChunkFits(Size(k), n);
      FirstBadOfPrefix(k, Entries(k, init), Encode(k, last), n);
      EntryAt(k, from, n);
      EntryRoundTrip(k, last, last);
    }
  }

  lemma {:induction false} FirstBadOfPrefix(k: Kind, v: Blob, more: Blob, n: nat)
    requires Size(k) * n <= |v|
    ensures FirstBad(k, v + more, n) == FirstBad(k, v, n)
  {
    if n > 0 {
      ChunkFits(Size(k), n - 1);
      FirstBadOfPrefix(k, v, more, n - 1);
      ChunkOfPrefix(v, more, Size(k), n - 1);
    }
  }

  /** FirstInverted means what it says. */
  lemma {:induction false} NoneInverted(tiles: seq<Tile>)
    ensures FirstInverted(tiles) == |tiles| <==> forall t | 0 <= t < |tiles| :: tiles[t].thrLo <= tiles[t].thrHi
  {
    if tiles != [] {
      NoneInverted(tiles[..|tiles| - 1]);
    }
  }
}
