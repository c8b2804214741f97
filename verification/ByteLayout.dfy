/** The bake format in literal bytes: where every field stands, in both directions, and which verdict the parser gives to
    which bytes. */
module ByteLayout {
  import opened Machine
  import opened Grid
  import opened Bytes
  import opened BakeFormat
  import opened BakeParser
  import opened BlobBuffer

  // ---------- Entries as they are written ----------

  function Digit(b: bool): int { if b then 1 else 0 }

  /** A signed word as its 16-bit pattern. */
  function Unsigned(x: i16): int { if x < 0 then x + 65536 else x }

  function Word4(b0: int, b1: int, b2: int, b3: int): int { b0 + 256 * b1 + 65536 * b2 + 16777216 * b3 }

  function Word2(low: int, high: int): int { low + 256 * high }

  lemma WordBytes(v: u16, w: u32)
    ensures Le16(v) == [v % 256, v / 256]
    ensures var s := Le32(w); |s| == 4 && Word4(s[0], s[1], s[2], s[3]) == w
  {
    hide ReadLe32;
    Word32RoundTrip(w);
    LowFirst(Le32(w), 0);
  }

  lemma LowFirst(s: Blob, i: nat)
    ensures i + 2 <= |s| ==> ReadLe16(s, i) == Word2(s[i], s[i + 1])
    ensures i + 4 <= |s| ==> ReadLe32(s, i) == Word4(s[i], s[i + 1], s[i + 2], s[i + 3])
  {
  }

  /** Thirteen bytes of parameters. */
  lemma ParamsBytes(t: Tile)
    ensures Encode(Params, t) ==
            [Unsigned(t.thrLo) % 256, Unsigned(t.thrLo) / 256, Unsigned(t.thrHi) % 256, Unsigned(t.thrHi) / 256,
             t.decay % 256, t.decay / 256, t.domain % 16, t.priority,
             t.pattern % 256, t.pattern / 256, t.resetMask % 256, t.resetMask / 256, 0]
  {
    assert Pattern(t.thrLo) == Unsigned(t.thrLo) && Pattern(t.thrHi) == Unsigned(t.thrHi);
  }

  /** Two bytes of routing flags. */
  lemma RoutingBytes(t: Tile)
    ensures Encode(Routing, t) ==
            [Digit(t.maskN) + 2 * Digit(t.maskE) + 4 * Digit(t.maskS) + 8 * Digit(t.maskW)
             + 16 * Digit(t.maskNE) + 32 * Digit(t.maskSE) + 64 * Digit(t.maskSW) + 128 * Digit(t.maskNW),
             Digit(t.busR) + 2 * Digit(t.busW)]
  {
    hide RoutingFlags, Digit;
    FlagsInDigits(t);
    DigitRange();
    var low := Digit(t.maskN) + 2 * Digit(t.maskE) + 4 * Digit(t.maskS) + 8 * Digit(t.maskW)
               + 16 * Digit(t.maskNE) + 32 * Digit(t.maskSE) + 64 * Digit(t.maskSW) + 128 * Digit(t.maskNW);
    var high := Digit(t.busR) + 2 * Digit(t.busW);
    TwoBytes(low, high);
  }

  lemma DigitRange()
    ensures forall b: bool :: 0 <= Digit(b) <= 1
  {
  }

  lemma FlagsInDigits(t: Tile)
    ensures RoutingFlags(t) ==
            Digit(t.maskN) + 2 * Digit(t.maskE) + 4 * Digit(t.maskS) + 8 * Digit(t.maskW)
            + 16 * Digit(t.maskNE) + 32 * Digit(t.maskSE) + 64 * Digit(t.maskSW) + 128 * Digit(t.maskNW)
            + 256 * (Digit(t.busR) + 2 * Digit(t.busW))
  {
    hide RoutingFlags;
    FlagsSum(t);
  }

  lemma TwoBytes(low: int, high: int)
    requires 0 <= low < 256 && 0 <= high
    ensures (low + 256 * high) % 256 == low && (low + 256 * high) / 256 == high
  {
  }

  /** Thirty-two bytes of magnitudes, the even one in the low nibble, and eight bytes of signs, the first one lowest. */
  lemma WeightBytes(t: Tile, i: nat)
    requires i < 32
    ensures Encode(Weights, t)[i] as int == (t.mag[2 * i] as int) + 16 * (t.mag[2 * i + 1] as int)
    ensures i < 8 ==> Encode(Weights, t)[32 + i] == EightDigits(t.sign[8 * i..8 * i + 8])
  {
    hide PackBits;
    assert EncodeWeights(t)[i] == NibblePair(t, i);
    if i < 8 {
      assert EncodeWeights(t)[32 + i] == SignByte(t, i);
      EightSigns(t.sign[8 * i..8 * i + 8]);
    }
  }

  /** Eight bits as a byte, the first one lowest. */
  function EightDigits(bs: seq<bool>): int
    requires |bs| == 8
  {
    Digit(bs[0]) + 2 * Digit(bs[1]) + 4 * Digit(bs[2]) + 8 * Digit(bs[3])
    + 16 * Digit(bs[4]) + 32 * Digit(bs[5]) + 64 * Digit(bs[6]) + 128 * Digit(bs[7])
  }

  lemma EightSigns(bs: seq<bool>)
    requires |bs| == 8
    ensures PackBits(bs) == EightDigits(bs)
  {
    hide PackBits, Digit;
    var tail := [bs[5], bs[6], bs[7]];
    assert forall b: bool :: Digit(b) == if b then 1 else 0 by {
      DigitIs();
    }
    PackFive(bs[0], bs[1], bs[2], bs[3], bs[4], tail);
    assert bs == [bs[0], bs[1], bs[2], bs[3], bs[4]] + tail;
    ThreeSigns(bs[5], bs[6], bs[7]);
  }

  lemma DigitIs()
    ensures forall b: bool :: Digit(b) == if b then 1 else 0
  {
  }

  lemma ThreeSigns(a: bool, b: bool, c: bool)
    ensures PackBits([a, b, c]) == Digit(a) + 2 * Digit(b) + 4 * Digit(c)
  {
    hide PackBits;
    PackCons(a, [b, c]);
    assert [a] + [b, c] == [a, b, c];
    PackCons(b, [c]);
    assert [b] + [c] == [b, c];
    PackCons(c, []);
    assert [c] + [] == [c];
    PackNothing();
  }

  lemma MaskBytes(t: Tile)
    ensures Encode(ResetMasks, t) == [t.resetMask % 256, t.resetMask / 256]
  {
  }

  // ---------- Entries as they are read ----------

  function Signed(low: int, high: int): int { if high >= 128 then Word2(low, high) - 65536 else Word2(low, high) }

  lemma ParamsFields(t: Tile, p: Blob)
    requires |p| == 13
    ensures -0x8000 <= Signed(p[0], p[1]) < 0x8000 && -0x8000 <= Signed(p[2], p[3]) < 0x8000
    ensures Decode(Params, t, p) ==
            t.(thrLo := Signed(p[0], p[1]), thrHi := Signed(p[2], p[3]), decay := Word2(p[4], p[5]),
               domain := p[6] % 16, priority := p[7], pattern := Word2(p[8], p[9]), resetMask := 0)
    ensures Bad(Params, p) <==> Signed(p[0], p[1]) > Signed(p[2], p[3])
  {
    hide ReadLe16, Word2, Signed, WrapI16;
    SignedIsCast(p[0], p[1]);
    SignedIsCast(p[2], p[3]);
    LowFirst(p, 0);
    LowFirst(p, 2);
    LowFirst(p, 4);
    LowFirst(p, 8);
  }

  lemma SignedIsCast(low: u8, high: u8)
    ensures WrapI16(Word2(low, high)) == Signed(low, high)
  {
  }

  lemma RoutingFields(t: Tile, p: Blob)
    requires |p| == 2
    ensures Decode(Routing, t, p) ==
            t.(maskN := p[0] % 2 == 1, maskE := p[0] / 2 % 2 == 1, maskS := p[0] / 4 % 2 == 1, maskW := p[0] / 8 % 2 == 1,
               maskNE := p[0] / 16 % 2 == 1, maskSE := p[0] / 32 % 2 == 1, maskSW := p[0] / 64 % 2 == 1,
               maskNW := p[0] / 128 % 2 == 1, busR := p[1] % 2 == 1, busW := p[1] / 2 % 2 == 1)
    ensures Bad(Routing, p) <==> p[1] >= 4
  {
    hide Bit, ReadLe16;
    LowFirst(p, 0);
    var f := ReadLe16(p, 0);
    LowBit(p[0], p[1], 0, 1);
    LowBit(p[0], p[1], 1, 2);
    LowBit(p[0], p[1], 2, 4);
    LowBit(p[0], p[1], 3, 8);
    LowBit(p[0], p[1], 4, 16);
    LowBit(p[0], p[1], 5, 32);
    LowBit(p[0], p[1], 6, 64);
    LowBit(p[0], p[1], 7, 128);
    HighBit(p[0], p[1], 0, 1);
    HighBit(p[0], p[1], 1, 2);
  }

  lemma LowBit(low: u8, high: u8, k: nat, p: nat)
    requires k < 8 && p == Pow2(k)
    ensures Bit(low as int + 256 * high, k) <==> low / p % 2 == 1
  {
    hide Bit, Pow2;
    BitIsQuotient(low as int + 256 * high, k);
    EightPowers(k);
    LowQuotient(low, high, p);
  }

  lemma EightPowers(k: nat)
    requires k < 8
    ensures Pow2(k) in {1, 2, 4, 8, 16, 32, 64, 128}
  {
    assert Pow2(1) == 2 && Pow2(2) == 4 && Pow2(3) == 8 && Pow2(4) == 16;
    assert Pow2(5) == 32 && Pow2(6) == 64 && Pow2(7) == 128;
  }

  lemma LowQuotient(low: int, high: int, p: nat)
    requires 0 <= low < 256 && 0 <= high && p in {1, 2, 4, 8, 16, 32, 64, 128}
    ensures (low + 256 * high) / p % 2 == low / p % 2
  {
    var m: nat := if p == 1 then 128 else if p == 2 then 64 else if p == 4 then 32 else if p == 8 then 16
                  else if p == 16 then 8 else if p == 32 then 4 else if p == 64 then 2 else 1;
    EvenQuotient(low, high, p, m);
  }

  lemma EvenQuotient(low: int, high: int, p: nat, m: nat)
    requires 0 <= low && 0 <= high && 0 < p && m * p == 128
    ensures (low + 256 * high) / p % 2 == low / p % 2
  {
    var q, r, e := low / p, low % p, m * high;
    assert low == q * p + r;
    assert e * p == 128 * high by {
      assert e * p == high * (m * p);
    }
    assert (q + 2 * e) * p == q * p + 2 * (e * p);
    Quotient(low + 256 * high, p, q + 2 * e, r);
    SameParity(q, e);
  }

  lemma SameParity(q: int, e: int)
    ensures (q + 2 * e) % 2 == q % 2
  {
  }

  lemma HighBit(low: u8, high: u8, k: nat, p: nat)
    requires k < 8 && p == Pow2(k)
    ensures Bit(low as int + 256 * high, 8 + k) <==> high / p % 2 == 1
  {
    hide Bit;
    EightHalves(low, high, k);
    BitIsQuotient(high, k);
  }

  lemma EightHalves(low: u8, high: u8, k: nat)
    ensures Bit(low as int + 256 * high, 8 + k) == Bit(high, k)
  {
    var m := low as int + 256 * high;
    assert m / 2 / 2 / 2 / 2 / 2 / 2 / 2 / 2 == high;
    assert Bit(m, 8 + k) == Bit(m / 2 / 2, 6 + k);
    assert Bit(m / 2 / 2, 6 + k) == Bit(m / 2 / 2 / 2 / 2, 4 + k);
    assert Bit(m / 2 / 2 / 2 / 2, 4 + k) == Bit(m / 2 / 2 / 2 / 2 / 2 / 2, 2 + k);
    assert Bit(m / 2 / 2 / 2 / 2 / 2 / 2, 2 + k) == Bit(m / 2 / 2 / 2 / 2 / 2 / 2 / 2 / 2, k);
  }

  lemma WeightFields(t: Tile, p: Blob, i: nat, k: nat)
    requires |p| == 40 && i < 32 && k < 8
    ensures Decode(Weights, t, p).mag[2 * i] == p[i] % 16 && Decode(Weights, t, p).mag[2 * i + 1] == p[i] / 16
    ensures i < 8 ==> (Decode(Weights, t, p).sign[8 * i + k] <==> p[32 + i] / Pow2(k) % 2 == 1)
    ensures Decode(Weights, t, p) == t.(mag := Decode(Weights, t, p).mag, sign := Decode(Weights, t, p).sign)
    ensures !Bad(Weights, p)
  {
    hide Bit, Pow2;
    if i < 8 {
      BitIsQuotient(p[32 + i], k);
      SignPlace(p, i, k);
    }
  }

  lemma SignPlace(p: Blob, i: nat, k: nat)
    requires |p| == 40 && i < 8 && k < 8
    ensures DecodeSign(p, 8 * i + k) == Bit(p[32 + i], k)
  {
    hide Bit;
    assert (8 * i + k) / 8 == i && (8 * i + k) % 8 == k;
  }

  lemma MaskFields(t: Tile, p: Blob)
    requires |p| == 2
    ensures Decode(ResetMasks, t, p) == t.(resetMask := Word2(p[0], p[1])) && !Bad(ResetMasks, p)
  {
    LowFirst(p, 0);
  }

  // ---------- Which record is which ----------

  /** The eight record types by their numbers; every other one is skipped. */
  lemma RecordTypes(blob: Blob, ty: u16, v: Blob, a: Acc)
    requires |v| < 0x1_0000_0000 && 12 <= |blob| && ViewOk(a.view)
    ensures ty == 0x0100 ==> Take(blob, ty, v, a) == TakeTopology(v, a)
    ensures ty == 0x0121 ==> Take(blob, ty, v, a) == TakeTiles(Params, v, a)
    ensures ty == 0x0131 ==> Take(blob, ty, v, a) == TakeTiles(Routing, v, a)
    ensures ty == 0x0140 ==> Take(blob, ty, v, a) == TakeReadout(v, a)
    ensures ty == 0x0150 ==> Take(blob, ty, v, a) == TakeTiles(ResetMasks, v, a)
    ensures ty == 0x0160 ==> Take(blob, ty, v, a) == TakeTiles(Weights, v, a)
    ensures ty == 0x0170 ==> Take(blob, ty, v, a) == TakeLimit(v, a)
    ensures ty == 0xFFFE ==> Take(blob, ty, v, a) == TakeCrc(blob, v, a)
    ensures ty !in {0x0100, 0x0121, 0x0131, 0x0140, 0x0150, 0x0160, 0x0170, 0xFFFE} ==> Take(blob, ty, v, a) == Go(a)
  {
    hide TakeTopology, TakeTiles, TakeReadout, TakeLimit, TakeCrc;
  }

  lemma TopologyVerdict(v: Blob, a: Acc)
    requires |v| < 0x1_0000_0000 && ViewOk(a.view)
    ensures |v| != 16 ==> TakeTopology(v, a) == Stop(Rejected(BAKE_BAD_TLV_LEN, |v|))
    ensures |v| == 16 && !(v[8] == 8 && v[9] == 16) ==> TakeTopology(v, a) == Stop(Rejected(TOPOLOGY_MISMATCH, 0))
    ensures |v| == 16 && v[8] == 8 && v[9] == 16 && !(v[10] == 0 && v[11] == 0) ==>
              TakeTopology(v, a) == Stop(Rejected(BAKE_RESERVED_NON_ZERO, 0))
    ensures |v| == 16 && v[8] == 8 && v[9] == 16 && v[10] == 0 && v[11] == 0 ==>
              var n, limit := Word4(v[0], v[1], v[2], v[3]), Word4(v[12], v[13], v[14], v[15]);
              && 0 <= n < 0x1_0000_0000 && 0 <= limit < 0x1_0000_0000
              && TakeTopology(v, a) ==
                 Go(a.(topology := true, view := a.view.(tileCount := n,
                   topo := Topology(n, Word2(v[4], v[5]), Word2(v[6], v[7]), 8, 16, 0, limit))))
  {
    hide ReadLe16, ReadLe32;
    LowFirst(v, 0);
    LowFirst(v, 4);
    LowFirst(v, 6);
    LowFirst(v, 10);
    LowFirst(v, 12);
  }

  lemma ReadoutVerdict(v: Blob, a: Acc)
    requires |v| < 0x1_0000_0000 && ViewOk(a.view)
    ensures |v| != 12 ==> TakeReadout(v, a) == Stop(Rejected(BAKE_BAD_TLV_LEN, |v|))
    ensures |v| == 12 && v[0] > 1 ==> TakeReadout(v, a) == Stop(Rejected(BAKE_RESERVED_NON_ZERO, v[0]))
    ensures |v| == 12 && v[0] <= 1 ==>
              var last := Word4(v[8], v[9], v[10], v[11]);
              && 0 <= last < 0x1_0000_0000
              && TakeReadout(v, a) == Go(a.(view := a.view.(readout :=
                   Readout(v[0], v[1], Word2(v[2], v[3]), Word2(v[4], v[5]), Word2(v[6], v[7]), last))))
  {
    hide ReadLe16, ReadLe32;
    LowFirst(v, 2);
    LowFirst(v, 4);
    LowFirst(v, 6);
    LowFirst(v, 8);
  }

  lemma LimitVerdict(v: Blob, a: Acc)
    requires |v| < 0x1_0000_0000 && ViewOk(a.view)
    ensures |v| != 4 ==> TakeLimit(v, a) == Stop(Rejected(BAKE_BAD_TLV_LEN, |v|))
    ensures |v| == 4 ==>
              var limit := Word4(v[0], v[1], v[2], v[3]);
              0 <= limit < 0x1_0000_0000 && TakeLimit(v, a) == Go(a.(view := a.view.(tileFieldLimit := limit)))
  {
    hide ReadLe32;
    LowFirst(v, 0);
  }

  /** The checksum record is compared with the checksum of all but the last twelve bytes. */
  lemma CrcVerdict(blob: Blob, v: Blob, a: Acc)
    requires |v| < 0x1_0000_0000 && 12 <= |blob| && ViewOk(a.view)
    ensures |v| != 4 ==> TakeCrc(blob, v, a) == Stop(Rejected(BAKE_BAD_TLV_LEN, |v|))
    ensures |v| == 4 ==>
              var stored := Word4(v[0], v[1], v[2], v[3]);
              && 0 <= stored < 0x1_0000_0000
              && TakeCrc(blob, v, a) ==
                 if stored == Crc.Crc32(blob[..|blob| - 12]) then Go(a.(crc := true)) else Stop(Rejected(BAKE_CRC_FAIL, stored))
  {
    hide ReadLe32, Crc.Crc32;
    LowFirst(v, 0);
  }

  /** Per-tile records: refused without a topology, with a wrong length, and for their first bad entry; inverted ranges
      report the tile, reserved routing bits the flags. */
  lemma TilesVerdict(k: Kind, v: Blob, a: Acc, f: nat)
    requires |v| < 0x1_0000_0000 && ViewOk(a.view)
    ensures !a.topology ==> TakeTiles(k, v, a) == Stop(Rejected(BAKE_MISSING_TLV, 0))
    ensures a.topology && |v| != Size(k) * a.view.tileCount ==> TakeTiles(k, v, a) == Stop(Rejected(BAKE_BAD_TLV_LEN, |v|))
    ensures a.topology && |v| == Size(k) * a.view.tileCount && f < a.view.tileCount && f < TILE_COUNT
            && IsBad(k, v, f) && (forall t: nat | t < f :: !IsBad(k, v, t)) ==>
              (k == Params && TakeTiles(k, v, a) == Stop(Rejected(BAKE_RESERVED_NON_ZERO, f)))
              || (k == Routing && 2 * f + 1 < |v|
                  && TakeTiles(k, v, a) == Stop(Rejected(BAKE_RESERVED_NON_ZERO, Word2(v[2 * f], v[2 * f + 1]))))
  {
    hide DecodeTiles, FirstBad, Bad, Chunk;
    if a.topology && |v| == Size(k) * a.view.tileCount && f < a.view.tileCount && f < TILE_COUNT
       && IsBad(k, v, f) && (forall t: nat | t < f :: !IsBad(k, v, t)) {
      var n := Min(a.view.tileCount, TILE_COUNT);
      Within(k, n, a.view.tileCount);
      FirstIs(k, v, n, f);
      Within(k, f + 1, n);
      BadEntry(k, v, f);
      ExtraOf(k, v, f);
    }
  }

  /** Entry t of the record is an inverted range, or has a reserved routing bit. */
  predicate IsBad(k: Kind, v: Blob, t: nat) {
    match k
    case Params =>
      13 * t + 13 <= |v| && Signed(v[13 * t], v[13 * t + 1]) > Signed(v[13 * t + 2], v[13 * t + 3])
    case Routing => 2 * t + 2 <= |v| && v[2 * t + 1] >= 4
    case _ => false
  }

  lemma BadEntry(k: Kind, v: Blob, t: nat)
    requires Size(k) * (t + 1) <= |v|
    ensures Bad(k, Chunk(v, Size(k), t)) <==> IsBad(k, v, t)
  {
    hide Bad, Signed;
    ChunkFits(Size(k), t);
    var p := Chunk(v, Size(k), t);
    match k
    case Params => ParamsFields(ZeroTile(), p);
    case Routing => RoutingFields(ZeroTile(), p);
    case Weights => WeightFields(ZeroTile(), p, 0, 0);
    case ResetMasks => MaskFields(ZeroTile(), p);
  }

  lemma {:induction false} FirstIs(k: Kind, v: Blob, n: nat, f: nat)
    requires Size(k) * n <= |v| && f < n && IsBad(k, v, f) && forall t: nat | t < f :: !IsBad(k, v, t)
    ensures FirstBad(k, v, n) == f
  {
    hide Bad, IsBad, Chunk;
    ChunkFits(Size(k), n - 1);
    BadEntry(k, v, n - 1);
    if f < n - 1 {
      FirstIs(k, v, n - 1, f);
    } else {
      NoneBefore(k, v, f);
    }
  }

  lemma {:induction false} NoneBefore(k: Kind, v: Blob, n: nat)
    requires Size(k) * n <= |v| && forall t: nat | t < n :: !IsBad(k, v, t)
    ensures FirstBad(k, v, n) == n
  {
    hide Bad, IsBad, Chunk;
    if n > 0 {
      ChunkFits(Size(k), n - 1);
      NoneBefore(k, v, n - 1);
      BadEntry(k, v, n - 1);
    }
  }

  lemma ExtraOf(k: Kind, v: Blob, f: nat)
    requires Size(k) * (f + 1) <= |v| && f < TILE_COUNT
    ensures k == Params ==> BadExtra(k, Chunk(v, Size(k), f), f) == f
    ensures k == Routing ==> 2 * f + 1 < |v| && BadExtra(k, Chunk(v, Size(k), f), f) == Word2(v[2 * f], v[2 * f + 1])
  {
    hide ReadLe16;
    ChunkFits(Size(k), f);
    if k == Routing {
      LowFirst(Chunk(v, 2, f), 0);
    }
  }

  // ---------- Headers ----------

  /** The record header at pos, as the parser reads it. */
  lemma RecordInBytes(blob: Blob, pos: nat)
    requires pos + 8 <= |blob|
    ensures var len := Word4(blob[pos + 4], blob[pos + 5], blob[pos + 6], blob[pos + 7]);
            && (HasRecord(blob, pos) <==> pos + 8 + len <= |blob|)
            && (HasRecord(blob, pos) ==>
                  && TypeAt(blob, pos) == Word2(blob[pos], blob[pos + 1])
                  && ValueAt(blob, pos) == blob[pos + 8..pos + 8 + len]
                  && NextPos(blob, pos) == pos + 8 + len + (4 - len % 4) % 4)
  {
    hide ReadLe16, ReadLe32, Word2, Word4;
    LowFirst(blob, pos);
    LowFirst(blob, pos + 4);
  }

  /** After the last record: the first missing one is reported by its number. */
  function EndVerdict(a: Acc): Outcome {
    if !a.topology then Rejected(BAKE_MISSING_TLV, 0x0100)
    else if !a.params then Rejected(BAKE_MISSING_TLV, 0x0121)
    else if !a.routing then Rejected(BAKE_MISSING_TLV, 0x0131)
    else if !a.weights then Rejected(BAKE_MISSING_TLV, 0x0160)
    else if !a.crc then Rejected(BAKE_MISSING_TLV, 0xFFFE)
    else Accepted(a.view)
  }

  /** The record loop: what it says about too little room, and how it goes on. */
  lemma LoopVerdict(blob: Blob, pos: nat, a: Acc)
    requires 28 <= pos <= |blob| && ViewOk(a.view)
    ensures pos < |blob| < pos + 8 ==> ParseFrom(blob, pos, a) == Rejected(BAKE_MISSING_TLV, 0)
    ensures pos + 8 <= |blob| ==>
              var len := Word4(blob[pos + 4], blob[pos + 5], blob[pos + 6], blob[pos + 7]);
              pos + 8 + len > |blob| ==>
                0 <= len < 0x1_0000_0000 && ParseFrom(blob, pos, a) == Rejected(BAKE_BAD_TLV_LEN, len)
    ensures pos == |blob| ==> ParseFrom(blob, pos, a) == EndVerdict(a)
  {
    hide Take, ReadLe32, Word4;
    if pos + 8 <= |blob| {
      LowFirst(blob, pos + 4);
    }
  }

  /** The code with which the parser rejects, if it does. */
  ghost predicate RejectsWith(o: Outcome, code: Code, extra: int) { o.Rejected? && o.code == code && o.extra == extra }

  ghost predicate RejectsAs(o: Outcome, code: Code) { o.Rejected? && o.code == code }

  /** The codes of single records. */
  ghost predicate RecordCode(o: Outcome) {
    o.Rejected? ==> o.code in {BAKE_MISSING_TLV, BAKE_BAD_TLV_LEN, BAKE_CRC_FAIL, BAKE_RESERVED_NON_ZERO, TOPOLOGY_MISMATCH}
  }

  lemma TakeCodes(blob: Blob, ty: u16, v: Blob, a: Acc)
    requires |v| < 0x1_0000_0000 && 12 <= |blob| && ViewOk(a.view)
    ensures Take(blob, ty, v, a).Stop? ==> RecordCode(Take(blob, ty, v, a).out)
  {
    hide FirstBad, DecodeTiles, Crc.Crc32, ReadTopology, ReadReadout;
  }

  lemma {:induction false} LoopCodes(blob: Blob, pos: nat, a: Acc)
    requires 28 <= pos <= |blob| && ViewOk(a.view)
    ensures RecordCode(ParseFrom(blob, pos, a))
    decreases |blob| - pos
  {
    hide Take, HasRecord, TypeAt, ValueAt, NextPos;
    if pos < |blob| && HasRecord(blob, pos) {
      TakeCodes(blob, TypeAt(blob, pos), ValueAt(blob, pos), a);
      var step := Take(blob, TypeAt(blob, pos), ValueAt(blob, pos), a);
      if step.Go? && NextPos(blob, pos) <= |blob| {
        LoopCodes(blob, NextPos(blob, pos), step.acc);
      }
    }
  }

  /** The four header verdicts, each exactly for its bytes, in the order of the checks; the last check is the reserved
      word, and then the records are read with the header's ids and flags. */
  lemma HeaderVerdict(blob: Blob)
    requires |blob| < 0x1_0000_0000
    ensures RejectsAs(Parse(blob), BAKE_BAD_LEN) <==> |blob| < 28
    ensures |blob| < 28 ==> Parse(blob) == Rejected(BAKE_BAD_LEN, |blob|)
    ensures RejectsAs(Parse(blob), BAKE_BAD_MAGIC) <==> |blob| >= 28 && blob[..4] != [0x44, 0x38, 0x42, 0x4B]
    ensures RejectsAs(Parse(blob), BAKE_BAD_MAGIC) ==> RejectsWith(Parse(blob), BAKE_BAD_MAGIC, 0)
    ensures RejectsAs(Parse(blob), BAKE_BAD_VERSION)
            <==> |blob| >= 28 && blob[..4] == [0x44, 0x38, 0x42, 0x4B] && !(blob[4] == 2 && blob[5] == 0)
    ensures RejectsAs(Parse(blob), BAKE_BAD_VERSION) ==>
              RejectsWith(Parse(blob), BAKE_BAD_VERSION, Word2(blob[4], blob[5]))
    ensures RejectsAs(Parse(blob), BAKE_BAD_LEN_TOTAL)
            <==> |blob| >= 28 && blob[..6] == [0x44, 0x38, 0x42, 0x4B, 2, 0] && Word4(blob[12], blob[13], blob[14], blob[15]) != |blob|
    ensures RejectsAs(Parse(blob), BAKE_BAD_LEN_TOTAL) ==>
              RejectsWith(Parse(blob), BAKE_BAD_LEN_TOTAL, Word4(blob[12], blob[13], blob[14], blob[15]))
    ensures |blob| >= 28 && blob[..6] == [0x44, 0x38, 0x42, 0x4B, 2, 0] && Word4(blob[12], blob[13], blob[14], blob[15]) == |blob| ==>
              var reserved := Word4(blob[24], blob[25], blob[26], blob[27]);
              if reserved != 0 then RejectsWith(Parse(blob), BAKE_RESERVED_NON_ZERO, reserved)
              else Parse(blob) == ParseFrom(blob, 28, HeaderAcc(blob))
  {
    hide ReadLe16, ReadLe32, Word4, ParseFrom, EmptyAcc;
    if 28 <= |blob| {
      LowFirst(blob, 4);
      LowFirst(blob, 8);
      LowFirst(blob, 12);
      LowFirst(blob, 16);
      LowFirst(blob, 20);
      LowFirst(blob, 24);
      assert blob[..4] == [blob[0], blob[1], blob[2], blob[3]];
      assert blob[..6] == [blob[0], blob[1], blob[2], blob[3], blob[4], blob[5]];
      EmptyIsWell(blob);
      LoopCodes(blob, 28, HeaderAcc(blob));
    }
  }

  lemma WordFits(b0: u8, b1: u8, b2: u8, b3: u8)
    ensures 0 <= Word4(b0, b1, b2, b3) < 0x1_0000_0000
  {
  }

  /** The registers at the first record: nothing but the flags, the bake id and the profile id. */
  function HeaderAcc(blob: Blob): Acc
    requires 28 <= |blob|
  {
    WordFits(blob[8], blob[9], blob[10], blob[11]);
    WordFits(blob[16], blob[17], blob[18], blob[19]);
    WordFits(blob[20], blob[21], blob[22], blob[23]);
    Acc(View(seq(4096, _ => ZeroTile()), Topology(0, 0, 0, 0, 0, 0, 0), Readout(0, 0, 0, 0, 0, 0), 0,
          Word4(blob[16], blob[17], blob[18], blob[19]), Word4(blob[20], blob[21], blob[22], blob[23]),
          Word4(blob[8], blob[9], blob[10], blob[11]), 0),
      false, false, false, false, false)
  }

  lemma EmptyIsWell(blob: Blob)
    requires 28 <= |blob|
    ensures ViewOk(HeaderAcc(blob).view)
    ensures HeaderAcc(blob) == EmptyAcc(ReadLe32(blob, 16), ReadLe32(blob, 20), ReadLe32(blob, 8))
  {
    hide ReadLe32, Word4;
    LowFirst(blob, 8);
    LowFirst(blob, 16);
    LowFirst(blob, 20);
  }
}
