/** Writing a blob into a fixed buffer at a moving offset. */
module BlobBuffer {
  import opened Machine
  import opened Grid
  import opened Bytes
  import opened BakeFormat
  import opened BakeParser
  import opened BakeWriter
  import opened Serializer

  /** memcpy to the current offset. */
  method Put(buf: array<u8>, off: nat, bytes: Blob) returns (next: nat)
    requires off + |bytes| <= buf.Length
    modifies buf
    ensures next == off + |bytes| && buf[..next] == old(buf[..off]) + bytes
    ensures forall i | next <= i < buf.Length :: buf[i] == old(buf[i])
  {
    forall i | 0 <= i < |bytes| {
      buf[off + i] := bytes[i];
    }
    next := off + |bytes|;
    assert buf[..off] == old(buf[..off]);
    assert buf[off..next] == bytes;
  }

  /** Overwrite bytes written earlier. */
  method Patch(buf: array<u8>, at: nat, bytes: Blob, end: nat)
    requires at + |bytes| <= end <= buf.Length
    modifies buf
    ensures buf[..end] == old(buf[..at]) + bytes + old(buf[at + |bytes|..end])
    ensures forall i | end <= i < buf.Length :: buf[i] == old(buf[i])
  {
    forall i | 0 <= i < |bytes| {
      buf[at + i] := bytes[i];
    }
    assert buf[..at] == old(buf[..at]);
    assert buf[at..at + |bytes|] == bytes;
    assert buf[at + |bytes|..end] == old(buf[at + |bytes|..end]);
  }

  function Head(ty: u16, len: u32): (h: Blob)
    ensures |h| == 8
  {
    Le16(ty) + Le16(0) + Le32(len)
  }

  /** write_le_u16 at the current offset. */
  method PutLe16(buf: array<u8>, off: nat, v: u16) returns (next: nat)
    requires off + 2 <= buf.Length
    modifies buf
    ensures next == off + 2 && buf[..next] == old(buf[..off]) + Le16(v)
    ensures forall i | next <= i < buf.Length :: buf[i] == old(buf[i])
  {
    buf[off] := v % 0x100;
    buf[off + 1] := v / 0x100;
    next := off + 2;
    assert buf[..off] == old(buf[..off]);
  }

  method PutByte(buf: array<u8>, off: nat, v: u8) returns (next: nat)
    requires off + 1 <= buf.Length
    modifies buf
    ensures next == off + 1 && buf[..next] == old(buf[..off]) + [v]
    ensures forall i | next <= i < buf.Length :: buf[i] == old(buf[i])
  {
    buf[off] := v;
    next := off + 1;
    assert buf[..off] == old(buf[..off]);
  }

  method PutParams(buf: array<u8>, off: nat, t: Tile) returns (next: nat)
    requires off + 13 <= buf.Length
    modifies buf
    ensures next == off + 13 && buf[..next] == old(buf[..off]) + Encode(Params, t)
    ensures forall i | next <= i < buf.Length :: buf[i] == old(buf[i])
  {
    hide Le16;
    ghost var before := buf[..off];
    next := PutLe16(buf, off, Pattern(t.thrLo));
    next := PutLe16(buf, next, Pattern(t.thrHi));
    next := PutLe16(buf, next, t.decay);
    next := PutByte(buf, next, t.domain % 16);
    next := PutByte(buf, next, t.priority);
    next := PutLe16(buf, next, t.pattern);
    next := PutLe16(buf, next, t.resetMask);
    next := PutByte(buf, next, 0);
    Regroup(before, Le16(Pattern(t.thrLo)), Le16(Pattern(t.thrHi)), Le16(t.decay), t.domain % 16, t.priority,
      Le16(t.pattern), Le16(t.resetMask));
  }

  lemma Regroup(s: Blob, a: Blob, b: Blob, c: Blob, d: u8, p: u8, e: Blob, f: Blob)
    ensures s + a + b + c + [d] + [p] + e + f + [0] == s + (a + b + c + [d, p] + e + f + [0])
  {
    assert a + b + c + [d] + [p] == a + b + c + [d, p];
  }

  /** The ten flag statements. */
  method CollectFlags(t: Tile) returns (flags: u16)
    ensures flags == RoutingFlags(t)
  {
    hide PackBits;
    var f := 0;
    f := f + if t.maskN then 0x01 else 0;
    f := f + if t.maskE then 0x02 else 0;
    f := f + if t.maskS then 0x04 else 0;
    f := f + if t.maskW then 0x08 else 0;
    f := f + if t.maskNE then 0x10 else 0;
    f := f + if t.maskSE then 0x20 else 0;
    f := f + if t.maskSW then 0x40 else 0;
    f := f + if t.maskNW then 0x80 else 0;
    f := f + if t.busR then 0x100 else 0;
    f := f + if t.busW then 0x200 else 0;
    FlagsSum(t);
    flags := f;
  }

  lemma PackCons(b: bool, rest: seq<bool>)
    ensures PackBits([b] + rest) == (if b then 1 else 0) + 2 * PackBits(rest)
  {
    assert ([b] + rest)[1..] == rest;
  }

  lemma PackFive(a: bool, b: bool, c: bool, d: bool, e: bool, rest: seq<bool>)
    ensures PackBits([a, b, c, d, e] + rest)
            == (if a then 1 else 0) + (if b then 2 else 0) + (if c then 4 else 0) + (if d then 8 else 0)
               + (if e then 16 else 0) + 32 * PackBits(rest)
  {
    hide PackBits;
    PackCons(e, rest);
    PackCons(d, [e] + rest);
    PackCons(c, [d, e] + rest);
    PackCons(b, [c, d, e] + rest);
    PackCons(a, [b, c, d, e] + rest);
    assert [d] + ([e] + rest) == [d, e] + rest;
    assert [c] + ([d, e] + rest) == [c, d, e] + rest;
    assert [b] + ([c, d, e] + rest) == [b, c, d, e] + rest;
    assert [a] + ([b, c, d, e] + rest) == [a, b, c, d, e] + rest;
  }

  lemma FlagsSum(t: Tile)
    ensures RoutingFlags(t) ==
            (if t.maskN then 0x01 else 0) + (if t.maskE then 0x02 else 0) + (if t.maskS then 0x04 else 0)
            + (if t.maskW then 0x08 else 0) + (if t.maskNE then 0x10 else 0) + (if t.maskSE then 0x20 else 0)
            + (if t.maskSW then 0x40 else 0) + (if t.maskNW then 0x80 else 0) + (if t.busR then 0x100 else 0)
            + (if t.busW then 0x200 else 0)
  {
    hide PackBits;
    var high := [t.maskSE, t.maskSW, t.maskNW, t.busR, t.busW];
    PackFive(t.maskSE, t.maskSW, t.maskNW, t.busR, t.busW, []);
    PackFive(t.maskN, t.maskE, t.maskS, t.maskW, t.maskNE, high);
    assert high + [] == high;
    assert RoutingBits(t) == [t.maskN, t.maskE, t.maskS, t.maskW, t.maskNE] + high;
    PackNothing();
  }

  lemma PackNothing()
    ensures PackBits([]) == 0
  {
  }

  /** Thirty-two nibble pairs, then eight sign bytes collected bit by bit. */
  method PutWeights(buf: array<u8>, off: nat, t: Tile) returns (next: nat)
    requires off + 40 <= buf.Length
    modifies buf
    ensures next == off + 40 && buf[..next] == old(buf[..off]) + Encode(Weights, t)
    ensures forall i | next <= i < buf.Length :: buf[i] == old(buf[i])
  {
    ghost var before := buf[..off];
    ghost var w := EncodeWeights(t);
    var i := 0;
    while i < 32
      invariant 0 <= i <= 32 && buf[..off + i] == before + w[..i]
      invariant forall j | off + i <= j < buf.Length :: buf[j] == old(buf[j])
    {
      var lo: int, hi: int := t.mag[i * 2], t.mag[i * 2 + 1];
      var n := PutByte(buf, off + i, hi * 16 + lo);
      assert w[..i + 1] == w[..i] + [w[i]];
      i := i + 1;
    }
    i := 0;
    while i < 8
      invariant 0 <= i <= 8 && buf[..off + 32 + i] == before + w[..32 + i]
      invariant forall j | off + 32 + i <= j < buf.Length :: buf[j] == old(buf[j])
    {
      var byte := CollectSigns(t, i);
      var n := PutByte(buf, off + 32 + i, byte);
      assert w[..32 + i + 1] == w[..32 + i] + [w[32 + i]];
      i := i + 1;
    }
    next := off + 40;
    assert w[..40] == w;
  }

  method CollectSigns(t: Tile, i: nat) returns (byte: u8)
    requires i < 8
    ensures byte == SignByte(t, i)
  {
    hide PackBits;
    var sum := 0;
    var bit := 0;
    PackNothing();
    ghost var signs := t.sign[8 * i..8 * i + 8];
    while bit < 8
      invariant 0 <= bit <= 8 && sum == PackBits(signs[..bit])
    {
      assert signs[..bit + 1] == signs[..bit] + [signs[bit]];
      PackBitsSnoc(signs[..bit], signs[bit]);
      sum := sum + (if t.sign[i * 8 + bit] then Pow2(bit) else 0);
      bit := bit + 1;
    }
    assert signs[..8] == signs;
    assert SignByte(t, i) == PackBits(signs);
    byte := sum;
  }

  method PutEntry(k: Kind, buf: array<u8>, off: nat, t: Tile) returns (next: nat)
    requires off + Size(k) <= buf.Length
    modifies buf
    ensures next == off + Size(k) && buf[..next] == old(buf[..off]) + Encode(k, t)
    ensures forall i | next <= i < buf.Length :: buf[i] == old(buf[i])
  {
    match k {
      case Params => next := PutParams(buf, off, t);
      case Routing =>
        var flags := CollectFlags(t);
        next := PutLe16(buf, off, flags);
      case Weights => next := PutWeights(buf, off, t);
      case ResetMasks => next := PutLe16(buf, off, t.resetMask);
    }
  }

  /** A per-tile record: its header, then one entry per tile. */
  method PutEntries(k: Kind, buf: array<u8>, off: nat, tiles: seq<Tile>) returns (next: nat)
    requires |tiles| <= TILE_COUNT && off + 8 + Size(k) * |tiles| <= buf.Length
    modifies buf
    ensures next == off + 8 + Size(k) * |tiles|
    ensures buf[..next] == old(buf[..off]) + Bare(EntriesRecord(k, tiles))
    ensures forall i | next <= i < buf.Length :: buf[i] == old(buf[i])
  {
    hide Encode, Le16, Le32, Entries, Bare, EntriesRecord, Head;
    ghost var before := buf[..off];
    Within(k, |tiles|, TILE_COUNT);
    EntriesLength(k, tiles);
    var head := Head(TypeOf(k), Size(k) * |tiles|);
    next := Put(buf, off, head);
    NoEntries(k, tiles);
    var t := 0;
    while t < |tiles|
      invariant t <= |tiles| && next == off + 8 + Size(k) * t
      invariant buf[..next] == before + head + Entries(k, tiles[..t])
      invariant forall i | next <= i < buf.Length :: buf[i] == old(buf[i])
    {
      ChunkBelow(Size(k), t, |tiles|);
      ChunkFits(Size(k), t);
      EntriesSnoc(k, tiles, t);
      next := PutEntry(k, buf, next, tiles[t]);
      t := t + 1;
    }
    assert tiles[..t] == tiles;
    BareEntries(k, tiles, before);
  }

  lemma BareEntries(k: Kind, tiles: seq<Tile>, before: Blob)
    requires |tiles| <= TILE_COUNT
    ensures Size(k) * |tiles| < 0x1_0000_0000
    ensures before + Head(TypeOf(k), Size(k) * |tiles|) + Entries(k, tiles) == before + Bare(EntriesRecord(k, tiles))
  {
    hide Entries, Le16, Le32;
    Within(k, |tiles|, TILE_COUNT);
    EntriesLength(k, tiles);
    var head := Head(TypeOf(k), Size(k) * |tiles|);
    assert Bare(EntriesRecord(k, tiles)) == head + Entries(k, tiles);
  }

  lemma NoEntries(k: Kind, tiles: seq<Tile>)
    ensures tiles[..0] == [] && Entries(k, tiles[..0]) == []
  {
  }
}
