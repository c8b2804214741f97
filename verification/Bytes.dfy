/** Little-endian words and fixed-size chunks of byte strings. */
module Bytes {
  import opened Machine

  type Blob = seq<u8>

  function Le16(v: u16): (b: Blob)
    ensures |b| == 2
  {
    [v % 0x100, v / 0x100]
  }

  function Le32(v: u32): (b: Blob)
    ensures |b| == 4
  {
    [v % 0x100, v / 0x100 % 0x100, v / 0x100 / 0x100 % 0x100, v / 0x100 / 0x100 / 0x100]
  }

  function ReadLe16(s: Blob, i: nat): u16
    requires i + 2 <= |s|
  {
    var lo: int, hi: int := s[i], s[i + 1];
    lo + 0x100 * hi
  }

  function ReadLe32(s: Blob, i: nat): u32
    requires i + 4 <= |s|
  {
    var b0: int, b1: int, b2: int, b3: int := s[i], s[i + 1], s[i + 2], s[i + 3];
    b0 + 0x100 * b1 + 0x1_0000 * b2 + 0x100_0000 * b3
  }

  /** The two's-complement pattern of a signed word. */
  function Pattern(x: i16): u16 { x % 0x1_0000 }

  lemma Word16RoundTrip(v: u16)
    ensures ReadLe16(Le16(v), 0) == v
  {
  }

  lemma Word32RoundTrip(v: u32)
    ensures ReadLe32(Le32(v), 0) == v
  {
    var q := v / 0x100;
    var r := q / 0x100;
    assert v == 0x100 * q + v % 0x100 && q == 0x100 * r + q % 0x100 && r == 0x100 * (r / 0x100) + r % 0x100;
  }

  lemma SignedRoundTrip(x: i16)
    ensures WrapI16(Pattern(x)) == x
  {
  }

  /** Bytes read through a window are the window's bytes. */
  lemma ReadInside(s: Blob, a: nat, b: nat, i: nat)
    requires a <= b <= |s|
    ensures a + i + 2 <= b ==> ReadLe16(s[a..b], i) == ReadLe16(s, a + i)
    ensures a + i + 4 <= b ==> ReadLe32(s[a..b], i) == ReadLe32(s, a + i)
  {
  }

  function Zeros(n: nat): (z: Blob)
    ensures |z| == n
  {
    seq(n, _ => 0)
  }

  /** Bytes missing to the next multiple of four. */
  function Padding(len: nat): nat { (4 - len % 4) % 4 }

  lemma PaddedInWords(len: nat)
    ensures len + Padding(len) == 4 * ((len + 3) / 4)
  {
    var q, r := len / 4, len % 4;
    assert len == 4 * q + r;
    assert (len + 3) / 4 == if r == 0 then q else q + 1;
  }

  lemma InWords(k: nat, x: nat)
    requires x == 4 * k
    ensures x % 4 == 0
  {
  }

  /** Padding to the next whole word never leaves a range of whole words. */
  lemma WordsFit(start: nat, len: nat, end: nat)
    requires start % 4 == 0
    ensures end % 4 == 0 && start + len <= end ==> start + len + Padding(len) <= end
  {
    hide Padding;
    PaddedInWords(len);
  }

  // ---------- Chunks ----------

  function Chunk(s: Blob, size: nat, t: nat): Blob
    requires size * (t + 1) <= |s|
  {
    ChunkFits(size, t);
    s[size * t..size * (t + 1)]
  }

  lemma ChunkFits(size: nat, t: nat)
    ensures 0 <= size * t <= size * (t + 1) == size * t + size
  {
  }

  lemma ChunkBelow(size: nat, t: nat, n: nat)
    requires t < n
    ensures size * (t + 1) <= size * n
  {
    assert size * n - size * (t + 1) == size * (n - t - 1);
  }
}
