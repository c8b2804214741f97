/** Fixed-width integers, the machine's constants, and the few bit operations the swarm and the bake
    format share. Words are bounded integers; wrap-around and saturation are written out. */
module Machine {

  type u8 = x: int | 0 <= x < 0x100
  type u16 = x: int | 0 <= x < 0x1_0000
  type u32 = x: int | 0 <= x < 0x1_0000_0000
  type i16 = x: int | -0x8000 <= x < 0x8000

  /** A Level16: one lane of the VSB or of the BUS. */
  type Level = x: int | 0 <= x < 16

  /** The eight lanes of one vector. */
  type Lanes = s: seq<Level> | |s| == 8 witness [0, 0, 0, 0, 0, 0, 0, 0]

  const DOMAINS: nat := 16
  const TILE_COUNT: nat := 4096
  const EXPECTED_W: nat := 128
  const EXPECTED_H: nat := 32
  const NO_WINNER: u16 := 0xFFFF

  const ZERO_LANES: Lanes := [0, 0, 0, 0, 0, 0, 0, 0]
  const FULL_LANES: Lanes := [15, 15, 15, 15, 15, 15, 15, 15]

  function Min(a: int, b: int): int { if a < b then a else b }

  function Max(a: int, b: int): int { if a < b then b else a }

  /** The C cast to a 16-bit signed integer. */
  function WrapI16(x: int): (r: i16)
    ensures -0x8000 <= x < 0x8000 ==> r == x
  {
    (x + 0x8000) % 0x1_0000 - 0x8000
  }

  function SaturateI16(x: int): i16 { Max(-0x8000, Min(0x7FFF, x)) }

  function Clamp15(x: int): Level { if x < 0 then 0 else if x > 15 then 15 else x }

  function Pow2(k: nat): (r: nat)
    ensures r > 0
  {
    if k == 0 then 1 else 2 * Pow2(k - 1)
  }

  /** Bit k of a word, least significant first. */
  predicate Bit(m: nat, k: nat) {
    if k == 0 then m % 2 == 1 else Bit(m / 2, k - 1)
  }

  /** The C test mask16 & (1u << d): a shift by 16 or more falls outside the 16-bit mask. */
  predicate Hits(mask: u16, d: nat) { d < DOMAINS && Bit(mask, d) }

  function BitOr(a: nat, b: nat): nat
    decreases a + b
  {
    if a == 0 && b == 0 then 0
    else (if a % 2 == 1 || b % 2 == 1 then 1 else 0) + 2 * BitOr(a / 2, b / 2)
  }

  /** The C statement a |= b on 16-bit words. */
  function Or16(a: u16, b: u16): u16 {
    Pow2Of16();
    BitOrBound(a, b, 16);
    BitOr(a, b)
  }

  /** 1u << d cast to 16 bits. */
  function Shift1(d: nat): u16
    requires d < DOMAINS
  {
    Pow2Of16();
    Pow2Monotone(d, 15);
    Pow2(d)
  }

  lemma Pow2Of16()
    ensures Pow2(8) == 0x100 && Pow2(15) == 0x8000 && Pow2(16) == 0x1_0000
  {
    assert Pow2(4) == 16;
    assert Pow2(8) == 0x100;
    assert Pow2(12) == 0x1000;
  }

  lemma {:induction false} Pow2Monotone(a: nat, b: nat)
    requires a <= b
    ensures Pow2(a) <= Pow2(b)
  {
    if a < b {
      Pow2Monotone(a, b - 1);
    }
  }

  lemma {:induction false} BitOrBound(a: nat, b: nat, k: nat)
    requires a < Pow2(k) && b < Pow2(k)
    ensures BitOr(a, b) < Pow2(k)
  {
    if k > 0 {
      BitOrBound(a / 2, b / 2, k - 1);
    }
  }

  lemma {:induction false} BitOfZero(k: nat)
    ensures !Bit(0, k)
  {
    if k > 0 {
      BitOfZero(k - 1);
    }
  }

  lemma {:induction false} BitOfOr(a: nat, b: nat, k: nat)
    ensures Bit(BitOr(a, b), k) <==> Bit(a, k) || Bit(b, k)
  {
    if a == 0 && b == 0 {
      BitOfZero(k);
    } else if k > 0 {
      BitOfOr(a / 2, b / 2, k - 1);
    }
  }

  lemma {:induction false} BitOfPow2(d: nat, k: nat)
    ensures Bit(Pow2(d), k) <==> k == d
  {
    if d == 0 {
      if k > 0 {
        BitOfZero(k - 1);
      }
    } else if k > 0 {
      BitOfPow2(d - 1, k - 1);
    }
  }

  /** Bit k is the last binary digit of the word divided by 2 to the k. */
  lemma {:induction false} BitIsQuotient(m: nat, k: nat)
    ensures Bit(m, k) <==> m / Pow2(k) % 2 == 1
  {
    if k > 0 {
      BitIsQuotient(m / 2, k - 1);
      HalveFirst(m, Pow2(k - 1));
    }
  }

  lemma HalveFirst(m: nat, p: nat)
    requires p > 0
    ensures m / 2 / p == m / (2 * p)
  {
    var h := m / 2;
    var q, r := h / p, h % p;
    assert h == q * p + r;
    assert m == q * (2 * p) + (2 * r + m % 2) by {
      assert m == 2 * h + m % 2;
      assert q * (2 * p) == 2 * (q * p);
    }
    Quotient(m, 2 * p, q, 2 * r + m % 2);
  }

  lemma Quotient(x: nat, p: nat, q: nat, r: nat)
    requires p > 0 && x == q * p + r && r < p
    ensures x / p == q
  {
    var d := x / p;
    assert x == d * p + x % p;
    assert (d - q) * p == r - x % p;
    NoMultiple(d - q, p);
  }

  lemma NoMultiple(a: int, p: int)
    requires 0 - p < a * p < p
    ensures a == 0
  {
  }

  /** The C cast changes a value by a multiple of 65536, into the signed range. */
  lemma WrapIsCast(x: int)
    ensures exists k: int :: WrapI16(x) == x - 65536 * k
  {
    var k := (x + 0x8000) / 0x1_0000;
    assert WrapI16(x) == x - 65536 * k;
  }

  /** Setting bit d of a mask changes no other bit. */
  lemma SetBit(m: u16, d: nat, k: nat)
    requires d < DOMAINS
    ensures Bit(Or16(m, Shift1(d)), k) <==> Bit(m, k) || k == d
  {
    BitOfOr(m, Shift1(d), k);
    BitOfPow2(d, k);
  }

  /** The value whose bits, least significant first, are bs. */
  function PackBits(bs: seq<bool>): nat {
    if bs == [] then 0 else (if bs[0] then 1 else 0) + 2 * PackBits(bs[1..])
  }

  lemma {:induction false} PackBitsBound(bs: seq<bool>)
    ensures PackBits(bs) < Pow2(|bs|)
  {
    if bs != [] {
      PackBitsBound(bs[1..]);
    }
  }

  lemma {:induction false} BitOfPack(bs: seq<bool>, k: nat)
    ensures Bit(PackBits(bs), k) <==> k < |bs| && bs[k]
  {
    if bs == [] {
      BitOfZero(k);
    } else if k > 0 {
      BitOfPack(bs[1..], k - 1);
    }
  }

  lemma {:induction false} PackBitsSnoc(bs: seq<bool>, b: bool)
    ensures PackBits(bs + [b]) == PackBits(bs) + (if b then Pow2(|bs|) else 0)
  {
    if bs == [] {
      assert [] + [b] == [b];
    } else {
      assert (bs + [b])[1..] == bs[1..] + [b];
      PackBitsSnoc(bs[1..], b);
    }
  }

  /** A word with no bit from n upwards is below 2^n, and is determined by its first n bits. */
  lemma {:induction false} PackOfBits(m: nat, n: nat)
    requires m < Pow2(n)
    ensures PackBits(seq(n, k requires 0 <= k < n => Bit(m, k))) == m
  {
    var bs := seq(n, k requires 0 <= k < n => Bit(m, k));
    if n > 0 {
      PackOfBits(m / 2, n - 1);
      assert bs[1..] == seq(n - 1, k requires 0 <= k < n - 1 => Bit(m / 2, k));
    }
  }
}
