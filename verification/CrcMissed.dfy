/** What the odd table entry costs in error detection: exactly when two messages have equal checksums, and a two-bit error
    that CRC-32 detects and this checksum does not. */
module CrcMissed {
  import opened Machine
  import opened CrcTable
  import opened CrcPowers
  import opened Crc
  import opened CrcDeviation

  /** Two messages have equal checksums exactly when their CRC-32 registers differ by what their deviations differ
      by. */
  lemma CollisionExactly(a: seq<u8>, b: seq<u8>)
    ensures Crc32(a) == Crc32(b) <==>
            Xor(StandardFold(INIT, a), StandardFold(INIT, b)) == Xor(Deviation(Lookups(INIT, a)), Deviation(Lookups(INIT, b)))
  {
    hide Fold, StandardFold, Lookups, Deviation, Crc.Finish, Xor;
    FoldDeviates(INIT, a);
    FoldDeviates(INIT, b);
    SameSum(StandardFold(INIT, a), Deviation(Lookups(INIT, a)), StandardFold(INIT, b), Deviation(Lookups(INIT, b)));
    if Crc32(a) == Crc32(b) {
      FinishInjective(Fold(INIT, a), Fold(INIT, b));
    }
  }

  lemma SameSum(x: bv32, d: bv32, y: bv32, e: bv32)
    ensures Xor(x, d) == Xor(y, e) <==> Xor(x, y) == Xor(d, e)
  {
    hide Xor;
    XorCancels(Xor(x, d), Xor(y, e));
    XorCancels(Xor(x, y), Xor(d, e));
    Interchange(x, d, y, e);
  }

  lemma XorCancels(x: bv32, y: bv32)
    ensures x == y <==> Xor(x, y) == 0
  {
    hide Xor;
    XorInjective(x, y, y);
    SelfXor(y);
  }

  lemma SelfXor(x: bv32)
    ensures Xor(x, x) == 0
  {
  }

  /** Messages that never look the entry up collide exactly when they collide under CRC-32; so there everything CRC-32
      detects is detected. */
  lemma ClearCollision(a: seq<u8>, b: seq<u8>)
    requires Clear(INIT, a) && Clear(INIT, b)
    ensures Crc32(a) == Crc32(b) <==> StandardCrc32(a) == StandardCrc32(b)
  {
    hide Fold, StandardFold, Lookups, Deviation, Crc.Finish;
    ClearIsSilent(INIT, a);
    ClearIsSilent(INIT, b);
    SilentDeviation(Lookups(INIT, a));
    SilentDeviation(Lookups(INIT, b));
    IsCrc32Exactly(a);
    IsCrc32Exactly(b);
  }

  lemma SilentDeviation(ls: seq<bool>)
    requires Silent(ls)
    ensures Deviation(ls) == 0
  {
    assert ls == Quiet(|ls|);
    QuietDeviation(|ls|);
  }

  // ---------- A missed two-bit error ----------

  /** The difference of two registers after k common bytes, when a steered byte makes one of them look the entry
      up. */
  function Gaps(k: nat): bv32 {
    if k == 0 then 0xEDB88320 else if k == 1 then 0x3B83986B else if k == 2 then 0xDA5B3B68 else if k == 3 then 0x43B3B271
    else if k == 4 then 0x2741F238 else if k == 5 then 0x2825F96C else if k == 6 then 0x442C08AA else if k == 7 then 0x364766DE
    else if k == 8 then 0x615DB8B5 else if k == 9 then 0xBB6A1A9B else if k == 10 then 0x676620D6 else if k == 11 then 0x6FD711C1
    else if k == 12 then 0xEC0C2537 else if k == 13 then 0xB851A90A else if k == 14 then 0xE06DB897 else if k == 15 then 0x6E8B6B5F
    else if k == 16 then 0xFBBAC72E else if k == 17 then 0xDC2DB708 else if k == 18 then 0x0E07A585 else if k == 19 then 0x9DDC702A
    else if k == 20 then 0xDB261586 else if k == 21 then 0x04000000 else if k == 22 then 0x00040000 else if k == 23 then 0x00000400
    else 0x00000004
  }

  /** The same difference under CRC-32. */
  function Plain(k: nat): bv32 {
    if k == 0 then 0xEDB88320 else if k == 1 then 0x3B83984B else if k == 2 then 0xE1351B80 else if k == 3 then 0xED59B63B
    else if k == 4 then 0xB1E6B092 else if k == 5 then 0x1EB014D8 else if k == 6 then 0x8816EAF2 else if k == 7 then 0x533B85DA
    else if k == 8 then 0x6655004F else if k == 9 then 0xE6050901 else if k == 10 then 0x77E1359F else if k == 11 then 0x60C76FE0
    else if k == 12 then 0xA06A2517 else if k == 13 then 0x8373EFE2 else if k == 14 then 0x4E87F0BB else if k == 15 then 0x5CFDEDF4
    else if k == 16 then 0xBA8CCBE8 else if k == 17 then 0xAE6BE681 else if k == 18 then 0x9A11D850 else if k == 19 then 0x6BF1402C
    else if k == 20 then 0x32B39DA3 else if k == 21 then 0x4FED41CF else if k == 22 then 0x0B943260 else if k == 23 then 0x4DB9F56A
    else 0xAD2A31B3
  }

  predicate Steered(k: nat) { k in {0, 1, 2, 3, 5, 6, 8, 12, 13, 15, 18, 19} }

  /** The difference of two registers after one more byte each. */
  lemma DifferenceStep(x: bv32, p: bv8, y: bv32, q: bv8)
    ensures Xor(Update(x, p), Update(y, q)) ==
            Xor(Shift8(Xor(Xor(x, y), Xor(Widen(p), Widen(q)))), Xor(Error(Index(x, p) == 0xF5), Error(Index(y, q) == 0xF5)))
    ensures Xor(StandardUpdate(x, p), StandardUpdate(y, q)) == Shift8(Xor(Xor(x, y), Xor(Widen(p), Widen(q))))
  {
    hide Xor, Shift8, Widen, Index, Error, Update;
    UpdateDeviates(x, p);
    UpdateDeviates(y, q);
    Interchange(StandardUpdate(x, p), Error(Index(x, p) == 0xF5), StandardUpdate(y, q), Error(Index(y, q) == 0xF5));
    Shift8Xor(Xor(x, Widen(p)), Xor(y, Widen(q)));
    Interchange(x, Widen(p), y, Widen(q));
  }

  /** A common byte that makes the first register look the entry up and the second not, or neither of them. */
  lemma SteeringByte(x: bv32, y: bv32, steer: bool) returns (b: u8)
    ensures steer && Lower(Xor(x, y)) != 0 ==> Index(x, Bits(b)) == 0xF5 && Index(y, Bits(b)) != 0xF5
    ensures !steer ==> Index(x, Bits(b)) != 0xF5 && Index(y, Bits(b)) != 0xF5
  {
    hide Bits;
    var i: bv8 := if steer then 0xF5 else if Lower(Xor(x, y)) == 0xF5 then 1 else 0;
    b := ByteFor(x, i);
    IndexDifference(x, y, Bits(b));
    Unequal(Lower(Xor(x, y)));
  }

  lemma IndexDifference(x: bv32, y: bv32, b: bv8)
    ensures Index(y, b) == Index(x, b) ^ Lower(Xor(x, y))
  {
  }

  lemma Unequal(d: bv8)
    ensures d != 0 ==> 0xF5 ^ d != 0xF5
    ensures d != 0xF5 ==> 0 ^ d != 0xF5
    ensures d == 0xF5 ==> 1 ^ d != 0xF5
  {
  }

  lemma GapsStep(k: nat)
    requires k < 24
    ensures Gaps(k + 1) == Xor(Shift8(Gaps(k)), Error(Steered(k))) && (Steered(k) ==> Lower(Gaps(k)) != 0)
    ensures Plain(k + 1) == Shift8(Plain(k))
  {
    hide Shift8, Xor, Lower, Steered, Gap;
    GapValue();
    if k < 8 {
      Gaps0(k);
      Plain0();
    } else if k < 16 {
      Gaps1(k);
      Plain1();
    } else {
      Gaps2(k);
      Plain2();
    }
  }

  lemma GapValue()
    ensures Gap() == 0x20
  {
  }

  lemma Plain0()
    ensures Shift8(0xEDB88320) == 0x3B83984B && Shift8(0x3B83984B) == 0xE1351B80
         && Shift8(0xE1351B80) == 0xED59B63B && Shift8(0xED59B63B) == 0xB1E6B092
         && Shift8(0xB1E6B092) == 0x1EB014D8 && Shift8(0x1EB014D8) == 0x8816EAF2
         && Shift8(0x8816EAF2) == 0x533B85DA && Shift8(0x533B85DA) == 0x6655004F
  {
  }

  lemma Gaps0(k: nat)
    requires 0 <= k < 8
    ensures Gaps(k + 1) == Xor(Shift8(Gaps(k)), if Steered(k) then 0x20 else 0) && (Steered(k) ==> Lower(Gaps(k)) != 0)
  {
    hide Shift8, Xor, Lower;
    Gapped0();
  }

  lemma Gapped0()
    ensures Xor(Shift8(0xEDB88320), 0x20) == 0x3B83986B && Lower(0xEDB88320) != 0
         && Xor(Shift8(0x3B83986B), 0x20) == 0xDA5B3B68 && Lower(0x3B83986B) != 0
         && Xor(Shift8(0xDA5B3B68), 0x20) == 0x43B3B271 && Lower(0xDA5B3B68) != 0
         && Xor(Shift8(0x43B3B271), 0x20) == 0x2741F238 && Lower(0x43B3B271) != 0
         && Xor(Shift8(0x2741F238), 0) == 0x2825F96C
         && Xor(Shift8(0x2825F96C), 0x20) == 0x442C08AA && Lower(0x2825F96C) != 0
         && Xor(Shift8(0x442C08AA), 0x20) == 0x364766DE && Lower(0x442C08AA) != 0
         && Xor(Shift8(0x364766DE), 0) == 0x615DB8B5
  {
  }

  lemma Plain1()
    ensures Shift8(0x6655004F) == 0xE6050901 && Shift8(0xE6050901) == 0x77E1359F
         && Shift8(0x77E1359F) == 0x60C76FE0 && Shift8(0x60C76FE0) == 0xA06A2517
         && Shift8(0xA06A2517) == 0x8373EFE2 && Shift8(0x8373EFE2) == 0x4E87F0BB
         && Shift8(0x4E87F0BB) == 0x5CFDEDF4 && Shift8(0x5CFDEDF4) == 0xBA8CCBE8
  {
  }

  lemma Gaps1(k: nat)
    requires 8 <= k < 16
    ensures Gaps(k + 1) == Xor(Shift8(Gaps(k)), if Steered(k) then 0x20 else 0) && (Steered(k) ==> Lower(Gaps(k)) != 0)
  {
    hide Shift8, Xor, Lower;
    Gapped1();
  }

  lemma Gapped1()
    ensures Xor(Shift8(0x615DB8B5), 0x20) == 0xBB6A1A9B && Lower(0x615DB8B5) != 0
         && Xor(Shift8(0xBB6A1A9B), 0) == 0x676620D6
         && Xor(Shift8(0x676620D6), 0) == 0x6FD711C1
         && Xor(Shift8(0x6FD711C1), 0) == 0xEC0C2537
         && Xor(Shift8(0xEC0C2537), 0x20) == 0xB851A90A && Lower(0xEC0C2537) != 0
         && Xor(Shift8(0xB851A90A), 0x20) == 0xE06DB897 && Lower(0xB851A90A) != 0
         && Xor(Shift8(0xE06DB897), 0) == 0x6E8B6B5F
         && Xor(Shift8(0x6E8B6B5F), 0x20) == 0xFBBAC72E && Lower(0x6E8B6B5F) != 0
  {
  }

  lemma Plain2()
    ensures Shift8(0xBA8CCBE8) == 0xAE6BE681 && Shift8(0xAE6BE681) == 0x9A11D850
         && Shift8(0x9A11D850) == 0x6BF1402C && Shift8(0x6BF1402C) == 0x32B39DA3
         && Shift8(0x32B39DA3) == 0x4FED41CF && Shift8(0x4FED41CF) == 0x0B943260
         && Shift8(0x0B943260) == 0x4DB9F56A && Shift8(0x4DB9F56A) == 0xAD2A31B3
  {
  }

  lemma Gaps2(k: nat)
    requires 16 <= k < 24
    ensures Gaps(k + 1) == Xor(Shift8(Gaps(k)), if Steered(k) then 0x20 else 0) && (Steered(k) ==> Lower(Gaps(k)) != 0)
  {
    hide Shift8, Xor, Lower;
    Gapped2();
  }

  lemma Gapped2()
    ensures Xor(Shift8(0xFBBAC72E), 0) == 0xDC2DB708
         && Xor(Shift8(0xDC2DB708), 0) == 0x0E07A585
         && Xor(Shift8(0x0E07A585), 0x20) == 0x9DDC702A && Lower(0x0E07A585) != 0
         && Xor(Shift8(0x9DDC702A), 0x20) == 0xDB261586 && Lower(0x9DDC702A) != 0
         && Xor(Shift8(0xDB261586), 0) == 0x04000000
         && Xor(Shift8(0x04000000), 0) == 0x00040000
         && Xor(Shift8(0x00040000), 0) == 0x00000400
         && Xor(Shift8(0x00000400), 0) == 0x00000004
  {
  }

  /** Common bytes that steer the difference to the end. */
  lemma {:induction false} Steer(x: bv32, y: bv32, u: bv32, v: bv32, k: nat) returns (data: seq<u8>)
    requires k <= 24 && Xor(x, y) == Gaps(k) && Xor(u, v) == Plain(k)
    ensures |data| == 24 - k
    ensures Xor(Fold(x, data), Fold(y, data)) == Gaps(24)
    ensures Xor(StandardFold(u, data), StandardFold(v, data)) == Plain(24)
    decreases 24 - k
  {
    hide Xor, Shift8, Widen, Index, Error, Update, StandardUpdate, Bits, Gaps, Plain, Steered, Lower;
    if k == 24 {
      data := [];
    } else {
      var b := SteeringByte(x, y, Steered(k));
      var p := Bits(b);
      GapsStep(k);
      DifferenceStep(x, p, y, p);
      DifferenceStep(u, p, v, p);
      SameByte(Gaps(k), Widen(p));
      SameByte(Plain(k), Widen(p));
      ErrorSum(Index(x, p) == 0xF5, Index(y, p) == 0xF5);
      var rest := Steer(Update(x, p), Update(y, p), StandardUpdate(u, p), StandardUpdate(v, p), k + 1);
      data := [b] + rest;
      assert data[1..] == rest;
    }
  }

  lemma SameByte(d: bv32, w: bv32)
    ensures Xor(d, Xor(w, w)) == d
  {
  }

  lemma ErrorSum(hit: bool, other: bool)
    ensures !other ==> Xor(Error(hit), Error(other)) == Error(hit)
    ensures hit == other ==> Xor(Error(hit), Error(other)) == 0
  {
    hide Gap;
  }


  /** Two messages of 26 bytes that differ in one bit of the first byte and one bit of the last have equal checksums,
      and different CRC-32 values. */
  lemma TwoBitErrorMissed() returns (a: seq<u8>, b: seq<u8>)
    ensures |a| == |b| == 26 && a[1..25] == b[1..25]
    ensures Bits(a[0]) ^ Bits(b[0]) == 0x80 && Bits(a[25]) ^ Bits(b[25]) == 0x04
    ensures Crc32(a) == Crc32(b) && StandardCrc32(a) != StandardCrc32(b)
  {
    hide Bits, Update, StandardUpdate, StandardCrc32, Crc.Finish, Gaps, Plain;
    var a0 := ByteFor(INIT, 0);
    var b0 := BitsOnto(Bits(a0) ^ 0x80);
    var a25 := BitsOnto(0);
    var b25 := BitsOnto(4);
    FirstByte(Bits(a0), Bits(b0));
    var x, y := Update(INIT, Bits(a0)), Update(INIT, Bits(b0));
    var u, v := StandardUpdate(INIT, Bits(a0)), StandardUpdate(INIT, Bits(b0));
    var data := Steer(x, y, u, v, 0);
    a, b := [a0] + data + [a25], [b0] + data + [b25];
    Framed(a0, data, a25);
    Framed(b0, data, b25);
    LastByte(Fold(x, data), Fold(y, data), StandardFold(u, data), StandardFold(v, data), Bits(a25), Bits(b25));
    OneBit(Bits(a0));
    StandardIsFinished(a);
    StandardIsFinished(b);
    if StandardCrc32(a) == StandardCrc32(b) {
      FinishInjective(StandardFold(INIT, a), StandardFold(INIT, b));
    }
  }

  lemma OneBit(p: bv8)
    ensures p ^ (p ^ 0x80) == 0x80
  {
  }

  lemma Framed(first: u8, data: seq<u8>, last: u8)
    ensures Fold(INIT, [first] + data + [last]) == Update(Fold(Update(INIT, Bits(first)), data), Bits(last))
    ensures StandardFold(INIT, [first] + data + [last]) ==
            StandardUpdate(StandardFold(StandardUpdate(INIT, Bits(first)), data), Bits(last))
  {
    hide Update, StandardUpdate, Bits;
    FoldConcat(INIT, [first] + data, [last]);
    FoldConcat(INIT, [first], data);
    StandardFoldConcat(INIT, [first] + data, [last]);
    StandardFoldConcat(INIT, [first], data);
    OneByte(INIT, first);
    OneByte(Fold(INIT, [first] + data), last);
    OneByte(StandardFold(INIT, [first] + data), last);
  }

  lemma {:induction false} StandardFoldConcat(crc: bv32, a: seq<u8>, b: seq<u8>)
    ensures StandardFold(crc, a + b) == StandardFold(StandardFold(crc, a), b)
    decreases |a|
  {
    hide StandardUpdate, Bits;
    if a == [] {
      assert a + b == b;
    } else {
      assert (a + b)[1..] == a[1..] + b;
      StandardFoldConcat(StandardUpdate(crc, Bits(a[0])), a[1..], b);
    }
  }

  lemma FirstByte(p: bv8, q: bv8)
    ensures Index(INIT, p) == 0 && q == p ^ 0x80 ==>
              && Xor(Update(INIT, p), Update(INIT, q)) == Gaps(0)
              && Xor(StandardUpdate(INIT, p), StandardUpdate(INIT, q)) == Plain(0)
  {
    hide Xor, Shift8, Error, Update, StandardUpdate, Index;
    DifferenceStep(INIT, p, INIT, q);
    FirstIndex(p, q);
    FirstDifference(p, q);
    ErrorSum(false, false);
    FirstShift();
    XorZeroes(Shift8(0x80));
  }

  lemma FirstIndex(p: bv8, q: bv8)
    ensures Index(INIT, p) == 0 && q == p ^ 0x80 ==> Index(INIT, q) == 0x80
  {
  }

  lemma FirstDifference(p: bv8, q: bv8)
    ensures q == p ^ 0x80 ==> Xor(Xor(INIT, INIT), Xor(Widen(p), Widen(q))) == 0x80
  {
  }

  lemma FirstShift()
    ensures Shift8(0x80) == Gaps(0) == Plain(0)
  {
  }

  lemma XorZeroes(x: bv32)
    ensures Xor(x, 0) == x
  {
  }

  lemma LastByte(x: bv32, y: bv32, u: bv32, v: bv32, p: bv8, q: bv8)
    ensures Xor(x, y) == Gaps(24) && Xor(u, v) == Plain(24) && p == 0 && q == 4 ==>
              Update(x, p) == Update(y, q) && StandardUpdate(u, p) != StandardUpdate(v, q)
  {
    hide Xor, Shift8, Error, Update, StandardUpdate, Index, Gaps, Plain, Widen;
    DifferenceStep(x, p, y, q);
    DifferenceStep(u, p, v, q);
    LastDifference(x, y, p, q);
    ErrorSum(Index(x, p) == 0xF5, Index(y, q) == 0xF5);
    XorCancels(Update(x, p), Update(y, q));
    XorCancels(StandardUpdate(u, p), StandardUpdate(v, q));
    XorZeroes(0);
  }

  lemma LastDifference(x: bv32, y: bv32, p: bv8, q: bv8)
    ensures Xor(x, y) == Gaps(24) && p == 0 && q == 4 ==> Index(x, p) == Index(y, q)
    ensures p == 0 && q == 4 ==> Shift8(Xor(Gaps(24), Xor(Widen(p), Widen(q)))) == 0
    ensures p == 0 && q == 4 ==> Shift8(Xor(Plain(24), Xor(Widen(p), Widen(q)))) != 0
  {
  }
}
