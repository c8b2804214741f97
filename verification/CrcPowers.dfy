/** One wrong bit, carried on by 0 to 32 bytes of CRC-32. No sum of the first 32 of these words vanishes; a sum
    of fifteen of all 33 does. */
module CrcPowers {
  import opened CrcTable

  /** The difference between the table's entry 0xF5 and the polynomial's. */
  function Gap(): bv32 { Xor(Table(0xF5), Entry(0xF5)) }

  /** The gap after k more bytes. */
  function Power(k: nat): bv32 {
    if k == 0 then 0x00000020 else if k == 1 then 0x3B6E20C8 else if k == 2 then 0x958424A2
    else if k == 3 then 0x384D46E0 else if k == 4 then 0xA032AF3E else if k == 5 then 0xC1C12F04
    else if k == 6 then 0x07AC0536 else if k == 7 then 0xCFBD399C else if k == 8 then 0xF9766256
    else if k == 9 then 0x82F182A3 else if k == 10 then 0x4F5D03D0 else if k == 11 then 0x869C8FD7
    else if k == 12 then 0x1831DBF8 else if k == 13 then 0xB37E4BF5 else if k == 14 then 0xCD6478D8
    else if k == 15 then 0x88C53E9E else if k == 16 then 0x173F7B7D else if k == 17 then 0x2EA332FA
    else if k == 18 then 0x5D46B830 else if k == 19 then 0x26847614 else if k == 20 then 0x1AFC500B
    else if k == 21 then 0x97C825D8 else if k == 22 then 0x889F92C3 else if k == 23 then 0x02E50C98
    else if k == 24 then 0xFED6FE7A else if k == 25 then 0xB02E4EDC else if k == 26 then 0x8FD5B0B1
    else if k == 27 then 0xBCE956AA else if k == 28 then 0x36BFA3A0 else if k == 29 then 0xD6E01C4B
    else if k == 30 then 0xE1D87804 else if k == 31 then 0x078C1C61 else 0x3AB2DDD2
  }

  lemma GapIsPower0()
    ensures Gap() == Power(0)
  {
  }

  lemma PowerStep(k: nat)
    requires k < 32
    ensures Power(k + 1) == Shift8(Power(k))
  {
    hide Shift8;
    Shifted0();
    Shifted1();
    Shifted2();
    Shifted3();
  }

  lemma Shifted0()
    ensures Shift8(0x00000020) == 0x3B6E20C8 && Shift8(0x3B6E20C8) == 0x958424A2
         && Shift8(0x958424A2) == 0x384D46E0 && Shift8(0x384D46E0) == 0xA032AF3E
         && Shift8(0xA032AF3E) == 0xC1C12F04 && Shift8(0xC1C12F04) == 0x07AC0536
         && Shift8(0x07AC0536) == 0xCFBD399C && Shift8(0xCFBD399C) == 0xF9766256
  {
  }

  lemma Shifted1()
    ensures Shift8(0xF9766256) == 0x82F182A3 && Shift8(0x82F182A3) == 0x4F5D03D0
         && Shift8(0x4F5D03D0) == 0x869C8FD7 && Shift8(0x869C8FD7) == 0x1831DBF8
         && Shift8(0x1831DBF8) == 0xB37E4BF5 && Shift8(0xB37E4BF5) == 0xCD6478D8
         && Shift8(0xCD6478D8) == 0x88C53E9E && Shift8(0x88C53E9E) == 0x173F7B7D
  {
  }

  lemma Shifted2()
    ensures Shift8(0x173F7B7D) == 0x2EA332FA && Shift8(0x2EA332FA) == 0x5D46B830
         && Shift8(0x5D46B830) == 0x26847614 && Shift8(0x26847614) == 0x1AFC500B
         && Shift8(0x1AFC500B) == 0x97C825D8 && Shift8(0x97C825D8) == 0x889F92C3
         && Shift8(0x889F92C3) == 0x02E50C98 && Shift8(0x02E50C98) == 0xFED6FE7A
  {
  }

  lemma Shifted3()
    ensures Shift8(0xFED6FE7A) == 0xB02E4EDC && Shift8(0xB02E4EDC) == 0x8FD5B0B1
         && Shift8(0x8FD5B0B1) == 0xBCE956AA && Shift8(0xBCE956AA) == 0x36BFA3A0
         && Shift8(0x36BFA3A0) == 0xD6E01C4B && Shift8(0xD6E01C4B) == 0xE1D87804
         && Shift8(0xE1D87804) == 0x078C1C61 && Shift8(0x078C1C61) == 0x3AB2DDD2
  {
  }

  // ---------- A parity that only the word after 31 bytes has ----------

  function Right16(x: bv32): bv32 { x >> 16 }

  function Half16(x: bv32): bv32 { Xor(x, Right16(x)) }

  function Right8(x: bv32): bv32 { x >> 8 }

  function Half8(x: bv32): bv32 { Xor(x, Right8(x)) }

  function Right4(x: bv32): bv32 { x >> 4 }

  function Half4(x: bv32): bv32 { Xor(x, Right4(x)) }

  function Right2(x: bv32): bv32 { x >> 2 }

  function Half2(x: bv32): bv32 { Xor(x, Right2(x)) }

  function Right1(x: bv32): bv32 { x >> 1 }

  function Half1(x: bv32): bv32 { Xor(x, Right1(x)) }

  function Probed(x: bv32): bv32 { x & 0xCBA42E01 }

  predicate Odd(x: bv32) { x & 1 == 1 }

  /** The parity of certain bits of x. */
  predicate Probe(x: bv32) { Odd(Half1(Half2(Half4(Half8(Half16(Probed(x))))))) }

  lemma Associate(a: bv32, b: bv32, c: bv32)
    ensures Xor(Xor(a, b), c) == Xor(a, Xor(b, c))
  {
  }

  lemma Commute(a: bv32, b: bv32)
    ensures Xor(a, b) == Xor(b, a)
  {
  }

  lemma Interchange(a: bv32, b: bv32, c: bv32, d: bv32)
    ensures Xor(Xor(a, b), Xor(c, d)) == Xor(Xor(a, c), Xor(b, d))
  {
    hide Xor;
    Associate(a, b, Xor(c, d));
    Associate(b, c, d);
    Associate(c, b, d);
    Associate(a, c, Xor(b, d));
    Commute(b, c);
  }

  lemma Right16Xor(x: bv32, y: bv32)
    ensures Right16(Xor(x, y)) == Xor(Right16(x), Right16(y))
  {
    assert (x ^ y) >> 16 == (x >> 16) ^ (y >> 16);
  }

  lemma Half16Xor(x: bv32, y: bv32)
    ensures Half16(Xor(x, y)) == Xor(Half16(x), Half16(y))
  {
    hide Xor, Right16;
    Right16Xor(x, y);
    Interchange(x, y, Right16(x), Right16(y));
  }

  lemma Right8Xor(x: bv32, y: bv32)
    ensures Right8(Xor(x, y)) == Xor(Right8(x), Right8(y))
  {
    assert (x ^ y) >> 8 == (x >> 8) ^ (y >> 8);
  }

  lemma Half8Xor(x: bv32, y: bv32)
    ensures Half8(Xor(x, y)) == Xor(Half8(x), Half8(y))
  {
    hide Xor, Right8;
    Right8Xor(x, y);
    Interchange(x, y, Right8(x), Right8(y));
  }

  lemma Right4Xor(x: bv32, y: bv32)
    ensures Right4(Xor(x, y)) == Xor(Right4(x), Right4(y))
  {
    assert (x ^ y) >> 4 == (x >> 4) ^ (y >> 4);
  }

  lemma Half4Xor(x: bv32, y: bv32)
    ensures Half4(Xor(x, y)) == Xor(Half4(x), Half4(y))
  {
    hide Xor, Right4;
    Right4Xor(x, y);
    Interchange(x, y, Right4(x), Right4(y));
  }

  lemma Right2Xor(x: bv32, y: bv32)
    ensures Right2(Xor(x, y)) == Xor(Right2(x), Right2(y))
  {
    assert (x ^ y) >> 2 == (x >> 2) ^ (y >> 2);
  }

  lemma Half2Xor(x: bv32, y: bv32)
    ensures Half2(Xor(x, y)) == Xor(Half2(x), Half2(y))
  {
    hide Xor, Right2;
    Right2Xor(x, y);
    Interchange(x, y, Right2(x), Right2(y));
  }

  lemma Right1Xor(x: bv32, y: bv32)
    ensures Right1(Xor(x, y)) == Xor(Right1(x), Right1(y))
  {
    assert (x ^ y) >> 1 == (x >> 1) ^ (y >> 1);
  }

  lemma Half1Xor(x: bv32, y: bv32)
    ensures Half1(Xor(x, y)) == Xor(Half1(x), Half1(y))
  {
    hide Xor, Right1;
    Right1Xor(x, y);
    Interchange(x, y, Right1(x), Right1(y));
  }

  lemma ProbedXor(x: bv32, y: bv32)
    ensures Probed(Xor(x, y)) == Xor(Probed(x), Probed(y))
  {
  }

  lemma OddXor(x: bv32, y: bv32)
    ensures Odd(Xor(x, y)) <==> Odd(x) != Odd(y)
  {
  }

  lemma ProbeXor(x: bv32, y: bv32)
    ensures Probe(Xor(x, y)) <==> Probe(x) != Probe(y)
  {
    hide Half16, Half8, Half4, Half2, Half1, Probed, Odd, Xor;
    ProbedXor(x, y);
    var x0, y0 := Probed(x), Probed(y);
    Half16Xor(x0, y0);
    var x1, y1 := Half16(x0), Half16(y0);
    Half8Xor(x1, y1);
    var x2, y2 := Half8(x1), Half8(y1);
    Half4Xor(x2, y2);
    var x3, y3 := Half4(x2), Half4(y2);
    Half2Xor(x3, y3);
    var x4, y4 := Half2(x3), Half2(y3);
    Half1Xor(x4, y4);
    OddXor(Half1(x4), Half1(y4));
  }

  lemma ProbeZero()
    ensures !Probe(0)
  {
  }

  lemma ProbePower(k: nat)
    requires k < 32
    ensures Probe(Power(k)) <==> k == 31
  {
    hide Probe;
    Probed0();
    Probed1();
    Probed2();
    Probed3();
  }

  lemma Probed0()
    ensures !Probe(0x00000020) && !Probe(0x3B6E20C8) && !Probe(0x958424A2) && !Probe(0x384D46E0)
         && !Probe(0xA032AF3E) && !Probe(0xC1C12F04) && !Probe(0x07AC0536) && !Probe(0xCFBD399C)
  {
  }

  lemma Probed1()
    ensures !Probe(0xF9766256) && !Probe(0x82F182A3) && !Probe(0x4F5D03D0) && !Probe(0x869C8FD7)
         && !Probe(0x1831DBF8) && !Probe(0xB37E4BF5) && !Probe(0xCD6478D8) && !Probe(0x88C53E9E)
  {
  }

  lemma Probed2()
    ensures !Probe(0x173F7B7D) && !Probe(0x2EA332FA) && !Probe(0x5D46B830) && !Probe(0x26847614)
         && !Probe(0x1AFC500B) && !Probe(0x97C825D8) && !Probe(0x889F92C3) && !Probe(0x02E50C98)
  {
  }

  lemma Probed3()
    ensures !Probe(0xFED6FE7A) && !Probe(0xB02E4EDC) && !Probe(0x8FD5B0B1) && !Probe(0xBCE956AA)
         && !Probe(0x36BFA3A0) && !Probe(0xD6E01C4B) && !Probe(0xE1D87804) && Probe(0x078C1C61)
  {
  }

  /** The coefficients of the polynomial. */
  predicate Coefficient(k: nat) { k in {0, 1, 2, 4, 5, 7, 8, 10, 11, 12, 16, 22, 23, 26, 32} }

  /** The sum of the words below k that the polynomial picks. */
  function Picked(k: nat): bv32 {
    if k == 0 then 0 else Xor(if Coefficient(k - 1) then Power(k - 1) else 0, Picked(k - 1))
  }

  lemma PickedBelow9()
    ensures Picked(9) == 0xF9D2DFBA
  {
    assert Picked(5) == 0x0ED8AB74;
  }

  lemma PickedBelow17()
    ensures Picked(17) == 0x3F1DF338
  {
    PickedBelow9();
    assert Picked(13) == 0x28228845;
  }

  lemma PickedBelow32()
    ensures Picked(32) == 0x3AB2DDD2
  {
    PickedBelow17();
    assert Picked(24) == 0xB5676D63;
  }

  /** The fifteen words that the polynomial itself picks cancel. */
  lemma PolynomialVanishes()
    ensures Picked(33) == 0
  {
    PickedBelow32();
  }
}
