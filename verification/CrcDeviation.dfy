/** How far the checksum is from CRC-32: the exact error of every message, position by position. */
module CrcDeviation {
  import opened Machine
  import opened CrcTable
  import opened CrcPowers
  import opened Crc

  /** What an error has become after n more bytes of CRC-32. */
  function Later(e: bv32, n: nat): bv32
    decreases n
  {
    if n == 0 then e else Later(Shift8(e), n - 1)
  }

  /** Which bytes of data look up entry 0xF5. */
  function Lookups(crc: bv32, data: seq<u8>): (ls: seq<bool>)
    ensures |ls| == |data|
    decreases |data|
  {
    if data == [] then []
    else [Index(crc, Bits(data[0])) == 0xF5] + Lookups(Update(crc, Bits(data[0])), data[1..])
  }

  function Error(hit: bool): bv32 { if hit then Gap() else 0 }

  /** The sum, over the positions that look up entry 0xF5, of the gap carried to the end. */
  function Deviation(ls: seq<bool>): bv32 {
    if ls == [] then 0 else Xor(Later(Error(ls[0]), |ls| - 1), Deviation(ls[1..]))
  }

  /** The real CRC-32 of section 8 of RFC 1952: the register starts with all bits set, and its complement is the
      result. */
  function StandardCrc32(data: seq<u8>): u32 { Complement(StandardFold(0xFFFF_FFFF, data)) }

  function Complement(crc: bv32): u32 { (crc ^ 0xFFFF_FFFF) as int }

  // ---------- Linearity ----------

  lemma XorLaws(x: bv32, y: bv32, z: bv32)
    ensures Xor(Xor(x, y), z) == Xor(x, Xor(y, z)) && Xor(x, y) == Xor(y, x)
    ensures Xor(x, 0) == x && Xor(x, x) == 0
    ensures Xor(x, y) == x <==> y == 0
  {
  }

  lemma {:induction false} LaterOfZero(n: nat)
    ensures Later(0, n) == 0
  {
    if n > 0 {
      ShiftOfZero();
      LaterOfZero(n - 1);
    }
  }

  lemma ShiftOfZero()
    ensures Shift8(0) == 0
  {
  }

  lemma StepXor(s: bv32, e: bv32, b: bv8)
    ensures StandardUpdate(Xor(s, e), b) == Xor(StandardUpdate(s, b), Shift8(e))
  {
    hide Xor, Shift8, Widen;
    XorLaws(s, e, Widen(b));
    XorLaws(s, Widen(b), e);
    XorLaws(e, Widen(b), 0);
    Shift8Xor(Xor(s, Widen(b)), e);
  }

  /** CRC-32 carries an error in its register along, whatever the data. */
  lemma {:induction false} StandardFoldXor(s: bv32, e: bv32, data: seq<u8>)
    ensures StandardFold(Xor(s, e), data) == Xor(StandardFold(s, data), Later(e, |data|))
    decreases |data|
  {
    hide Xor, Shift8, StandardUpdate, Bits;
    if data != [] {
      var b := Bits(data[0]);
      StepXor(s, e, b);
      StandardFoldXor(StandardUpdate(s, b), Shift8(e), data[1..]);
    }
  }

  /** One table step is one CRC-32 step plus the error of its lookup. */
  lemma UpdateDeviates(crc: bv32, b: bv8)
    ensures Update(crc, b) == Xor(StandardUpdate(crc, b), Error(Index(crc, b) == 0xF5))
  {
    hide Table, Entry, Shift8, Xor, Down, Widen, Lower;
    var x := Xor(crc, Widen(b));
    var t, e := Table(Index(crc, b)), Entry(Index(crc, b));
    ShiftOfWord(x);
    DownOfMixed(crc, b);
    TableIsCrc(Index(crc, b));
    XorLaws(Down(crc), e, Error(Index(crc, b) == 0xF5));
    XorLaws(e, t, t);
    XorLaws(e, e, t);
    XorLaws(t, e, 0);
    XorLaws(t, 0, 0);
    XorLaws(e, 0, 0);
    XorLaws(0, t, 0);
  }

  /** The fold is CRC-32 plus the deviation of its lookups. */
  lemma {:induction false} FoldDeviates(crc: bv32, data: seq<u8>)
    ensures Fold(crc, data) == Xor(StandardFold(crc, data), Deviation(Lookups(crc, data)))
    decreases |data|
  {
    hide Xor, Update, StandardUpdate, Bits, Error, Index;
    if data == [] {
      XorLaws(crc, 0, 0);
    } else {
      var b, rest := Bits(data[0]), data[1..];
      var e := Error(Index(crc, b) == 0xF5);
      var next := Update(crc, b);
      UpdateDeviates(crc, b);
      FoldDeviates(next, rest);
      StandardFoldXor(StandardUpdate(crc, b), e, rest);
      XorLaws(StandardFold(StandardUpdate(crc, b), rest), Later(e, |rest|), Deviation(Lookups(next, rest)));
      assert Lookups(crc, data)[1..] == Lookups(next, rest);
    }
  }

  lemma StandardIsFinished(data: seq<u8>)
    ensures StandardCrc32(data) == Crc.Finish(StandardFold(INIT, data))
  {
    hide StandardFold, Complement, Crc.Finish;
    Complemented(StandardFold(INIT, data));
  }

  lemma Complemented(crc: bv32)
    ensures Crc.Finish(crc) == Complement(crc)
  {
  }

  /** The checksum of a message is its CRC-32 exactly when the errors of its lookups of entry 0xF5, each
      carried to the end of the message, cancel. */
  lemma IsCrc32Exactly(data: seq<u8>)
    ensures Crc32(data) == StandardCrc32(data) <==> Deviation(Lookups(INIT, data)) == 0
  {
    hide Fold, StandardFold, StandardCrc32, Lookups, Deviation, Crc.Finish, Xor;
    var s, d := StandardFold(INIT, data), Deviation(Lookups(INIT, data));
    StandardIsFinished(data);
    FoldDeviates(INIT, data);
    XorLaws(s, d, 0);
    if Crc32(data) == StandardCrc32(data) {
      FinishInjective(Fold(INIT, data), s);
    }
  }

  /** The empty message has checksum zero, as under CRC-32. */
  lemma EmptyChecksum()
    ensures Crc32([]) == 0 == StandardCrc32([])
  {
  }

  // ---------- The check value ----------

  /** One byte on a register, for CRC-32 and, as entry 0xF5 is not looked up, for the checksum. */
  lemma OneStep(crc: bv32, data: seq<u8>, i: nat, b: bv8, next: bv32)
    requires i < |data| && Bits(data[i]) == b && StandardUpdate(crc, b) == next && Index(crc, b) != 0xF5
    ensures StandardFold(crc, data[i..]) == StandardFold(next, data[i + 1..])
    ensures Fold(crc, data[i..]) == Fold(next, data[i + 1..])
  {
    hide Update, StandardUpdate, Bits, Index;
    assert data[i..][1..] == data[i + 1..];
    UpdateIsStandard(crc, b);
  }

  lemma DigitBits()
    ensures Bits(0x31) == 0x31 && Bits(0x32) == 0x32 && Bits(0x33) == 0x33
    ensures Bits(0x34) == 0x34 && Bits(0x35) == 0x35 && Bits(0x36) == 0x36
    ensures Bits(0x37) == 0x37 && Bits(0x38) == 0x38 && Bits(0x39) == 0x39
  {
    assert (3 as bv4, 1 as bv4, 2 as bv4, 4 as bv4, 5 as bv4, 6 as bv4) == (3, 1, 2, 4, 5, 6);
    assert (7 as bv4, 8 as bv4, 9 as bv4) == (7, 8, 9);
  }

  lemma DigitSteps()
    ensures StandardUpdate(0xFFFFFFFF, 0x31) == 0x7C231048
         && StandardUpdate(0x7C231048, 0x32) == 0xB0ACBB32
         && StandardUpdate(0xB0ACBB32, 0x33) == 0x77B79C2D
         && StandardUpdate(0x77B79C2D, 0x34) == 0x641C1F5C
         && StandardUpdate(0x641C1F5C, 0x35) == 0x340AC5E3
         && StandardUpdate(0x340AC5E3, 0x36) == 0xF68D2C9E
         && StandardUpdate(0xF68D2C9E, 0x37) == 0xAFFC9660
         && StandardUpdate(0xAFFC9660, 0x38) == 0x651F2550
         && StandardUpdate(0x651F2550, 0x39) == 0x340BC6D9
  {
  }

  lemma DigitLookups()
    ensures Index(0xFFFFFFFF, 0x31) != 0xF5 && Index(0x7C231048, 0x32) != 0xF5 && Index(0xB0ACBB32, 0x33) != 0xF5
         && Index(0x77B79C2D, 0x34) != 0xF5 && Index(0x641C1F5C, 0x35) != 0xF5 && Index(0x340AC5E3, 0x36) != 0xF5
         && Index(0xF68D2C9E, 0x37) != 0xF5 && Index(0xAFFC9660, 0x38) != 0xF5 && Index(0x651F2550, 0x39) != 0xF5
  {
  }

  const DIGITS: seq<u8> := [0x31, 0x32, 0x33, 0x34, 0x35, 0x36, 0x37, 0x38, 0x39]

  lemma DigitsFold()
    ensures StandardFold(INIT, DIGITS) == 0x340BC6D9 && Fold(INIT, DIGITS) == 0x340BC6D9
  {
    hide StandardUpdate, StandardFold, Fold, Bits, Index;
    DigitLookups();
    var data := DIGITS;
    DigitBits();
    DigitSteps();
    assert data[0..] == data;
    OneStep(0xFFFFFFFF, data, 0, 0x31, 0x7C231048);
    OneStep(0x7C231048, data, 1, 0x32, 0xB0ACBB32);
    OneStep(0xB0ACBB32, data, 2, 0x33, 0x77B79C2D);
    OneStep(0x77B79C2D, data, 3, 0x34, 0x641C1F5C);
    OneStep(0x641C1F5C, data, 4, 0x35, 0x340AC5E3);
    OneStep(0x340AC5E3, data, 5, 0x36, 0xF68D2C9E);
    OneStep(0xF68D2C9E, data, 6, 0x37, 0xAFFC9660);
    OneStep(0xAFFC9660, data, 7, 0x38, 0x651F2550);
    OneStep(0x651F2550, data, 8, 0x39, 0x340BC6D9);
    assert data[9..] == [];
    NothingFolded(0x340BC6D9);
  }

  lemma DigitsFinish()
    ensures Complement(0x340BC6D9) == 0xCBF4_3926
  {
    assert 0x340BC6D9 ^ 0xFFFF_FFFF == (0xCBF4_3926 as bv32);
  }

  /** The customary check: the nine digits 1 to 9 give 0xCBF43926. */
  lemma CheckValue()
    ensures StandardCrc32(DIGITS) == 0xCBF4_3926 && Crc32(DIGITS) == 0xCBF4_3926
  {
    hide StandardFold, Fold, Complement, Crc.Finish;
    DigitsFold();
    DigitsFinish();
    Complemented(0x340BC6D9);
  }

  lemma NothingFolded(crc: bv32)
    ensures StandardFold(crc, []) == crc && Fold(crc, []) == crc
  {
  }

  // ---------- Lookups close together ----------

  lemma {:induction false} LaterXor(x: bv32, y: bv32, n: nat)
    ensures Later(Xor(x, y), n) == Xor(Later(x, n), Later(y, n))
    decreases n
  {
    hide Xor, Shift8;
    if n > 0 {
      Shift8Xor(x, y);
      LaterXor(Shift8(x), Shift8(y), n - 1);
    }
  }

  lemma {:induction false} LaterTwice(e: bv32, m: nat, n: nat)
    ensures Later(Later(e, m), n) == Later(e, m + n)
    decreases m
  {
    hide Shift8;
    if m > 0 {
      LaterTwice(Shift8(e), m - 1, n);
    }
  }

  lemma {:induction false} LaterNonZero(e: bv32, n: nat)
    requires e != 0
    ensures Later(e, n) != 0
    decreases n
  {
    hide Shift8;
    if n > 0 {
      ShiftNonZero(e);
      LaterNonZero(Shift8(e), n - 1);
    }
  }

  lemma ShiftNonZero(e: bv32)
    ensures Shift8(e) == 0 ==> e == 0
  {
    hide Shift;
    OnceNonZero(e);
    OnceNonZero(Shift(e));
    OnceNonZero(Shift2(e));
    OnceNonZero(Shift(Shift2(e)));
    OnceNonZero(Shift4(e));
    OnceNonZero(Shift(Shift4(e)));
    OnceNonZero(Shift2(Shift4(e)));
    OnceNonZero(Shift(Shift2(Shift4(e))));
  }

  lemma OnceNonZero(e: bv32)
    ensures Shift(e) == 0 ==> e == 0
  {
  }

  lemma {:induction false} LaterIsPower(k: nat)
    requires k <= 32
    ensures Later(Gap(), k) == Power(k)
  {
    hide Shift8, Gap, Power;
    if k == 0 {
      GapIsPower0();
    } else {
      LaterIsPower(k - 1);
      LaterTwice(Gap(), k - 1, 1);
      assert Later(Power(k - 1), 1) == Later(Shift8(Power(k - 1)), 0);
      PowerStep(k - 1);
    }
  }

  function Quiet(n: nat): seq<bool> { seq(n, _ => false) }

  lemma {:induction false} QuietDeviation(n: nat)
    ensures Deviation(Quiet(n)) == 0
  {
    hide Xor;
    if n > 0 {
      assert Quiet(n)[1..] == Quiet(n - 1);
      QuietDeviation(n - 1);
      LaterOfZero(n - 1);
      XorLaws(0, 0, 0);
    }
  }

  lemma {:induction false} QuietEnd(ls: seq<bool>, n: nat)
    ensures Deviation(ls + Quiet(n)) == Later(Deviation(ls), n)
  {
    hide Xor, Error, Shift8;
    if ls == [] {
      assert ls + Quiet(n) == Quiet(n);
      QuietDeviation(n);
      LaterOfZero(n);
    } else {
      assert (ls + Quiet(n))[1..] == ls[1..] + Quiet(n);
      QuietEnd(ls[1..], n);
      LaterTwice(Error(ls[0]), |ls| - 1, n);
      LaterXor(Later(Error(ls[0]), |ls| - 1), Deviation(ls[1..]), n);
    }
  }

  lemma {:induction false} QuietStart(n: nat, ls: seq<bool>)
    ensures Deviation(Quiet(n) + ls) == Deviation(ls)
  {
    hide Xor;
    if n == 0 {
      assert Quiet(0) + ls == ls;
    } else {
      assert (Quiet(n) + ls)[1..] == Quiet(n - 1) + ls;
      QuietStart(n - 1, ls);
      LaterOfZero(n - 1 + |ls|);
      XorLaws(0, Deviation(ls), 0);
      XorLaws(Deviation(ls), 0, 0);
    }
  }

  lemma {:induction false} ProbeDeviation(ls: seq<bool>)
    requires |ls| <= 32
    ensures Probe(Deviation(ls)) <==> |ls| == 32 && ls[0]
  {
    hide Xor, Probe, Gap, Power, Shift8;
    if ls == [] {
      ProbeZero();
    } else {
      var k := |ls| - 1;
      ProbeDeviation(ls[1..]);
      ProbeXor(Later(Error(ls[0]), k), Deviation(ls[1..]));
      if ls[0] {
        LaterIsPower(k);
        ProbePower(k);
      } else {
        LaterOfZero(k);
        ProbeZero();
      }
    }
  }

  /** Lookups that lie within 32 consecutive bytes never cancel. */
  lemma CloseLookupsShow(ls: seq<bool>, i: nat)
    requires i < |ls| && ls[i]
    requires forall k | 0 <= k < |ls| && ls[k] :: i <= k < i + 32
    ensures Deviation(ls) != 0
  {
    hide Deviation, Probe;
    var rest := ls[i..];
    assert ls == Quiet(i) + rest;
    QuietStart(i, rest);
    ProbeZero();
    if |rest| <= 32 {
      var z := 32 - |rest|;
      QuietEnd(rest, z);
      ProbeDeviation(rest + Quiet(z));
      LaterOfZero(z);
    } else {
      assert rest == rest[..32] + Quiet(|rest| - 32);
      QuietEnd(rest[..32], |rest| - 32);
      ProbeDeviation(rest[..32]);
      LaterNonZero(Deviation(rest[..32]), |rest| - 32);
    }
  }

  predicate Silent(ls: seq<bool>) { forall k | 0 <= k < |ls| :: !ls[k] }

  lemma SilentTail(ls: seq<bool>)
    requires ls != []
    ensures Silent(ls) <==> !ls[0] && Silent(ls[1..])
  {
    if !ls[0] && Silent(ls[1..]) {
      forall k | 0 <= k < |ls|
        ensures !ls[k]
      {
        assert k > 0 ==> ls[k] == ls[1..][k - 1];
      }
    }
  }

  lemma {:induction false} ClearIsSilent(crc: bv32, data: seq<u8>)
    ensures Clear(crc, data) <==> Silent(Lookups(crc, data))
    decreases |data|
  {
    hide Update, Bits, Index;
    if data != [] {
      var b, ls := Bits(data[0]), Lookups(crc, data);
      ClearIsSilent(Update(crc, b), data[1..]);
      SilentTail(ls);
      assert ls[1..] == Lookups(Update(crc, b), data[1..]);
    }
  }

  /** If all lookups of entry 0xF5 lie within 32 consecutive bytes, so in particular for a message of at most 32
      bytes or one with a single lookup, the checksum is CRC-32 exactly when there is no lookup. */
  lemma CloseLookups(data: seq<u8>, i: nat)
    requires forall k | 0 <= k < |data| && Lookups(INIT, data)[k] :: i <= k < i + 32
    ensures Crc32(data) == StandardCrc32(data) <==> Clear(INIT, data)
  {
    hide Crc32, StandardCrc32, Lookups, Deviation, Clear;
    var ls := Lookups(INIT, data);
    IsCrc32Exactly(data);
    ClearIsSilent(INIT, data);
    if Silent(ls) {
      assert ls == Quiet(|ls|);
      QuietDeviation(|ls|);
    } else {
      var j := FirstHit(ls);
      CloseLookupsShow(ls, j);
    }
  }

  lemma FirstHit(ls: seq<bool>) returns (j: nat)
    requires exists k :: 0 <= k < |ls| && ls[k]
    ensures j < |ls| && ls[j] && forall k | 0 <= k < j :: !ls[k]
  {
    j := 0;
    while !ls[j]
      invariant j < |ls| && forall k | 0 <= k < j :: !ls[k]
      decreases |ls| - j
    {
      j := j + 1;
    }
  }

  // ---------- Lookups that cancel ----------

  lemma BitsOnto(x: bv8) returns (b: u8)
    ensures Bits(b) == x
  {
    hide Join;
    var h, l := High(x), Low(x);
    NibbleBack(h);
    NibbleBack(l);
    JoinHalves(x);
    b := Byte(h as int, l as int);
  }

  function High(x: bv8): bv4 { (x >> 4) as bv4 }

  function Low(x: bv8): bv4 { (x & 0xF) as bv4 }

  function Byte(h: int, l: int): (b: u8)
    requires 0 <= h < 16 && 0 <= l < 16
    ensures b / 16 == h && b % 16 == l
  {
    16 * h + l
  }

  lemma NibbleBack(n: bv4)
    ensures 0 <= n as int < 16 && (n as int) as bv4 == n
  {
  }

  lemma JoinHalves(x: bv8)
    ensures Join(High(x), Low(x)) == x
  {
  }

  lemma ByteFor(crc: bv32, i: bv8) returns (b: u8)
    ensures Index(crc, Bits(b)) == i
  {
    hide Bits;
    b := BitsOnto(Lower(crc) ^ i);
    IndexOf(crc, i);
  }

  lemma IndexOf(crc: bv32, i: bv8)
    ensures Index(crc, Lower(crc) ^ i) == i
  {
  }

  /** Every pattern of lookups belongs to some message. */
  lemma {:induction false} Craft(crc: bv32, ls: seq<bool>) returns (data: seq<u8>)
    ensures |data| == |ls| && Lookups(crc, data) == ls
    decreases |ls|
  {
    hide Update, Bits, Index;
    if ls == [] {
      data := [];
    } else {
      var b := ByteFor(crc, if ls[0] then 0xF5 else 0);
      var rest := Craft(Update(crc, Bits(b)), ls[1..]);
      data := [b] + rest;
      assert data[1..] == rest;
    }
  }

  function PolynomialPattern(n: nat): (ls: seq<bool>)
    ensures |ls| == n
  {
    seq(n, i requires 0 <= i < n => Coefficient(n - 1 - i))
  }

  lemma {:induction false} PatternDeviation(n: nat)
    requires n <= 33
    ensures Deviation(PolynomialPattern(n)) == Picked(n)
  {
    hide Xor, Gap, Power, Shift8, Coefficient;
    if n > 0 {
      var ls := PolynomialPattern(n);
      assert ls[1..] == PolynomialPattern(n - 1);
      PatternDeviation(n - 1);
      LaterIsPower(n - 1);
      LaterOfZero(n - 1);
    }
  }

  /** From 33 bytes on lookups can cancel: here is a message with fifteen of them and the right checksum. */
  lemma FifteenLookupsCancel() returns (data: seq<u8>)
    ensures |data| == 33 && !Clear(INIT, data) && Crc32(data) == StandardCrc32(data)
  {
    hide Crc32, StandardCrc32, Deviation, Picked, Lookups, Clear;
    data := Craft(INIT, PolynomialPattern(33));
    PatternDeviation(33);
    PolynomialVanishes();
    IsCrc32Exactly(data);
    ClearIsSilent(INIT, data);
    assert PolynomialPattern(33)[0];
  }
}
