/** The blob checksum: a table-driven CRC fold, the corruption it is sure to detect, and exactly when it is
    CRC-32. */
module Crc {
  import opened Machine
  import opened CrcTable

  /** A byte as machine bits, high nibble and low nibble. */
  function Bits(b: u8): bv8 { Join((b / 16) as bv4, (b % 16) as bv4) }

  function Index(crc: bv32, b: bv8): bv8 { Lower(Xor(crc, Widen(b))) }

  /** The step for one table slot. */
  function Mix(crc: bv32, entry: bv32): bv32 { Xor(Down(crc), entry) }

  function Update(crc: bv32, b: bv8): bv32 { Mix(crc, Table(Index(crc, b))) }

  function Fold(crc: bv32, data: seq<u8>): bv32
    decreases |data|
  {
    if data == [] then crc else Fold(Update(crc, Bits(data[0])), data[1..])
  }

  const INIT: bv32 := 0xFFFF_FFFF

  function Finish(crc: bv32): u32 { Xor(crc, INIT) as int }

  function Crc32(data: seq<u8>): u32 { Finish(Fold(INIT, data)) }

  lemma FoldStep(crc: bv32, data: seq<u8>, i: nat)
    requires i < |data|
    ensures Fold(crc, data[i..]) == Fold(Update(crc, Bits(data[i])), data[i + 1..])
  {
    hide Update;
    assert data[i..][1..] == data[i + 1..];
  }

  method ComputeCrc32(data: seq<u8>) returns (r: u32)
    ensures r == Crc32(data)
  {
    hide Update, Finish;
    var crc := INIT;
    var i := 0;
    assert data[0..] == data;
    while i < |data|
      invariant i <= |data| && Fold(crc, data[i..]) == Fold(INIT, data)
    {
      FoldStep(crc, data, i);
      crc := Update(crc, Bits(data[i]));
      i := i + 1;
    }
    r := Finish(crc);
  }

  // ---------- Exactly when it is CRC-32 ----------

  /** CRC-32 one byte at a time, without a table. */
  function StandardUpdate(crc: bv32, b: bv8): bv32 { Shift8(Xor(crc, Widen(b))) }

  function StandardFold(crc: bv32, data: seq<u8>): bv32
    decreases |data|
  {
    if data == [] then crc else StandardFold(StandardUpdate(crc, Bits(data[0])), data[1..])
  }

  lemma DownOfMixed(crc: bv32, b: bv8)
    ensures Down(Xor(crc, Widen(b))) == Down(crc)
  {
  }

  lemma MixInjective(crc: bv32, x: bv32, y: bv32)
    ensures Mix(crc, x) == Mix(crc, y) ==> x == y
  {
  }

  /** A table step is a CRC-32 step exactly when it does not look up entry 0xF5. */
  lemma UpdateIsStandard(crc: bv32, b: bv8)
    ensures Update(crc, b) == StandardUpdate(crc, b) <==> Index(crc, b) != 0xF5
  {
    hide Table, Entry, Shift8, Xor, Down, Widen, Lower;
    ShiftOfWord(Xor(crc, Widen(b)));
    DownOfMixed(crc, b);
    TableIsCrc(Index(crc, b));
    MixInjective(crc, Table(Index(crc, b)), Entry(Index(crc, b)));
  }

  /** The fold over data never looks up entry 0xF5. */
  predicate Clear(crc: bv32, data: seq<u8>)
    decreases |data|
  {
    data == [] || (Index(crc, Bits(data[0])) != 0xF5 && Clear(Update(crc, Bits(data[0])), data[1..]))
  }

  /** The checksums of data and of all its prefixes are CRC-32 exactly when the fold never looks up entry
      0xF5; the shortest prefix that does so gets a wrong checksum. */
  lemma {:induction false} CrcIsStandardExactly(crc: bv32, data: seq<u8>)
    ensures Clear(crc, data) <==> forall k | 0 <= k <= |data| :: Fold(crc, data[..k]) == StandardFold(crc, data[..k])
    decreases |data|
  {
    hide Update, StandardUpdate, Index;
    if data != [] {
      var b, rest := Bits(data[0]), data[1..];
      var next := Update(crc, b);
      UpdateIsStandard(crc, b);
      OneByte(crc, data[0]);
      assert data[..1] == [data[0]];
      assert Fold(crc, data[..1]) == next && StandardFold(crc, data[..1]) == StandardUpdate(crc, b);
      if next == StandardUpdate(crc, b) {
        CrcIsStandardExactly(next, rest);
        PrefixFolds(crc, data, next);
      }
    } else {
      assert data[..0] == [];
    }
  }

  lemma PrefixFolds(crc: bv32, data: seq<u8>, next: bv32)
    requires data != [] && next == Update(crc, Bits(data[0])) && next == StandardUpdate(crc, Bits(data[0]))
    ensures (forall k | 0 <= k <= |data| :: Fold(crc, data[..k]) == StandardFold(crc, data[..k]))
            <==> (forall k | 0 <= k <= |data[1..]| :: Fold(next, data[1..][..k]) == StandardFold(next, data[1..][..k]))
  {
    hide Update, StandardUpdate;
    var rest := data[1..];
    forall k | 0 <= k <= |rest|
      ensures Fold(crc, data[..k + 1]) == Fold(next, rest[..k])
      ensures StandardFold(crc, data[..k + 1]) == StandardFold(next, rest[..k])
    {
      assert data[..k + 1][1..] == rest[..k];
    }
    assert data[..0] == [];
    if forall k | 0 <= k <= |data| :: Fold(crc, data[..k]) == StandardFold(crc, data[..k]) {
      forall k | 0 <= k <= |rest|
        ensures Fold(next, rest[..k]) == StandardFold(next, rest[..k])
      {
        assert Fold(crc, data[..k + 1]) == StandardFold(crc, data[..k + 1]);
      }
    }
    if forall k | 0 <= k <= |rest| :: Fold(next, rest[..k]) == StandardFold(next, rest[..k]) {
      forall k | 0 <= k <= |data|
        ensures Fold(crc, data[..k]) == StandardFold(crc, data[..k])
      {
        if k > 0 {
          assert Fold(next, rest[..k - 1]) == StandardFold(next, rest[..k - 1]);
        }
      }
    }
  }

  /** A single line feed already has a checksum that is not CRC-32. */
  lemma LineFeedIsNotCrc32()
    ensures Fold(INIT, [10]) != StandardFold(INIT, [10])
  {
    UpdateIsStandard(INIT, 10);
    TenInBits();
    assert Index(INIT, 10) == 0xF5;
    OneByte(INIT, 10);
  }

  lemma TenInBits()
    ensures Bits(10) == 10
  {
    assert (0 as bv4, 10 as bv4) == (0, 10);
  }

  lemma OneByte(crc: bv32, b: u8)
    ensures Fold(crc, [b]) == Update(crc, Bits(b)) && StandardFold(crc, [b]) == StandardUpdate(crc, Bits(b))
  {
    hide Update, StandardUpdate, Bits;
    var rest := [b][1..];
    assert rest == [];
  }

  // ---------- Detection ----------

  lemma BitsInjective(a: u8, b: u8)
    ensures Bits(a) == Bits(b) ==> a == b
  {
    hide Join;
    NibbleValue(a / 16);
    NibbleValue(a % 16);
    NibbleValue(b / 16);
    NibbleValue(b % 16);
    JoinInjective((a / 16) as bv4, (a % 16) as bv4, (b / 16) as bv4, (b % 16) as bv4);
  }

  lemma WordValue(x: bv32)
    ensures (x as int) as bv32 == x
  {
  }

  lemma FinishInjective(x: bv32, y: bv32)
    ensures Finish(x) == Finish(y) ==> x == y
  {
    hide Xor;
    WordValue(Xor(x, INIT));
    WordValue(Xor(y, INIT));
    XorInjective(x, y, INIT);
  }

  lemma XorInjective(x: bv32, y: bv32, e: bv32)
    ensures Xor(x, e) == Xor(y, e) ==> x == y
  {
  }

  lemma MixTop(crc: bv32, entry: bv32)
    ensures High8(Mix(crc, entry)) == High8(entry)
  {
  }

  lemma MixBack(x: bv32, y: bv32, entry: bv32)
    ensures Mix(x, entry) == Mix(y, entry) ==> Down(x) == Down(y)
  {
  }

  lemma MixBackDown(x: bv32, y: bv32, entry: bv32)
    ensures Down(Mix(x, entry)) == Down(Mix(y, entry)) ==> High16(x) == High16(y)
  {
  }

  lemma MixBackHigh16(x: bv32, y: bv32, entry: bv32)
    ensures High16(Mix(x, entry)) == High16(Mix(y, entry)) ==> High8(x) == High8(y)
  {
  }

  lemma DownToHigh16(x: bv32, y: bv32)
    ensures Down(x) == Down(y) ==> High16(x) == High16(y)
  {
  }

  lemma High16ToHigh8(x: bv32, y: bv32)
    ensures High16(x) == High16(y) ==> High8(x) == High8(y)
  {
  }

  lemma Truncations(x: bv32, y: bv32)
    ensures x == y ==> Down(x) == Down(y)
    ensures Down(x) == Down(y) ==> High16(x) == High16(y)
    ensures High16(x) == High16(y) ==> High8(x) == High8(y)
  {
    hide *;
    DownToHigh16(x, y);
    High16ToHigh8(x, y);
  }

  lemma IndexInjective(crc: bv32, b: bv8, c: bv8)
    ensures Index(crc, b) == Index(crc, c) ==> b == c
  {
  }

  lemma StateFromIndex(x: bv32, y: bv32, b: bv8)
    ensures Down(x) == Down(y) && Index(x, b) == Index(y, b) ==> x == y
  {
  }

  /** Two steps whose results agree in the top byte looked up the same entry; the more they agree, the more
      the states before them did. */
  lemma StepBack(x: bv32, b: bv8, y: bv32, c: bv8)
    ensures High8(Update(x, b)) == High8(Update(y, c)) ==> Index(x, b) == Index(y, c)
    ensures Update(x, b) == Update(y, c) ==> Down(x) == Down(y)
    ensures Down(Update(x, b)) == Down(Update(y, c)) ==> High16(x) == High16(y)
    ensures High16(Update(x, b)) == High16(Update(y, c)) ==> High8(x) == High8(y)
  {
    hide Table, Mix, Index, High8, High16, Down;
    MixTop(x, Table(Index(x, b)));
    MixTop(y, Table(Index(y, c)));
    TableTops(Index(x, b), Index(y, c));
    MixBack(x, y, Table(Index(x, b)));
    MixBackDown(x, y, Table(Index(x, b)));
    MixBackHigh16(x, y, Table(Index(x, b)));
    Truncations(Update(x, b), Update(y, c));
  }

  /** A step is injective in the state ... */
  lemma UpdateInjectiveInState(x: bv32, y: bv32, b: bv8)
    ensures Update(x, b) == Update(y, b) ==> x == y
  {
    hide *;
    StepBack(x, b, y, b);
    Truncations(Update(x, b), Update(y, b));
    StateFromIndex(x, y, b);
  }

  lemma {:induction false} FoldInjectiveInState(x: bv32, y: bv32, data: seq<u8>)
    ensures Fold(x, data) == Fold(y, data) ==> x == y
    decreases |data|
  {
    hide Update, Bits;
    if data != [] {
      UpdateInjectiveInState(x, y, Bits(data[0]));
      FoldInjectiveInState(Update(x, Bits(data[0])), Update(y, Bits(data[0])), data[1..]);
    }
  }

  /** ... and four steps from one state are injective in the four bytes. */
  lemma FourSteps(s: bv32, a0: bv8, a1: bv8, a2: bv8, a3: bv8, b0: bv8, b1: bv8, b2: bv8, b3: bv8)
    ensures Update(Update(Update(Update(s, a0), a1), a2), a3) == Update(Update(Update(Update(s, b0), b1), b2), b3)
            ==> a0 == b0 && a1 == b1 && a2 == b2 && a3 == b3
  {
    hide *;
    var x1, y1 := Update(s, a0), Update(s, b0);
    var x2, y2 := Update(x1, a1), Update(y1, b1);
    var x3, y3 := Update(x2, a2), Update(y2, b2);
    var x4, y4 := Update(x3, a3), Update(y3, b3);
    StepBack(x3, a3, y3, b3);
    StepBack(x2, a2, y2, b2);
    StepBack(x1, a1, y1, b1);
    StepBack(s, a0, s, b0);
    Truncations(x4, y4);
    Truncations(x3, y3);
    Truncations(x2, y2);
    Truncations(x1, y1);
    IndexInjective(s, a0, b0);
    IndexInjective(x1, a1, b1);
    IndexInjective(x2, a2, b2);
    IndexInjective(x3, a3, b3);
  }

  lemma FoldConcat(crc: bv32, a: seq<u8>, b: seq<u8>)
    ensures Fold(crc, a + b) == Fold(Fold(crc, a), b)
    decreases |a|
  {
    hide Update, Bits;
    if a == [] {
      assert a + b == b;
    } else {
      assert (a + b)[1..] == a[1..] + b;
      FoldConcat(Update(crc, Bits(a[0])), a[1..], b);
    }
  }

  lemma FoldOfFour(s: bv32, w: seq<u8>)
    requires |w| == 4
    ensures Fold(s, w) == Update(Update(Update(Update(s, Bits(w[0])), Bits(w[1])), Bits(w[2])), Bits(w[3]))
  {
    hide Update, Bits;
    FoldStep(s, w, 0);
    FoldStep(Update(s, Bits(w[0])), w, 1);
    FoldStep(Update(Update(s, Bits(w[0])), Bits(w[1])), w, 2);
    FoldStep(Update(Update(Update(s, Bits(w[0])), Bits(w[1])), Bits(w[2])), w, 3);
    assert w[0..] == w && w[4..] == [];
  }

  lemma WindowInjective(s: bv32, w: seq<u8>, v: seq<u8>)
    requires |w| == |v| == 4
    ensures Fold(s, w) == Fold(s, v) ==> w == v
  {
    hide Update, Bits, Fold;
    FoldOfFour(s, w);
    FoldOfFour(s, v);
    FourSteps(s, Bits(w[0]), Bits(w[1]), Bits(w[2]), Bits(w[3]), Bits(v[0]), Bits(v[1]), Bits(v[2]), Bits(v[3]));
    forall i | 0 <= i < 4 { BitsInjective(w[i], v[i]); }
  }

  /** Equal lengths, and differing at most inside the four bytes from i on. */
  ghost predicate DifferWithin(a: seq<u8>, b: seq<u8>, i: nat) {
    && |a| == |b|
    && forall k | 0 <= k < |a| && !(i <= k < i + 4) :: a[k] == b[k]
  }

  /** Every corruption confined to four consecutive bytes, so in particular of a single byte, changes the
      checksum. */
  lemma WindowDetected(a: seq<u8>, b: seq<u8>, i: nat)
    requires DifferWithin(a, b, i) && Crc32(a) == Crc32(b)
    ensures a == b
  {
    hide Fold, Finish;
    var zeros: seq<u8> := [0, 0, 0, 0];
    var a', b' := a + zeros, b + zeros;
    FoldConcat(INIT, a, zeros);
    FoldConcat(INIT, b, zeros);
    FinishInjective(Fold(INIT, a), Fold(INIT, b));
    if i < |a| {
      assert a' == a'[..i] + (a'[i..i + 4] + a'[i + 4..]);
      assert b' == b'[..i] + (b'[i..i + 4] + b'[i + 4..]);
      assert forall k | 0 <= k < |a'| && !(i <= k < i + 4) :: a'[k] == b'[k];
      assert a'[..i] == b'[..i];
      assert a'[i + 4..] == b'[i + 4..];
      FoldConcat(INIT, a'[..i], a'[i..i + 4] + a'[i + 4..]);
      FoldConcat(INIT, a'[..i], b'[i..i + 4] + a'[i + 4..]);
      var s := Fold(INIT, a'[..i]);
      FoldConcat(s, a'[i..i + 4], a'[i + 4..]);
      FoldConcat(s, b'[i..i + 4], a'[i + 4..]);
      FoldInjectiveInState(Fold(s, a'[i..i + 4]), Fold(s, b'[i..i + 4]), a'[i + 4..]);
      WindowInjective(s, a'[i..i + 4], b'[i..i + 4]);
      forall k | i <= k < |a|
        ensures a[k] == b[k]
      {
        if k < i + 4 {
          assert a'[i..i + 4][k - i] == b'[i..i + 4][k - i];
        }
      }
    }
  }
}
