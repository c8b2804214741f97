/** For every tile count from six on that is not a multiple of four, a bake whose saved form drives the parser off its
    blob, and with it the exact counts for which the parser gives every saved bake a verdict. */
module Runaway {
  import opened Machine
  import opened Grid
  import opened Bytes
  import opened BakeFormat
  import opened BakeParser
  import opened Serializer
  import opened BlobBuffer
  import opened SavedOverrun

  // ---------- The way through the blob ----------

  predicate Ragged(n: nat) { 6 <= n < TILE_COUNT && n % 4 != 0 }

  /** Where in the routing bytes the parser looks first, after misreading the routing record's header. */
  function Start(n: nat): nat {
    if n % 4 == 1 then 3 else if n % 4 == 2 then 2 else 1 + 2 * n / 256 + Padding(2 * n / 256)
  }

  /** Empty records lead from there to the last eight routing bytes or so ... */
  function Empties(n: nat): int { (2 * n - 8 - Start(n)) / 8 }

  function Last(n: nat): int { Start(n) + 8 * Empties(n) }

  /** ... where one routing flag is the length of a record that ends in the weights ... */
  function Hop(n: nat): nat { if n % 4 == 2 then 64 else 256 }

  function FlagTile(n: nat): int { if n % 4 == 2 then (Last(n) + 4) / 2 else (Last(n) + 5) / 2 }

  function Landing(n: nat): int { Last(n) + Hop(n) - 2 * n }

  /** ... of a tile whose magnitudes spell the length of a record that ends with the blob. */
  function LengthTile(n: nat): nat { if n % 4 == 2 then 1 else 6 }

  function Rest(n: nat): int { 44 + 44 * n - Last(n) - Hop(n) }

  lemma WayStart(n: nat)
    requires Ragged(n)
    ensures Start(n) <= 2 * n - 8
    ensures Start(n) % 4 == if n % 4 == 1 then 3 else if n % 4 == 2 then 2 else 1
  {
    hide Padding;
    var g := 2 * n / 256;
    PaddedInWords(g);
    InWords((g + 3) / 4, g + Padding(g));
    Paddings(g);
  }

  lemma Way(n: nat)
    requires Ragged(n)
    ensures 0 <= Empties(n) && 2 * n - 15 <= Last(n) <= 2 * n - 8
    ensures Last(n) % 4 == if n % 4 == 1 then 3 else if n % 4 == 2 then 2 else 1
    ensures 3 <= FlagTile(n) < n && 2 * FlagTile(n) == if n % 4 == 2 then Last(n) + 4 else Last(n) + 5
    ensures 0 < Rest(n) < 0x1_0000_0000 && Rest(n) % 4 != 0
  {
    hide Start;
    WayStart(n);
  }

  // ---------- The bake ----------

  function LengthByte(len: u32, i: int): u8 { if 0 <= i < 4 then Le32(len)[i] else 0 }

  function Nibble(x: u8, high: bool): Level { if high then x / 16 else x % 16 }

  function Spelled(len: u32, from: int): (mag: seq<Level>)
    ensures |mag| == 64
  {
    seq<Level>(64, j requires 0 <= j < 64 => Nibble(LengthByte(len, j / 2 - from), j % 2 == 1))
  }

  function RunawayTile(n: nat, t: nat): Tile
    requires Ragged(n)
  {
    Way(n);
    ZeroTile().(maskN := t == FlagTile(n) && n % 4 != 2, maskSW := t == FlagTile(n) && n % 4 == 2,
      mag := if t == LengthTile(n) then Spelled(Rest(n), Landing(n) + 4 - 40 * t) else seq(64, _ => 0))
  }

  function RunawayTiles(n: nat): (tiles: seq<Tile>)
    requires Ragged(n)
    ensures |tiles| == TILE_COUNT && forall t | 0 <= t < TILE_COUNT :: tiles[t] == RunawayTile(n, t)
  {
    seq<Tile>(TILE_COUNT, t requires 0 <= t < TILE_COUNT => RunawayTile(n, t))
  }

  function Runaway(n: nat): (b: Baked)
    requires Ragged(n)
    ensures BakedOk(b) && SaveCount(b) == n
  {
    Baked(RunawayTiles(n), n, 1, 1, Topology(n, 1, 1, 8, 16, 0, n), NO_READOUT, 1, 1, 0)
  }

  lemma FlagsOf(n: nat, t: nat)
    requires Ragged(n)
    ensures RoutingFlags(RunawayTile(n, t)) == if t != FlagTile(n) then 0 else if n % 4 == 2 then 64 else 1
  {
    hide RoutingFlags, Rest, Landing, FlagTile;
    FlagsSum(RunawayTile(n, t));
  }

  lemma {:induction false} NoSigns(bs: seq<bool>)
    requires forall i | 0 <= i < |bs| :: !bs[i]
    ensures PackBits(bs) == 0
  {
    if bs != [] {
      NoSigns(bs[1..]);
    }
  }

  lemma WeightByte(n: nat, t: nat, i: nat)
    requires Ragged(n) && i < 40
    ensures Encode(Weights, RunawayTile(n, t))[i] ==
            if t == LengthTile(n) && i < 32 then LengthByte(Rest(n), i - (Landing(n) + 4 - 40 * t)) else 0
  {
    hide Rest, Landing, FlagTile, PackBits, LengthByte;
    Way(n);
    var tile := RunawayTile(n, t);
    if i < 32 {
      assert EncodeWeights(tile)[i] == NibblePair(tile, i);
      if t == LengthTile(n) {
        Nibbles(LengthByte(Rest(n), i - (Landing(n) + 4 - 40 * t)));
        assert 2 * i / 2 == i && (2 * i + 1) / 2 == i;
      }
    } else {
      assert EncodeWeights(tile)[i] == SignByte(tile, i - 32);
      NoSigns(tile.sign[8 * (i - 32)..8 * (i - 32) + 8]);
    }
  }

  lemma Nibbles(x: u8)
    ensures 16 * (Nibble(x, true) as int) + (Nibble(x, false) as int) == x
  {
  }

  // ---------- Its bytes ----------

  ghost predicate RunawayBytes(n: nat, blob: Blob)
    requires Ragged(n)
  {
    var R, W := RoutingStart(n), WeightsStart(n);
    && |blob| == 128 + 57 * n
    && HeaderAt(blob, R, TLV_TILE_ROUTING_FLAGS16, 2 * n)
    && (forall k | R + 8 <= k < R + 8 + 2 * n ::
          blob[k] == if k != R + 8 + 2 * FlagTile(n) then 0 else if n % 4 == 2 then 64 else 1)
    && (Way(n); forall k | W + 8 <= k < W + 8 + 40 * n :: blob[k] == LengthByte(Rest(n), k - W - 8 - Landing(n) - 4))
  }

  lemma BytesOfRunaway(n: nat)
    requires Ragged(n)
    ensures RunawayBytes(n, Serialize(Runaway(n)))
  {
    hide Serialize, Encode, RoutingFlags, HeaderAt, FlagTile, RunawayTile, Last, Rest, LengthByte;
    var b := Runaway(n);
    var blob, R, W := Serialize(b), RoutingStart(n), WeightsStart(n);
    Way(n);
    SavedBytes(b);
    forall k | R + 8 <= k < R + 8 + 2 * n
      ensures blob[k] == if k != R + 8 + 2 * FlagTile(n) then 0 else if n % 4 == 2 then 64 else 1
    {
      FlagsOf(n, (k - R - 8) / 2);
    }
    forall k | W + 8 <= k < W + 8 + 40 * n
      ensures blob[k] == LengthByte(Rest(n), k - W - 8 - Landing(n) - 4)
    {
      var i: nat := k - W - 8;
      WeightByte(n, i / 40, i % 40);
      InLengthTile(n, i);
    }
  }

  lemma InLengthTile(n: nat, i: nat)
    requires Ragged(n)
    ensures 0 < Rest(n) < 0x1_0000_0000
    ensures LengthByte(Rest(n), i - Landing(n) - 4) ==
            if i / 40 == LengthTile(n) && i % 40 < 32
            then LengthByte(Rest(n), i % 40 - (Landing(n) + 4 - 40 * (i / 40))) else 0
  {
    hide Last, Rest, FlagTile;
    Way(n);
  }

  // ---------- The walk ----------

  /** The bytes of the misread header: the routing record's own, and the first flags. */
  ghost predicate Misread(n: nat, blob: Blob) {
    var R := RoutingStart(n);
    && |blob| == 128 + 57 * n && n < TILE_COUNT
    && blob[R + 1] == 1 && blob[R + 2] == 0 && blob[R + 3] == 0
    && blob[R + 4] == 2 * n % 0x100 && blob[R + 5] as int == 2 * n / 0x100 && blob[R + 6] == 0 && blob[R + 7] == 0
    && blob[R + 8] == 0 && blob[R + 9] == 0 && blob[R + 10] == 0
  }

  lemma IsMisread(n: nat, blob: Blob)
    requires Ragged(n) && RunawayBytes(n, blob)
    ensures Misread(n, blob)
  {
    hide LengthByte, FlagTile, Last, Rest;
    Way(n);
    SmallWord(2 * n);
  }

  lemma SmallWord(x: nat)
    requires x < 0x2000
    ensures x / 0x100 % 0x100 == x / 0x100 <= 0x20 && x / 0x100 / 0x100 == 0 && 0 <= x / 0x100
  {
  }

  lemma Words(x: int, y: int)
    ensures Word(0, 0, 0, 0) == 0 && Word(1, 0, 0, 0) == 1
    ensures Word(x, 0, 0, 0) == x && Word(0, y, 0, 0) == 0x100 * y
  {
    hide Word;
    WordOfLow(x);
    WordOfLow(0);
    WordOfLow(1);
    WordOfNext(y);
  }

  lemma WordOfLow(x: int)
    ensures Word(x, 0, 0, 0) == x
  {
  }

  lemma WordOfNext(y: int)
    ensures Word(0, y, 0, 0) == 0x100 * y
  {
  }

  lemma SkipThree(n: nat, blob: Blob, a: Acc)
    requires 6 <= n && Misread(n, blob) && ViewOk(a.view)
    ensures ParseFrom(blob, RoutingStart(n) + 3, a) == ParseFrom(blob, RoutingStart(n) + 11, a)
  {
    hide ParseFrom, Sees, ViewOk, Overrun.Unknown, Padding, Word;
    var R, ty := RoutingStart(n), 0x100 * (2 * n % 0x100);
    KnownFacts();
    Words(2 * n / 0x100, 2 * n % 0x100);
    EvenIsUnknown(n);
    Reads(blob, R + 3, ty, 0);
    Jumps(blob, R + 3, a, ty, 0);
  }

  lemma SkipTwo(n: nat, blob: Blob, a: Acc)
    requires 6 <= n && Misread(n, blob) && ViewOk(a.view)
    ensures ParseFrom(blob, RoutingStart(n) + 2, a) == ParseFrom(blob, RoutingStart(n) + 10, a)
  {
    hide ParseFrom, Sees, ViewOk, Overrun.Unknown, Padding, Word;
    var R := RoutingStart(n);
    KnownFacts();
    Words(2 * n / 0x100, 2 * n % 0x100);
    Reads(blob, R + 2, 0, 0);
    Jumps(blob, R + 2, a, 0, 0);
  }

  lemma SkipOne(n: nat, blob: Blob, a: Acc)
    requires 6 <= n && Misread(n, blob) && ViewOk(a.view)
    ensures var g := 2 * n / 0x100;
            var next := RoutingStart(n) + 9 + g + Padding(g);
            next <= |blob| && ParseFrom(blob, RoutingStart(n) + 1, a) == ParseFrom(blob, next, a)
  {
    hide ParseFrom, Sees, ViewOk, Overrun.Unknown, Padding, Word;
    var R, g := RoutingStart(n), 2 * n / 0x100;
    KnownFacts();
    Words(2 * n / 0x100, 2 * n % 0x100);
    Paddings(g);
    SmallWord(2 * n);
    Reads(blob, R + 1, 1, g);
    Jumps(blob, R + 1, a, 1, g);
  }

  lemma FirstStep(n: nat, blob: Blob, a: Acc)
    requires Ragged(n) && Misread(n, blob) && ViewOk(a.view)
    ensures RoutingStart(n) + 8 + Start(n) <= |blob|
    ensures ParseFrom(blob, ThirdPos(n), a) == ParseFrom(blob, RoutingStart(n) + 8 + Start(n), a)
  {
    hide ParseFrom, ViewOk, Padding;
    WayStart(n);
    ThirdPadding(n);
    var R := RoutingStart(n);
    if n % 4 == 1 {
      assert ThirdPos(n) == R + 3 && Start(n) == 3;
      SkipThree(n, blob, a);
    } else if n % 4 == 2 {
      assert ThirdPos(n) == R + 2 && Start(n) == 2;
      SkipTwo(n, blob, a);
    } else {
      assert ThirdPos(n) == R + 1;
      SkipOne(n, blob, a);
    }
  }

  lemma ThirdPadding(n: nat)
    ensures Padding(13 * n) == (4 - n % 4) % 4 && Padding(0) == 0
    ensures n % 4 == 1 ==> Start(n) == 3
    ensures n % 4 == 2 ==> Start(n) == 2
    ensures n % 4 == 3 ==> Start(n) == 1 + 2 * n / 256 + Padding(2 * n / 256)
  {
    assert 13 * n == 4 * (3 * n) + n;
  }

  lemma EvenIsUnknown(n: nat)
    ensures Overrun.Unknown(0x100 * (2 * n % 0x100))
  {
  }

  lemma FlagBytes(n: nat, blob: Blob)
    requires Ragged(n) && RunawayBytes(n, blob)
    ensures var last := RoutingStart(n) + 8 + Last(n);
            && 28 <= last && last + 8 + Hop(n) <= |blob|
            && blob[last] == 0 && blob[last + 1] == 0
            && Word(blob[last + 4], blob[last + 5], blob[last + 6], blob[last + 7]) == Hop(n)
  {
    hide LengthByte, FlagTile, Last, HeaderAt;
    Way(n);
  }

  lemma FlagHop(n: nat, blob: Blob, a: Acc)
    requires Ragged(n) && RunawayBytes(n, blob) && ViewOk(a.view)
    ensures var last := RoutingStart(n) + 8 + Last(n);
            && 28 <= last && last + 8 + Hop(n) <= |blob|
            && ParseFrom(blob, last, a) == ParseFrom(blob, last + 8 + Hop(n), a)
  {
    hide ParseFrom, Sees, ViewOk, Overrun.Unknown, Padding, RunawayBytes, Last, Word;
    var last := RoutingStart(n) + 8 + Last(n);
    KnownFacts();
    FlagBytes(n, blob);
    HopPadding(n);
    Words(0, 0);
    Reads(blob, last, 0, Hop(n));
    Jumps(blob, last, a, 0, Hop(n));
  }

  lemma LengthBytes(n: nat, blob: Blob)
    requires Ragged(n) && RunawayBytes(n, blob)
    ensures var end := WeightsStart(n) + 8 + Landing(n);
            && 28 <= end && end + 8 <= |blob|
            && blob[end] == 0 && blob[end + 1] == 0
            && Word(blob[end + 4], blob[end + 5], blob[end + 6], blob[end + 7]) == Rest(n)
            && end + 8 + Rest(n) == |blob|
  {
    hide LengthByte, FlagTile, Last, HeaderAt, Word;
    Way(n);
    LengthWord(Rest(n));
  }

  lemma LastRecord(n: nat, blob: Blob, a: Acc)
    requires Ragged(n) && RunawayBytes(n, blob) && ViewOk(a.view)
    ensures var end := WeightsStart(n) + 8 + Landing(n);
            28 <= end <= |blob| && ParseFrom(blob, end, a) == PastBlob
  {
    hide ParseFrom, Sees, ViewOk, Overrun.Unknown, Padding, RunawayBytes, Rest, Landing, Word;
    var end := WeightsStart(n) + 8 + Landing(n);
    KnownFacts();
    LengthBytes(n, blob);
    HopPadding(n);
    Words(0, 0);
    Reads(blob, end, 0, Rest(n));
    Jumps(blob, end, a, 0, Rest(n));
  }

  /** The parser walks over the misread header, the empty records, the hop and the last record. */
  lemma RunsAway(n: nat, blob: Blob, a: Acc)
    requires Ragged(n) && RunawayBytes(n, blob) && ViewOk(a.view)
    ensures ParseFrom(blob, ThirdPos(n), a) == PastBlob
  {
    hide ParseFrom, ViewOk, Padding, Empties, LengthByte, FlagTile, Start, HeaderAt, Rest;
    Way(n);
    IsMisread(n, blob);
    FirstStep(n, blob, a);
    ZeroRun(blob, RoutingStart(n) + 8 + Start(n), a, Empties(n));
    FlagHop(n, blob, a);
    LastRecord(n, blob, a);
  }

  lemma HopPadding(n: nat)
    requires Ragged(n)
    ensures Padding(Hop(n)) == 0 && 0 < Rest(n) && Padding(Rest(n)) > 0
  {
    hide Last;
    Way(n);
  }

  lemma LengthWord(len: u32)
    ensures Word(LengthByte(len, 0), LengthByte(len, 1), LengthByte(len, 2), LengthByte(len, 3)) == len
    ensures LengthByte(len, -4) == 0 && LengthByte(len, -3) == 0
  {
    Word32RoundTrip(len);
  }

  lemma RunawayOverruns(n: nat)
    requires Ragged(n)
    ensures Parse(Serialize(Runaway(n))) == PastBlob
  {
    hide Parse, ParseFrom, Serialize, RunawayBytes, RunawayTile, FirstInverted, Saved, Midway;
    var b := Runaway(n);
    NothingInverted(n);
    UpToRouting(b);
    BytesOfRunaway(n);
    RunsAway(n, Serialize(b), Midway(b, 1));
  }

  lemma NothingInverted(n: nat)
    requires Ragged(n)
    ensures FirstInverted(Saved(Runaway(n))) == n
  {
    hide FirstInverted;
    NoneInverted(Saved(Runaway(n)));
  }

  // ---------- The exact counts ----------

  /** The parser gives every saved bake of n tiles a verdict, and its cursor stays inside the blob, exactly when n is a
      multiple of four or at most five. */
  lemma SavedVerdictExactly(n: nat)
    requires 0 < n <= TILE_COUNT
    ensures (forall b: Baked | BakedOk(b) && SaveCount(b) == n :: Parse(Serialize(b)) != PastBlob)
            <==> n % 4 == 0 || n <= 5
    ensures (forall b: Baked | BakedOk(b) && SaveCount(b) == n :: Parse(Serialize(b)).Accepted? || Parse(Serialize(b)).Rejected?)
            <==> n % 4 == 0 || n <= 5
  {
    hide Parse, Serialize, ViewOf;
    if n % 4 == 0 || n <= 5 {
      forall b: Baked | BakedOk(b) && SaveCount(b) == n
        ensures Parse(Serialize(b)).Accepted? || Parse(Serialize(b)).Rejected?
      {
        if n % 4 == 0 {
          RoundTripExactly(b);
        } else {
          SmallSaved(b);
        }
      }
    } else {
      RunawayOverruns(n);
    }
  }
}
