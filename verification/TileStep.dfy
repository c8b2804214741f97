/** What one flash does to one tile: the row pipeline, the accumulator with its decay towards zero, and
    the range fuse. */
module TileStep {
  import opened Machine
  import opened Grid

  // ---------- Row pipeline ----------

  function Weight(mag: Level, sign: bool): int { if sign then mag else 0 - mag }

  /** Sum of the first k products of row r of the weight matrix with the input. */
  function RowSum(t: Tile, inp: Lanes, r: nat, k: nat): (s: int)
    requires r < 8 && k <= 8
    ensures -225 * k <= s <= 225 * k
  {
    if k == 0 then 0
    else
      TermBound(inp[k - 1], t.mag[r * 8 + k - 1], t.sign[r * 8 + k - 1]);
      RowSum(t, inp, r, k - 1) + inp[k - 1] * Weight(t.mag[r * 8 + k - 1], t.sign[r * 8 + k - 1])
  }

  lemma TermBound(x: Level, m: Level, sign: bool)
    ensures -225 <= x * Weight(m, sign) <= 225
    ensures x * Weight(m, sign) == if sign then x * m else 0 - x * m
  {
    assert 0 <= x * m <= 15 * 15;
    assert x * (0 - m) == 0 - x * m;
  }

  function WeightSum(t: Tile, r: nat, k: nat): (s: int)
    requires r < 8 && k <= 8
    ensures -15 * k <= s <= 15 * k
  {
    if k == 0 then 0
    else WeightSum(t, r, k - 1) + Weight(t.mag[r * 8 + k - 1], t.sign[r * 8 + k - 1])
  }

  /** The drive of lane r: its input scaled by the row's weight sum, normalised to 56, never negative. */
  function RowOut(t: Tile, inp: Lanes, r: nat): Level
    requires r < 8
  {
    Clamp15((Max(inp[r] * WeightSum(t, r, 8), 0) + 28) / 56)
  }

  function RowOuts(t: Tile, inp: Lanes): Lanes {
    seq(8, r requires 0 <= r < 8 => RowOut(t, inp, r))
  }

  /** Sum of the first k row sums. */
  function Delta(t: Tile, inp: Lanes, k: nat): (s: int)
    requires k <= 8
    ensures -1800 * k <= s <= 1800 * k
  {
    if k == 0 then 0 else Delta(t, inp, k - 1) + RowSum(t, inp, k - 1, 8)
  }

  /** The 16-bit row loops. No addition wraps, so they give the mathematical sums. */
  method ComputeRowRaw(t: Tile, in16: Lanes) returns (rowSigned: seq<i16>, rowOut: Lanes)
    ensures |rowSigned| == 8
    ensures forall r | 0 <= r < 8 :: rowSigned[r] == RowSum(t, in16, r, 8)
    ensures rowOut == RowOuts(t, in16)
  {
    rowSigned := seq(8, _ => 0);
    rowOut := ZERO_LANES;
    var r := 0;
    while r < 8
      invariant 0 <= r <= 8 && |rowSigned| == 8
      invariant forall q | 0 <= q < r :: rowSigned[q] == RowSum(t, in16, q, 8) && rowOut[q] == RowOut(t, in16, q)
    {
      var sumMatrix: i16 := 0;
      var i := 0;
      while i < 8
        invariant 0 <= i <= 8 && sumMatrix == RowSum(t, in16, r, i)
      {
        TermBound(in16[i], t.mag[r * 8 + i], t.sign[r * 8 + i]);
        var inVal: int, magVal: int := in16[i], t.mag[r * 8 + i];
        var mul := inVal * magVal;
        var mulResult: i16 := if t.sign[r * 8 + i] then WrapI16(mul) else WrapI16(0 - WrapI16(mul));
        ghost var next := RowSum(t, in16, r, i + 1);
        sumMatrix := WrapI16(sumMatrix + mulResult);
        i := i + 1;
      }
      var weightSum: i16 := 0;
      i := 0;
      while i < 8
        invariant 0 <= i <= 8 && weightSum == WeightSum(t, r, i)
      {
        var magVal: int := t.mag[r * 8 + i];
        var signedWeight: i16 := if t.sign[r * 8 + i] then magVal else WrapI16(-magVal);
        ghost var next := WeightSum(t, r, i + 1);
        weightSum := WrapI16(weightSum + signedWeight);
        i := i + 1;
      }
      var product := in16[r] * weightSum;
      var pos := if product > 0 then product else 0;
      rowSigned := rowSigned[r := sumMatrix];
      rowOut := rowOut[r := Clamp15((pos + 28) / 56)];
      r := r + 1;
    }
  }

  method ComputeDeltaRaw(t: Tile, in16: Lanes, rowSigned: seq<i16>) returns (delta: i16)
    requires |rowSigned| == 8
    requires forall r | 0 <= r < 8 :: rowSigned[r] == RowSum(t, in16, r, 8)
    ensures delta == Delta(t, in16, 8)
  {
    delta := 0;
    var r := 0;
    while r < 8
      invariant 0 <= r <= 8 && delta == Delta(t, in16, r)
    {
      ghost var next := Delta(t, in16, r + 1);
      delta := WrapI16(delta + rowSigned[r]);
      r := r + 1;
    }
  }

  // ---------- The same sum by columns ----------

  function ColumnWeight(t: Tile, i: nat, k: nat): int
    requires i < 8 && k <= 8
  {
    if k == 0 then 0 else ColumnWeight(t, i, k - 1) + Weight(t.mag[(k - 1) * 8 + i], t.sign[(k - 1) * 8 + i])
  }

  function ColumnSum(t: Tile, inp: Lanes, rows: nat, k: nat): int
    requires rows <= 8 && k <= 8
  {
    if k == 0 then 0 else ColumnSum(t, inp, rows, k - 1) + inp[k - 1] * ColumnWeight(t, k - 1, rows)
  }

  /** The delta is the inner product of the input with the eight column weights. */
  lemma {:induction false} DeltaByColumns(t: Tile, inp: Lanes, rows: nat)
    requires rows <= 8
    ensures Delta(t, inp, rows) == ColumnSum(t, inp, rows, 8)
  {
    if rows == 0 {
      NoRows(t, inp, 8);
    } else {
      DeltaByColumns(t, inp, rows - 1);
      OneMoreRow(t, inp, rows - 1, 8);
    }
  }

  lemma {:induction false} NoRows(t: Tile, inp: Lanes, k: nat)
    requires k <= 8
    ensures ColumnSum(t, inp, 0, k) == 0
  {
    if k > 0 {
      NoRows(t, inp, k - 1);
    }
  }

  lemma {:induction false} OneMoreRow(t: Tile, inp: Lanes, r: nat, k: nat)
    requires r < 8 && k <= 8
    ensures ColumnSum(t, inp, r + 1, k) == ColumnSum(t, inp, r, k) + RowSum(t, inp, r, k)
  {
    if k > 0 {
      OneMoreRow(t, inp, r, k - 1);
      Distribute(inp[k - 1], ColumnWeight(t, k - 1, r), Weight(t.mag[r * 8 + k - 1], t.sign[r * 8 + k - 1]));
    }
  }

  lemma Distribute(x: int, a: int, b: int)
    ensures x * (a + b) == x * a + x * b
  {
  }

  // ---------- The sums entry by entry ----------

  /** Entry j of the weight matrix, row by row: a set sign means positive. */
  function Entry(t: Tile, j: nat): int
    requires j < 64
  {
    var m: int := t.mag[j];
    if t.sign[j] then m else -m
  }

  /** Column i of the matrix added up. */
  function Column(t: Tile, i: nat): int
    requires i < 8
  {
    Entry(t, i) + Entry(t, 8 + i) + Entry(t, 16 + i) + Entry(t, 24 + i)
    + Entry(t, 32 + i) + Entry(t, 40 + i) + Entry(t, 48 + i) + Entry(t, 56 + i)
  }

  /** Row r added up. */
  function RowTotal(t: Tile, r: nat): int
    requires r < 8
  {
    Entry(t, 8 * r) + Entry(t, 8 * r + 1) + Entry(t, 8 * r + 2) + Entry(t, 8 * r + 3)
    + Entry(t, 8 * r + 4) + Entry(t, 8 * r + 5) + Entry(t, 8 * r + 6) + Entry(t, 8 * r + 7)
  }

  /** The input times the matrix, all entries added up. */
  function MatrixSum(t: Tile, inp: Lanes): int {
    inp[0] * Column(t, 0) + inp[1] * Column(t, 1) + inp[2] * Column(t, 2) + inp[3] * Column(t, 3)
    + inp[4] * Column(t, 4) + inp[5] * Column(t, 5) + inp[6] * Column(t, 6) + inp[7] * Column(t, 7)
  }

  lemma ColumnIsWeight(t: Tile, i: nat)
    requires i < 8
    ensures ColumnWeight(t, i, 8) == Column(t, i)
  {
    ColumnStep(t, i, 0);
    ColumnStep(t, i, 1);
    ColumnStep(t, i, 2);
    ColumnStep(t, i, 3);
    ColumnStep(t, i, 4);
    ColumnStep(t, i, 5);
    ColumnStep(t, i, 6);
    ColumnStep(t, i, 7);
  }

  lemma ColumnStep(t: Tile, i: nat, k: nat)
    requires i < 8 && k < 8
    ensures ColumnWeight(t, i, 0) == 0
    ensures ColumnWeight(t, i, k + 1) == ColumnWeight(t, i, k) + Entry(t, 8 * k + i)
  {
  }

  /** The delta is the whole matrix applied to the input, entry r * 8 + i taking input i. */
  lemma DeltaIsMatrixSum(t: Tile, inp: Lanes)
    ensures Delta(t, inp, 8) == MatrixSum(t, inp)
  {
    hide Delta, ColumnWeight, Column;
    DeltaByColumns(t, inp, 8);
    ColumnIsWeight(t, 0);
    ColumnIsWeight(t, 1);
    ColumnIsWeight(t, 2);
    ColumnIsWeight(t, 3);
    ColumnIsWeight(t, 4);
    ColumnIsWeight(t, 5);
    ColumnIsWeight(t, 6);
    ColumnIsWeight(t, 7);
    ColumnSums(t, inp, 0);
    ColumnSums(t, inp, 1);
    ColumnSums(t, inp, 2);
    ColumnSums(t, inp, 3);
    ColumnSums(t, inp, 4);
    ColumnSums(t, inp, 5);
    ColumnSums(t, inp, 6);
    ColumnSums(t, inp, 7);
  }

  lemma ColumnSums(t: Tile, inp: Lanes, k: nat)
    requires k < 8
    ensures ColumnSum(t, inp, 8, 0) == 0
    ensures ColumnSum(t, inp, 8, k + 1) == ColumnSum(t, inp, 8, k) + inp[k] * ColumnWeight(t, k, 8)
  {
  }

  /** The weight sum that scales a drive is its row of the matrix added up. */
  lemma WeightSumIsRowTotal(t: Tile, r: nat)
    requires r < 8
    ensures WeightSum(t, r, 8) == RowTotal(t, r)
  {
    hide WeightSum, Entry;
    WeightStep(t, r, 0);
    WeightStep(t, r, 1);
    WeightStep(t, r, 2);
    WeightStep(t, r, 3);
    WeightStep(t, r, 4);
    WeightStep(t, r, 5);
    WeightStep(t, r, 6);
    WeightStep(t, r, 7);
  }

  lemma WeightStep(t: Tile, r: nat, k: nat)
    requires r < 8 && k < 8
    ensures WeightSum(t, r, 0) == 0
    ensures WeightSum(t, r, k + 1) == WeightSum(t, r, k) + Entry(t, 8 * r + k)
  {
  }

  /** A lane is its scaled input rounded to the nearest level, clamped at fifteen; a row whose weights do not
      add up to something positive is silent. */
  lemma DriveIsNearest(t: Tile, inp: Lanes, r: nat)
    requires r < 8
    ensures WeightSum(t, r, 8) <= 0 ==> RowOut(t, inp, r) == 0
    ensures var p := inp[r] * WeightSum(t, r, 8);
            && (0 <= p < 868 ==> 56 * RowOut(t, inp, r) - 28 <= p < 56 * RowOut(t, inp, r) + 28)
            && (p >= 868 ==> RowOut(t, inp, r) == 15)
  {
    var x, s := inp[r], WeightSum(t, r, 8);
    if s <= 0 {
      assert x * (0 - s) >= 0;
      assert x * s == 0 - x * (0 - s);
    }
    RoundedDivision(x * s);
  }

  lemma RoundedDivision(p: int)
    ensures 0 <= p < 868 ==> 56 * Clamp15((Max(p, 0) + 28) / 56) - 28 <= p < 56 * Clamp15((Max(p, 0) + 28) / 56) + 28
    ensures p <= 0 ==> Clamp15((Max(p, 0) + 28) / 56) == 0
    ensures p >= 868 ==> Clamp15((Max(p, 0) + 28) / 56) == 15
  {
  }

  /** With the contract's three-bit magnitudes a lane is never amplified ... */
  lemma DriveNeverAmplifies(t: Tile, inp: Lanes, r: nat)
    requires r < 8
    requires forall i | 0 <= i < 64 :: t.mag[i] <= 7
    ensures RowOut(t, inp, r) <= inp[r]
  {
    WeightSumBound(t, r, 8);
    MulUpTo(inp[r], WeightSum(t, r, 8), 56);
  }

  lemma MulUpTo(x: nat, a: int, b: int)
    requires a <= b
    ensures x * a <= x * b
  {
    assert x * (b - a) >= 0;
  }

  lemma {:induction false} WeightSumBound(t: Tile, r: nat, k: nat)
    requires r < 8 && k <= 8
    requires forall i | 0 <= i < 64 :: t.mag[i] <= 7
    ensures WeightSum(t, r, k) <= 7 * k
    ensures (forall i | 0 <= i < 64 :: t.mag[i] == 7 && t.sign[i]) ==> WeightSum(t, r, k) == 7 * k
  {
    if k > 0 {
      WeightSumBound(t, r, k - 1);
    }
  }

  /** ... and full positive weights pass the input through unchanged. */
  lemma FullWeightsPassThrough(t: Tile, inp: Lanes)
    requires forall i | 0 <= i < 64 :: t.mag[i] == 7 && t.sign[i]
    ensures RowOuts(t, inp) == inp
  {
    forall r | 0 <= r < 8
      ensures RowOut(t, inp, r) == inp[r]
    {
      WeightSumBound(t, r, 8);
    }
  }

  // ---------- Decay ----------

  /** Decay moves a value towards zero by d and stops there. */
  function DecayToZero(x: int, d: nat): int {
    if x > 0 then Max(x - d, 0) else Min(x + d, 0)
  }

  /** Decay of a locked tile, computed in 16 bits. */
  function DecayLocked(thr: i16, d: u16): i16 {
    if d > 0 && thr > 0 then Max(WrapI16(thr - d), 0)
    else if d > 0 && thr < 0 then Min(WrapI16(thr + d), 0)
    else thr
  }

  /** The subtraction fits in 16 bits. */
  predicate NoWrap(thr: int, d: u16) { (thr > 0 ==> -0x8000 <= thr - d) && (thr < 0 ==> thr + d < 0x8000) }

  /** The 16-bit decay is decay towards zero exactly when the subtraction does not wrap. */
  lemma DecayLockedExact(thr: i16, d: u16)
    ensures DecayLocked(thr, d) == DecayToZero(thr, d) <==> NoWrap(thr, d)
  {
  }

  /** Then it does not wrap at the next decay either. */
  lemma NoWrapLasts(thr: i16, d: u16)
    requires NoWrap(thr, d)
    ensures -0x8000 <= DecayToZero(thr, d) < 0x8000 && NoWrap(DecayToZero(thr, d), d)
  {
  }

  /** Over all accumulator values, it is so for a given decay exactly up to 32768. */
  lemma DecayLockedExactForAll(d: u16)
    ensures (forall thr: i16 :: DecayLocked(thr, d) == DecayToZero(thr, d)) <==> d <= 0x8000
  {
    DecayLockedExact(-1, d);
    forall thr: i16 | d <= 0x8000
      ensures DecayLocked(thr, d) == DecayToZero(thr, d)
    {
      DecayLockedExact(thr, d);
    }
  }

  // ---------- Fuse ----------

  predicate InRange(t: Tile, x: int) {
    t.thrLo < t.thrHi && t.thrLo <= x <= t.thrHi
  }

  datatype TileOut = TileOut(thr: i16, locked: bool, fire: bool, driven: bool)

  /** An active tile that was not locked: accumulate, decay, saturate, and lock by range. */
  function StepUnlocked(t: Tile, bakeId: u32, thr: i16, inp: Lanes): TileOut {
    var delta := Delta(t, inp, 8);
    var before := thr + delta;
    var after: i16 := SaturateI16(DecayToZero(before, t.decay));
    var enteredByDecay := t.decay > 0 && InRange(t, after) && !InRange(t, before);
    var lock := bakeId > 0 && InRange(t, after)
                && (if t.priority == 7 then enteredByDecay else delta != 0 || enteredByDecay);
    TileOut(after, lock, lock, true)
  }

  /** An active tile that was locked: decay only, and unlock when it leaves the range. */
  function StepLocked(t: Tile, thr: i16): TileOut {
    var after := DecayLocked(thr, t.decay);
    TileOut(after, InRange(t, after), false, InRange(t, after))
  }

  function StepTile(t: Tile, bakeId: u32, active: bool, lockedBefore: bool, thr: i16, inp: Lanes): TileOut {
    if !active then TileOut(0, false, false, false)
    else if lockedBefore then StepLocked(t, thr)
    else StepUnlocked(t, bakeId, thr, inp)
  }

  /** Processing one tile of the flash loop. */
  method ProcessTile(t: Tile, bakeId: u32, active: bool, lockedBefore: bool, thrBefore: i16, ingress: Lanes)
    returns (thr: i16, locked: bool, fire: bool, driven: bool, rowOut: Lanes)
    ensures TileOut(thr, locked, fire, driven) == StepTile(t, bakeId, active, lockedBefore, thrBefore, ingress)
    ensures driven ==> rowOut == RowOuts(t, ingress)
  {
    thr, locked, fire, driven, rowOut := thrBefore, lockedBefore, false, false, ZERO_LANES;
    if !active {
      thr, locked := 0, false;
      return;
    }
    if lockedBefore {
      if t.decay > 0 {
        if thr > 0 {
          thr := WrapI16(thr - t.decay);
          if thr < 0 { thr := 0; }
        } else if thr < 0 {
          thr := WrapI16(thr + t.decay);
          if thr > 0 { thr := 0; }
        }
      }
      var inRange := t.thrLo < t.thrHi && t.thrLo <= thr && thr <= t.thrHi;
      if !inRange {
        locked := false;
        return;
      }
      var _, drive := ComputeRowRaw(t, ingress);
      rowOut, driven := drive, true;
      return;
    }
    var rowSigned, drive := ComputeRowRaw(t, ingress);
    rowOut, driven := drive, true;
    var delta := ComputeDeltaRaw(t, ingress, rowSigned);
    var tmp: int := thrBefore + delta;
    var tmpNoDecay := tmp;
    if t.decay > 0 {
      if tmp > 0 {
        tmp := if tmp - t.decay > 0 then tmp - t.decay else 0;
      } else if tmp < 0 {
        tmp := if tmp + t.decay < 0 then tmp + t.decay else 0;
      }
    }
    thr := if tmp < -32768 then -32768 else if tmp > 32767 then 32767 else tmp;
    var rangeActive := t.thrLo < t.thrHi;
    var inRange := rangeActive && thr >= t.thrLo && thr <= t.thrHi;
    var inRangeBeforeDecay := rangeActive && tmpNoDecay >= t.thrLo && tmpNoDecay <= t.thrHi;
    var hasSignal := delta != 0;
    var enteredByDecay := t.decay > 0 && inRange && !inRangeBeforeDecay;
    if bakeId > 0 && inRange && (if t.priority == 7 then enteredByDecay else hasSignal || enteredByDecay) {
      locked := true;
    }
    fire := !lockedBefore && locked;
  }

  /** The fuse invariant of one step: a tile that comes out locked sits inside its open range. */
  lemma LockedMeansInRange(t: Tile, bakeId: u32, active: bool, lockedBefore: bool, thr: i16, inp: Lanes)
    ensures var o := StepTile(t, bakeId, active, lockedBefore, thr, inp);
            (o.locked ==> InRange(t, o.thr) && active && o.driven) && (o.fire ==> o.locked && !lockedBefore && bakeId > 0)
  {
  }

  /** x lies in the tile's range, and the range is not empty. */
  predicate Inside(t: Tile, x: int) { t.thrLo < t.thrHi && t.thrLo <= x && x <= t.thrHi }

  /** How far an unlocked accumulator goes in one flash: the whole input is added, then it moves towards zero by the
      decay and stops there, and only then is it cut to 16 bits. */
  lemma UnlockedAmount(t: Tile, bakeId: u32, thr: i16, inp: Lanes)
    ensures var x, d: int, after := thr + MatrixSum(t, inp), t.decay, StepTile(t, bakeId, true, false, thr, inp).thr;
            && (x > d ==> after == if x - d > 32767 then 32767 else x - d)
            && (0 - d <= x <= d ==> after == 0)
            && (x < 0 - d ==> after == if x + d < -32768 then -32768 else x + d)
  {
    hide Delta, MatrixSum;
    DeltaIsMatrixSum(t, inp);
  }

  /** When an unlocked tile locks, which is when it fires: its new accumulator is in the range, and there was some input,
      or decay brought it there. For priority 7 only decay counts. */
  lemma UnlockedRule(t: Tile, bakeId: u32, thr: i16, inp: Lanes)
    ensures var x, o := thr + MatrixSum(t, inp), StepTile(t, bakeId, true, false, thr, inp);
            && o.locked == o.fire && o.driven
            && (t.priority != 7 ==>
                  (o.fire <==> bakeId > 0 && Inside(t, o.thr) && (MatrixSum(t, inp) != 0 || !Inside(t, x))))
            && (t.priority == 7 ==> (o.fire <==> bakeId > 0 && t.decay > 0 && Inside(t, o.thr) && !Inside(t, x)))
  {
    hide Delta, MatrixSum;
    DeltaIsMatrixSum(t, inp);
  }

  /** How far a locked accumulator goes, and that it keeps its lock and its drive exactly inside the range. The 16-bit
      subtraction can wrap for decays above 32768. */
  lemma LockedAmount(t: Tile, bakeId: u32, thr: i16, inp: Lanes)
    ensures var d: int, o := t.decay, StepTile(t, bakeId, true, true, thr, inp);
            && (thr == 0 ==> o.thr == 0)
            && (thr > 0 ==> o.thr == if thr - d < -32768 then thr - d + 65536 else if thr - d > 0 then thr - d else 0)
            && (thr < 0 ==> o.thr == if thr + d > 32767 then thr + d - 65536 else if thr + d < 0 then thr + d else 0)
            && o.locked == Inside(t, o.thr) && o.driven == o.locked && !o.fire
  {
  }

  /** Decay in the unlocked path never crosses zero, even after saturation. */
  lemma AccumulatorKeepsSide(t: Tile, bakeId: u32, thr: i16, inp: Lanes)
    ensures var before, after := thr + Delta(t, inp, 8), StepUnlocked(t, bakeId, thr, inp).thr;
            (before >= 0 ==> 0 <= after <= before) && (before <= 0 ==> before <= after <= 0)
  {
  }

  /** The drain detector: a priority-7 tile locks exactly when decay brings an accumulator that stood
      outside the range, on the side away from zero, back into the range. Input alone never locks it. */
  lemma DrainDetector(t: Tile, bakeId: u32, thr: i16, inp: Lanes)
    requires t.priority == 7
    ensures var before, o := thr + Delta(t, inp, 8), StepUnlocked(t, bakeId, thr, inp);
            o.fire <==> bakeId > 0 && t.decay > 0 && InRange(t, o.thr)
                        && ((before > 0 && before > t.thrHi) || (before < 0 && before < t.thrLo))
  {
    AccumulatorKeepsSide(t, bakeId, thr, inp);
  }

  // ---------- Telemetry nibble ----------

  function Abs(x: int): nat { if x < 0 then -x else x }

  function Scale(lo: i16, hi: i16): nat { Max(Abs(lo), Abs(hi)) }

  /** The accumulator on a four-bit scale: 0..7 from zero up, 8..15 below zero. */
  function ThrNorm(thr: i16, lo: i16, hi: i16): Level {
    var scale := Scale(lo, hi);
    if scale <= 0 then 15
    else if thr < 0 then
      NormBound(Min(0 - thr, scale), scale);
      8 + (Min(0 - thr, scale) * 7 + scale / 2) / scale
    else
      NormBound(Min(thr, scale), scale);
      (Min(thr, scale) * 7 + scale / 2) / scale
  }

  lemma NormBound(x: int, scale: int)
    requires 0 <= x <= scale && 0 < scale
    ensures 0 <= (x * 7 + scale / 2) / scale <= 7
  {
    DivBelow(x * 7 + scale / 2, scale, 8);
  }

  lemma DivBelow(a: int, b: int, q: int)
    requires 0 < b && 0 <= a < q * b
    ensures 0 <= a / b < q
  {
    var k := a / b;
    assert a == k * b + a % b;
    assert (k - q) * b == k * b - q * b;
  }

  /** The nibble's high bit is the accumulator's sign whenever the range is not degenerate. */
  lemma ThrNormSign(thr: i16, lo: i16, hi: i16)
    requires lo != 0 || hi != 0
    ensures ThrNorm(thr, lo, hi) >= 8 <==> thr < 0
  {
    var scale := Scale(lo, hi);
    NormBound(Min(Abs(thr), scale), scale);
  }

  /** Its lower three bits are the size: seven times the accumulator over the larger range end, rounded to the nearest
      integer and capped at seven. */
  lemma ThrNormSize(thr: i16, lo: i16, hi: i16, end: int)
    requires 0 < end && (end == lo || end == 0 - lo || end == hi || end == 0 - hi)
    requires 0 - end <= lo <= end && 0 - end <= hi <= end
    ensures var x, size := if thr < 0 then 0 - thr else thr, ThrNorm(thr, lo, hi) - (if thr < 0 then 8 else 0);
            0 <= size <= 7 && if x >= end then size == 7 else 0 - end <= 14 * x - 2 * size * end < end
  {
    assert end == Scale(lo, hi);
    var x := if thr < 0 then 0 - thr else thr;
    NormBound(Min(x, end), end);
    Nearest(Min(x, end), end);
  }

  /** A range from zero to zero gives fifteen. */
  lemma ThrNormOfNothing(thr: i16)
    ensures ThrNorm(thr, 0, 0) == 15
  {
  }

  lemma Nearest(x: int, scale: int)
    requires 0 <= x <= scale && 0 < scale
    ensures var size := (x * 7 + scale / 2) / scale;
            0 - scale <= 14 * x - 2 * size * scale < scale && (x == scale ==> size == 7)
  {
    var a := x * 7 + scale / 2;
    var size := a / scale;
    assert a == size * scale + a % scale;
    assert scale == 2 * (scale / 2) + scale % 2;
    if x == scale {
      assert (size - 7) * scale == scale / 2 - a % scale;
      Seven(size, scale, scale / 2 - a % scale);
    }
  }

  lemma Seven(size: int, scale: int, rest: int)
    requires 0 < scale && (size - 7) * scale == rest && 0 - scale < rest < scale
    ensures size == 7
  {
  }
}
