/** Whole runs: any sequence of flashes and domain resets. */
module Runs {
  import opened Machine
  import opened Grid
  import opened Activation
  import opened TileStep
  import opened Winner
  import opened Bus
  import opened Flash

  datatype Event = Shine(inp: Lanes) | Reset(mask: u16)

  ghost function Step(c: Config, s: State, e: Event): (r: State)
    requires Fits(c, s)
    ensures Fits(c, r)
  {
    match e
    case Shine(inp) => FlashState(c, s, inp)
    case Reset(mask) => ResetState(c, s, mask)
  }

  ghost function Run(c: Config, s: State, es: seq<Event>): (r: State)
    requires Fits(c, s)
    ensures Fits(c, r)
    decreases |es|
  {
    if es == [] then s else Run(c, Step(c, s, es[0]), es[1..])
  }

  function FlashCount(es: seq<Event>): nat {
    if es == [] then 0 else (if es[0].Shine? then 1 else 0) + FlashCount(es[1..])
  }

  // ---------- The fuse invariant over runs ----------

  /** Once a run contains a flash, every locked tile sits inside its open range, whatever the start was. */
  lemma {:induction false} RunFuses(c: Config, s: State, es: seq<Event>)
    requires Fits(c, s) && (Fused(c, s) || FlashCount(es) > 0)
    ensures Fused(c, Run(c, s, es))
    decreases |es|
  {
    if es != [] {
      match es[0] {
        case Shine(inp) => FlashFuses(c, s, inp);
        case Reset(mask) => if Fused(c, s) { ResetKeepsFused(c, s, mask); }
      }
      RunFuses(c, Step(c, s, es[0]), es[1..]);
    }
  }

  // ---------- Relay speed ----------

  /** Tile t is reached from a BUS_R tile by at most k routing hops. */
  ghost predicate WithinHops(c: Config, k: nat, t: nat)
    requires c.Valid()
  {
    if k == 0 then t < c.n && c.tiles[t].busR
    else WithinHops(c, k - 1, t) || exists p: nat :: WithinHops(c, k - 1, p) && Edge(c, p, t)
  }

  /** Where a swarm that started unlocked can be alive after k flashes. */
  ghost predicate Confined(c: Config, s: State, k: nat)
    requires Fits(c, s)
  {
    if k == 0 then forall t | 0 <= t < c.n :: !s.locked[t]
    else forall t: nat | t < c.n && (s.locked[t] || s.thr[t] != 0) :: WithinHops(c, k - 1, t)
  }

  lemma FlashConfines(c: Config, s: State, inp: Lanes, k: nat)
    requires Fits(c, s) && Confined(c, s, k)
    ensures Confined(c, FlashState(c, s, inp), k + 1)
  {
    var S := set t: nat | t < c.n && WithinHops(c, k, t);
    forall t: nat | t < c.n && c.tiles[t].busR
      ensures t in S
    {
      SourcesWithin(c, k, t);
    }
    forall p: nat, q: nat | p in S && p < c.n && s.locked[p] && Edge(c, p, q)
      ensures q in S
    {
      EdgeInRange(c, p, q);
      assert k > 0 && WithinHops(c, k - 1, p);
    }
    ActiveSetIsLeast(c, s.locked, S);
  }

  lemma {:induction false} SourcesWithin(c: Config, k: nat, t: nat)
    requires c.Valid() && t < c.n && c.tiles[t].busR
    ensures WithinHops(c, k, t)
  {
    if k > 0 {
      SourcesWithin(c, k - 1, t);
    }
  }

  /** Activation travels at most one hop per flash: after k >= 1 flashes, interleaved with any resets, a
      swarm that started unlocked is alive only within k - 1 hops of a BUS_R tile. */
  lemma {:induction false} RelaySpeed(c: Config, s: State, es: seq<Event>, k: nat)
    requires Fits(c, s) && Confined(c, s, k)
    ensures Confined(c, Run(c, s, es), k + FlashCount(es))
    decreases |es|
  {
    if es != [] {
      match es[0] {
        case Shine(inp) =>
          FlashConfines(c, s, inp, k);
          RelaySpeed(c, FlashState(c, s, inp), es[1..], k + 1);
        case Reset(mask) =>
          RelaySpeed(c, ResetState(c, s, mask), es[1..], k);
      }
    }
  }

  // ---------- Reset erases history ----------

  /** Equal accumulators and locks on the active tiles; the stale rows may differ. */
  ghost predicate Agree(c: Config, s: State, s': State)
    requires Fits(c, s) && Fits(c, s')
  {
    forall t | 0 <= t < c.n :: s.thr[t] == s'.thr[t] && s.locked[t] == s'.locked[t]
  }

  lemma FlashRespectsAgreement(c: Config, s: State, s': State, inp: Lanes)
    requires Fits(c, s) && Fits(c, s') && Agree(c, s, s')
    ensures FireOf(c, s, inp) == FireOf(c, s', inp)
    ensures AfterRead(c, s, inp).locked[..c.n] == AfterRead(c, s', inp).locked[..c.n]
    ensures Agree(c, FlashState(c, s, inp), FlashState(c, s', inp))
  {
    ActiveMonotone(c, s.locked, s'.locked);
    ActiveMonotone(c, s'.locked, s.locked);
    assert FireOf(c, s, inp) == FireOf(c, s', inp);
  }

  /** What a tape shows after one event: accumulators, locks, fire flags and the sixteen winners. */
  datatype Sight = Sight(thr: seq<i16>, locked: seq<bool>, fire: seq<bool>, winner: seq<u16>)

  ghost function SightOf(c: Config, s: State, e: Event): Sight
    requires Fits(c, s)
  {
    var r := Step(c, s, e);
    var fire := if e.Shine? then FireOf(c, s, e.inp) else [];
    Sight(r.thr[..c.n], r.locked[..c.n], fire,
      if e.Shine? then seq(16, d requires 0 <= d < 16 => WinnerOf(c, fire, c.n, d)) else [])
  }

  ghost function Tape(c: Config, s: State, es: seq<Event>): seq<Sight>
    requires Fits(c, s)
    decreases |es|
  {
    if es == [] then [] else [SightOf(c, s, es[0])] + Tape(c, Step(c, s, es[0]), es[1..])
  }

  lemma {:induction false} TapeDependsOnAgreement(c: Config, s: State, s': State, es: seq<Event>)
    requires Fits(c, s) && Fits(c, s') && Agree(c, s, s')
    ensures Tape(c, s, es) == Tape(c, s', es)
    decreases |es|
  {
    if es != [] {
      if es[0].Shine? {
        FlashRespectsAgreement(c, s, s', es[0].inp);
      }
      var r, r' := Step(c, s, es[0]), Step(c, s', es[0]);
      assert Agree(c, r, r');
      assert r.thr[..c.n] == r'.thr[..c.n] && r.locked[..c.n] == r'.locked[..c.n];
      TapeDependsOnAgreement(c, r, r', es[1..]);
    }
  }

  lemma {:induction false} AllOnes(k: nat, d: nat)
    requires d < k
    ensures Bit(Pow2(k) - 1, d)
  {
    if d > 0 {
      AllOnes(k - 1, d - 1);
      assert (Pow2(k) - 1) / 2 == Pow2(k - 1) - 1;
    }
  }

  lemma FullMaskHits(d: nat)
    ensures Hits(0xFFFF, d) <==> d < DOMAINS
  {
    Pow2Of16();
    if d < DOMAINS {
      AllOnes(16, d);
    }
  }

  /** Resetting all domains leaves a swarm that no tape can tell from a freshly created one with the same
      bake: stale rows and everything else an earlier run left behind have no influence on accumulators,
      locks, fires and winners. */
  lemma ResetErasesHistory(c: Config, s: State, es: seq<Event>)
    requires Fits(c, s) && forall t | 0 <= t < c.n :: c.tiles[t].domain < DOMAINS
    ensures Tape(c, ResetState(c, s, 0xFFFF), es) == Tape(c, Fresh(|c.tiles|), es)
  {
    forall t: nat | t < c.n
      ensures Hits(0xFFFF, c.tiles[t].domain)
    {
      FullMaskHits(c.tiles[t].domain);
    }
    TapeDependsOnAgreement(c, ResetState(c, s, 0xFFFF), Fresh(|c.tiles|), es);
  }

  // ---------- When the BUS forgets ----------

  /** A permitted writer below k that was not driven in this flash: it puts out the row of an earlier one. */
  ghost predicate StaleWriter(c: Config, s: State, inp: Lanes, k: nat)
    requires Fits(c, s) && k <= c.n
  {
    exists t: nat :: t < k && Writes(c, AfterRead(c, s, inp).locked, t) && !OutAt(c, s, inp, t).driven
  }

  /** What the permitted writers that were driven put on one lane. */
  ghost function DrivenSum(c: Config, s: State, inp: Lanes, k: nat, lane: nat): nat
    requires Fits(c, s) && k <= c.n && lane < 8
  {
    if k == 0 then 0
    else DrivenSum(c, s, inp, k - 1, lane)
         + if Writes(c, AfterRead(c, s, inp).locked, k - 1) && OutAt(c, s, inp, k - 1).driven
           then RowOuts(c.tiles[k - 1], inp)[lane] else 0
  }

  /** Whatever earlier flashes left in the rows, the BUS of this flash is the same. */
  ghost predicate BusForgets(c: Config, s: State, inp: Lanes)
    requires Fits(c, s)
  {
    forall s': State | Fits(c, s') && Agree(c, s, s') :: FlashBus(c, s', inp) == FlashBus(c, s, inp)
  }

  ghost function WithRows(c: Config, s: State, row: Lanes): (r: State)
    requires Fits(c, s)
    ensures Fits(c, r) && Agree(c, s, r) && forall t | 0 <= t < |c.tiles| :: r.row[t] == row
  {
    s.(row := seq(|c.tiles|, _ => row))
  }

  lemma {:induction false} LaneSums(c: Config, s: State, inp: Lanes, k: nat, lane: nat)
    requires Fits(c, s) && k <= c.n && lane < 8
    ensures var sum := BusSum(c, AfterRead(c, s, inp).locked, AfterRead(c, s, inp).row, k, lane);
            && DrivenSum(c, s, inp, k, lane) <= sum
            && (!StaleWriter(c, s, inp, k) ==> sum == DrivenSum(c, s, inp, k, lane))
            && ((forall t | 0 <= t < c.n :: s.row[t] == ZERO_LANES) ==> sum == DrivenSum(c, s, inp, k, lane))
            && ((forall t | 0 <= t < c.n :: s.row[t] == FULL_LANES) && StaleWriter(c, s, inp, k) ==>
                  sum >= DrivenSum(c, s, inp, k, lane) + 15)
  {
    hide Writes, RowOuts, OutAt, AfterRead;
    if k > 0 {
      LaneSums(c, s, inp, k - 1, lane);
      RowAfterRead(c, s, inp, k - 1);
    }
  }

  lemma RowAfterRead(c: Config, s: State, inp: Lanes, t: nat)
    requires Fits(c, s) && t < c.n
    ensures AfterRead(c, s, inp).row[t] == if OutAt(c, s, inp, t).driven then RowOuts(c.tiles[t], inp) else s.row[t]
  {
  }

  /** Writers, and which of them are driven, depend on accumulators and locks only. */
  lemma SameDriven(c: Config, s: State, s': State, inp: Lanes)
    requires Fits(c, s) && Fits(c, s') && Agree(c, s, s')
    ensures forall t: nat | t < c.n ::
              && OutAt(c, s, inp, t) == OutAt(c, s', inp, t)
              && Writes(c, AfterRead(c, s, inp).locked, t) == Writes(c, AfterRead(c, s', inp).locked, t)
  {
    FlashRespectsAgreement(c, s, s', inp);
    ActiveMonotone(c, s.locked, s'.locked);
    ActiveMonotone(c, s'.locked, s.locked);
    forall t: nat | t < c.n
      ensures Writes(c, AfterRead(c, s, inp).locked, t) == Writes(c, AfterRead(c, s', inp).locked, t)
    {
      SameWriters(c, AfterRead(c, s, inp).locked, AfterRead(c, s', inp).locked, t);
    }
  }

  lemma {:induction false} SameDrivenSum(c: Config, s: State, s': State, inp: Lanes, k: nat, lane: nat)
    requires Fits(c, s) && Fits(c, s') && Agree(c, s, s') && k <= c.n && lane < 8
    ensures DrivenSum(c, s, inp, k, lane) == DrivenSum(c, s', inp, k, lane)
    ensures StaleWriter(c, s, inp, k) <==> StaleWriter(c, s', inp, k)
  {
    hide Writes, RowOuts, OutAt, AfterRead;
    SameDriven(c, s, s', inp);
    if k > 0 {
      SameDrivenSum(c, s, s', inp, k - 1, lane);
    }
  }

  /** The BUS of a flash does not depend on earlier rows exactly when every permitted writer was driven in it, or
      the driven ones saturate all eight lanes by themselves. */
  lemma BusForgetsExactly(c: Config, s: State, inp: Lanes)
    requires Fits(c, s)
    ensures BusForgets(c, s, inp)
            <==> !StaleWriter(c, s, inp, c.n) || forall lane: nat | lane < 8 :: DrivenSum(c, s, inp, c.n, lane) >= 15
  {
    hide Writes, RowOuts, OutAt, AfterRead, StaleWriter, DrivenSum, BusSum, FlashBus;
    var loud := forall lane: nat | lane < 8 :: DrivenSum(c, s, inp, c.n, lane) >= 15;
    if !StaleWriter(c, s, inp, c.n) || loud {
      forall s': State | Fits(c, s') && Agree(c, s, s')
        ensures FlashBus(c, s', inp) == FlashBus(c, s, inp)
      {
        forall lane: nat | lane < 8
          ensures FlashBus(c, s', inp)[lane] == FlashBus(c, s, inp)[lane]
        {
          LaneOf(c, s, s', inp, lane);
          LaneOf(c, s, s, inp, lane);
        }
      }
    } else {
      var lane: nat :| lane < 8 && DrivenSum(c, s, inp, c.n, lane) < 15;
      var low, high := WithRows(c, s, ZERO_LANES), WithRows(c, s, FULL_LANES);
      LaneOf(c, s, low, inp, lane);
      LaneOf(c, s, high, inp, lane);
      assert FlashBus(c, low, inp)[lane] < FlashBus(c, high, inp)[lane];
    }
  }

  lemma LaneOf(c: Config, s: State, s': State, inp: Lanes, lane: nat)
    requires Fits(c, s) && Fits(c, s') && Agree(c, s, s') && lane < 8
    ensures var bus, sum := FlashBus(c, s', inp)[lane], DrivenSum(c, s, inp, c.n, lane);
            && bus >= Min(15, sum)
            && (!StaleWriter(c, s, inp, c.n) ==> bus == Min(15, sum))
            && ((forall t | 0 <= t < c.n :: s'.row[t] == ZERO_LANES) ==> bus == Min(15, sum))
            && ((forall t | 0 <= t < c.n :: s'.row[t] == FULL_LANES) && StaleWriter(c, s, inp, c.n) ==> bus == 15)
  {
    hide Writes, RowOuts, OutAt, AfterRead, StaleWriter, DrivenSum, BusSum;
    LaneSums(c, s', inp, c.n, lane);
    SameDrivenSum(c, s, s', inp, c.n, lane);
  }

  /** In particular the BUS joins in when every permitted writer was driven in this flash. */
  lemma BusForgetsWhenDriven(c: Config, s: State, s': State, inp: Lanes)
    requires Fits(c, s) && Fits(c, s') && Agree(c, s, s')
    requires forall t: nat | Writes(c, AfterRead(c, s, inp).locked, t) :: OutAt(c, s, inp, t).driven
    ensures FlashBus(c, s, inp) == FlashBus(c, s', inp)
  {
    BusForgetsExactly(c, s, inp);
  }

  lemma SameWriters(c: Config, locked: seq<bool>, locked': seq<bool>, t: nat)
    requires c.Valid() && c.n <= |locked| && c.n <= |locked'| && t < c.n
    requires locked[..c.n] == locked'[..c.n]
    ensures Writes(c, locked, t) == Writes(c, locked', t)
  {
    assert forall p: nat | p < c.n :: locked[p] == locked[..c.n][p] && locked'[p] == locked'[..c.n][p];
    if 0 < c.w {
      WriteSourceExact(c, locked, t);
      WriteSourceExact(c, locked', t);
      assert forall p: nat, d: Dir :: SeenFrom(c, locked, p, t, d) == SeenFrom(c, locked', p, t, d);
    }
  }

  // ---------- How long a lock lasts ----------

  lemma DecayComposes(x: int, a: nat, b: nat)
    ensures DecayToZero(DecayToZero(x, a), b) == DecayToZero(x, a + b)
  {
  }

  /** Nothing but decay touches tile t in this run: it is active in every flash, and no reset hits it. */
  ghost predicate Held(c: Config, s: State, es: seq<Event>, t: nat)
    requires Fits(c, s) && t < c.n
    decreases |es|
  {
    es == [] ||
    ((match es[0]
      case Shine(inp) => IsActive(c, s, t) && !Wiped(c, FireOf(c, s, inp), t)
      case Reset(mask) => !Hits(mask, c.tiles[t].domain))
     && Held(c, Step(c, s, es[0]), es[1..], t))
  }

  ghost predicate LockedThroughout(c: Config, s: State, es: seq<Event>, t: nat)
    requires Fits(c, s) && t < c.n
    decreases |es|
  {
    s.locked[t] && (es == [] || LockedThroughout(c, Step(c, s, es[0]), es[1..], t))
  }

  lemma OneHeldFlash(c: Config, s: State, inp: Lanes, t: nat)
    requires Fits(c, s) && t < c.n && NoWrap(s.thr[t], c.tiles[t].decay) && s.locked[t]
    ensures var x, r := DecayToZero(s.thr[t], c.tiles[t].decay), FlashState(c, s, inp);
            && (r.locked[t] <==> IsActive(c, s, t) && !Wiped(c, FireOf(c, s, inp), t) && InRange(c.tiles[t], x))
            && (r.locked[t] ==> r.thr[t] == x && NoWrap(x, c.tiles[t].decay))
  {
    DecayLockedExact(s.thr[t], c.tiles[t].decay);
    NoWrapLasts(s.thr[t], c.tiles[t].decay);
  }

  lemma OneHeldReset(c: Config, s: State, mask: u16, t: nat)
    requires Fits(c, s) && t < c.n && s.locked[t]
    ensures var r := ResetState(c, s, mask);
            && (r.locked[t] <==> !Hits(mask, c.tiles[t].domain))
            && (r.locked[t] ==> r.thr[t] == s.thr[t])
  {
  }

  lemma NoDecay(x: int)
    ensures DecayToZero(x, 0) == x
  {
  }

  /** A range that holds the start and the end of a decay holds everything between. */
  lemma DecayIsConvex(t: Tile, x: int, a: nat, b: nat)
    requires InRange(t, x)
    ensures InRange(t, DecayToZero(x, a + b)) <==>
            InRange(t, DecayToZero(x, a)) && InRange(t, DecayToZero(DecayToZero(x, a), b))
  {
    DecayComposes(x, a, b);
  }

  /** A lock survives a run exactly when the tile is held and the accumulator, decayed once per flash, is
      still in the range at the end. This is so for every decay up to 32768, and beyond for accumulators whose first
      decay does not wrap. */
  lemma {:induction false} LockLifetime(c: Config, s: State, es: seq<Event>, t: nat)
    requires Fits(c, s) && t < c.n && NoWrap(s.thr[t], c.tiles[t].decay)
    requires s.locked[t] && InRange(c.tiles[t], s.thr[t])
    ensures LockedThroughout(c, s, es, t)
            <==> Held(c, s, es, t) && InRange(c.tiles[t], DecayToZero(s.thr[t], FlashCount(es) * c.tiles[t].decay))
    decreases |es|
  {
    hide FlashState, ResetState, IsActive, FireOf, Wiped, Hits, InRange, DecayToZero, NoWrap;
    if es == [] {
      NoDecay(s.thr[t]);
    } else {
      var d: nat, k := c.tiles[t].decay, FlashCount(es[1..]);
      var r := Step(c, s, es[0]);
      match es[0] {
        case Shine(inp) =>
          OneHeldFlash(c, s, inp, t);
          assert FlashCount(es) * d == d + k * d;
          DecayIsConvex(c.tiles[t], s.thr[t], d, k * d);
        case Reset(mask) =>
          OneHeldReset(c, s, mask, t);
      }
      if r.locked[t] {
        LockLifetime(c, r, es[1..], t);
      } else {
        UnlockedNow(c, s, es, t);
      }
    }
  }

  lemma UnlockedNow(c: Config, s: State, es: seq<Event>, t: nat)
    requires Fits(c, s) && t < c.n && es != [] && !Step(c, s, es[0]).locked[t]
    ensures !LockedThroughout(c, s, es, t)
  {
    assert !LockedThroughout(c, Step(c, s, es[0]), es[1..], t);
  }

  /** A range around zero holds its lock for as long as the tile is held. */
  lemma RangeAroundZeroNeverUnlocks(c: Config, s: State, es: seq<Event>, t: nat)
    requires Fits(c, s) && t < c.n && NoWrap(s.thr[t], c.tiles[t].decay)
    requires s.locked[t] && InRange(c.tiles[t], s.thr[t])
    requires c.tiles[t].thrLo <= 0 <= c.tiles[t].thrHi
    ensures LockedThroughout(c, s, es, t) <==> Held(c, s, es, t)
  {
    LockLifetime(c, s, es, t);
    assert FlashCount(es) * c.tiles[t].decay >= 0;
  }

  /** A range above zero loses its lock after exactly floor((thr - lo) / d) held flashes, and no run keeps
      it longer. */
  lemma RangeAboveZeroExpires(c: Config, s: State, es: seq<Event>, t: nat)
    requires Fits(c, s) && t < c.n && 0 < c.tiles[t].decay && NoWrap(s.thr[t], c.tiles[t].decay)
    requires s.locked[t] && InRange(c.tiles[t], s.thr[t]) && c.tiles[t].thrLo > 0
    ensures LockedThroughout(c, s, es, t)
            <==> Held(c, s, es, t) && FlashCount(es) <= (s.thr[t] - c.tiles[t].thrLo) / c.tiles[t].decay
  {
    LockLifetime(c, s, es, t);
    StaysAboveZero(c.tiles[t], s.thr[t], FlashCount(es) * c.tiles[t].decay);
    QuotientBound(FlashCount(es), s.thr[t] - c.tiles[t].thrLo, c.tiles[t].decay);
  }

  lemma RangeBelowZeroExpires(c: Config, s: State, es: seq<Event>, t: nat)
    requires Fits(c, s) && t < c.n && 0 < c.tiles[t].decay && NoWrap(s.thr[t], c.tiles[t].decay)
    requires s.locked[t] && InRange(c.tiles[t], s.thr[t]) && c.tiles[t].thrHi < 0
    ensures LockedThroughout(c, s, es, t)
            <==> Held(c, s, es, t) && FlashCount(es) <= (c.tiles[t].thrHi - s.thr[t]) / c.tiles[t].decay
  {
    LockLifetime(c, s, es, t);
    StaysBelowZero(c.tiles[t], s.thr[t], FlashCount(es) * c.tiles[t].decay);
    QuotientBound(FlashCount(es), c.tiles[t].thrHi - s.thr[t], c.tiles[t].decay);
  }

  lemma StaysAboveZero(t: Tile, x: int, total: nat)
    requires InRange(t, x) && t.thrLo > 0
    ensures InRange(t, DecayToZero(x, total)) <==> total <= x - t.thrLo
  {
  }

  lemma StaysBelowZero(t: Tile, x: int, total: nat)
    requires InRange(t, x) && t.thrHi < 0
    ensures InRange(t, DecayToZero(x, total)) <==> total <= t.thrHi - x
  {
  }

  lemma QuotientBound(k: nat, x: int, d: nat)
    requires 0 < d && 0 <= x
    ensures k * d <= x <==> k <= x / d
  {
    var q := x / d;
    assert x == q * d + x % d;
    if k <= q {
      assert (q - k) * d >= 0;
    } else {
      assert (k - q - 1) * d >= 0;
      assert k * d == (k - q - 1) * d + q * d + d;
    }
  }

  // ---------- How an unlocked accumulator runs down ----------

  /** No flash of the run brings tile t any input. */
  ghost predicate Silence(c: Config, es: seq<Event>, t: nat)
    requires c.Valid() && t < c.n
  {
    es == [] || ((es[0].Shine? ==> MatrixSum(c.tiles[t], es[0].inp) == 0) && Silence(c, es[1..], t))
  }

  /** x closer to zero by d, or zero if it is no farther away than that. */
  function RunDown(x: int, d: int): int { if x > d then x - d else if x < 0 - d then x + d else 0 }

  lemma RunDownTwice(x: int, a: nat, b: nat)
    ensures RunDown(RunDown(x, a), b) == RunDown(x, a + b) && RunDown(x, 0) == x
  {
  }

  lemma OneSilentFlash(c: Config, s: State, inp: Lanes, t: nat)
    requires Fits(c, s) && t < c.n && c.tiles[t].thrLo >= c.tiles[t].thrHi && !s.locked[t]
    requires MatrixSum(c.tiles[t], inp) == 0 && IsActive(c, s, t) && !Wiped(c, FireOf(c, s, inp), t)
    ensures var r, d: int := FlashState(c, s, inp), c.tiles[t].decay;
            && !r.locked[t]
            && r.thr[t] == RunDown(s.thr[t], d)
  {
    hide MatrixSum, StepTile, Wiped;
    UnlockedAmount(c.tiles[t], c.bakeId, s.thr[t], inp);
    UnlockedRule(c.tiles[t], c.bakeId, s.thr[t], inp);
    FlashOfTile(c, s, inp, t);
  }

  /** A tile with an empty range that is active in every flash, gets no input and is hit by no reset runs down to zero
      by its decay per flash, from either side, and never locks. */
  lemma {:induction false} SilenceRunsDown(c: Config, s: State, es: seq<Event>, t: nat)
    requires Fits(c, s) && t < c.n && c.tiles[t].thrLo >= c.tiles[t].thrHi && !s.locked[t]
    requires Held(c, s, es, t) && Silence(c, es, t)
    ensures var r, total := Run(c, s, es), FlashCount(es) * c.tiles[t].decay;
            && !r.locked[t]
            && r.thr[t] == RunDown(s.thr[t], total)
    decreases |es|
  {
    hide FlashState, ResetState, IsActive, FireOf, Wiped, Hits, MatrixSum, RunDown;
    RunDownTwice(s.thr[t], 0, 0);
    if es != [] {
      var d: nat, k := c.tiles[t].decay, FlashCount(es[1..]);
      match es[0] {
        case Shine(inp) =>
          OneSilentFlash(c, s, inp, t);
          assert FlashCount(es) * d == d + k * d;
          RunDownTwice(s.thr[t], d, k * d);
        case Reset(mask) =>
          OneMissedReset(c, s, mask, t);
      }
      assert k * d >= 0;
      SilenceRunsDown(c, Step(c, s, es[0]), es[1..], t);
    }
  }

  lemma OneMissedReset(c: Config, s: State, mask: u16, t: nat)
    requires Fits(c, s) && t < c.n && !Hits(mask, c.tiles[t].domain)
    ensures ResetState(c, s, mask).thr[t] == s.thr[t] && ResetState(c, s, mask).locked[t] == s.locked[t]
  {
  }
}
