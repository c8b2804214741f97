/** One flash as a function of the bake, the runtime state and the ingress vector. */
module Flash {
  import opened Machine
  import opened Grid
  import opened Activation
  import opened TileStep
  import opened Winner
  import opened Bus

  /** The runtime state that survives from one flash to the next. */
  datatype State = State(thr: seq<i16>, locked: seq<bool>, row: seq<Lanes>)

  ghost predicate Fits(c: Config, s: State) {
    c.Valid() && |s.thr| == |s.locked| == |s.row| == |c.tiles|
  }

  /** A fresh swarm: everything zero. */
  function Fresh(size: nat): State {
    State(seq(size, _ => 0), seq(size, _ => false), seq(size, _ => ZERO_LANES))
  }

  ghost predicate IsActive(c: Config, s: State, t: nat)
    requires Fits(c, s)
  {
    t in ActiveSet(c, s.locked)
  }

  ghost function OutAt(c: Config, s: State, inp: Lanes, t: nat): TileOut
    requires Fits(c, s) && t < c.n
  {
    StepTile(c.tiles[t], c.bakeId, IsActive(c, s, t), s.locked[t], s.thr[t], inp)
  }

  /** After the read phase. Rows of tiles that were not driven keep what an earlier flash left there. */
  ghost function AfterRead(c: Config, s: State, inp: Lanes): (r: State)
    requires Fits(c, s)
    ensures Fits(c, r)
  {
    State(
      seq(|c.tiles|, t requires 0 <= t < |c.tiles| => if t < c.n then OutAt(c, s, inp, t).thr else s.thr[t]),
      seq(|c.tiles|, t requires 0 <= t < |c.tiles| => if t < c.n then OutAt(c, s, inp, t).locked else s.locked[t]),
      seq(|c.tiles|, t requires 0 <= t < |c.tiles| =>
        if t < c.n && OutAt(c, s, inp, t).driven then RowOuts(c.tiles[t], inp) else s.row[t]))
  }

  ghost function FireOf(c: Config, s: State, inp: Lanes): (f: seq<bool>)
    requires Fits(c, s)
    ensures |f| == |c.tiles|
  {
    seq(|c.tiles|, t requires 0 <= t < |c.tiles| => t < c.n && OutAt(c, s, inp, t).fire)
  }

  /** Auto-reset hits tile t: its domain is in some winner's mask and it won no domain itself. */
  ghost predicate Wiped(c: Config, fire: seq<bool>, t: nat)
    requires c.Valid() && |fire| == |c.tiles|
  {
    t < c.n && c.tiles[t].domain < DOMAINS && AutoReset(c, fire, c.tiles[t].domain) && !IsWinner(c, fire, t)
  }

  ghost function AfterAutoReset(c: Config, s: State, fire: seq<bool>): (r: State)
    requires Fits(c, s) && |fire| == |c.tiles|
    ensures Fits(c, r) && r.row == s.row
  {
    State(
      seq(|c.tiles|, t requires 0 <= t < |c.tiles| => if Wiped(c, fire, t) then 0 else s.thr[t]),
      seq(|c.tiles|, t requires 0 <= t < |c.tiles| => s.locked[t] && !Wiped(c, fire, t)),
      s.row)
  }

  /** The state after a whole flash. */
  ghost function FlashState(c: Config, s: State, inp: Lanes): (r: State)
    requires Fits(c, s)
    ensures Fits(c, r)
  {
    AfterAutoReset(c, AfterRead(c, s, inp), FireOf(c, s, inp))
  }

  /** The BUS of a flash: what its readout carries in raw-bus mode. */
  ghost function FlashBus(c: Config, s: State, inp: Lanes): Lanes
    requires Fits(c, s)
  {
    BusLanes(c, AfterRead(c, s, inp).locked, AfterRead(c, s, inp).row)
  }

  /** The flash divides by a row width of zero, in its read or in its write phase. */
  ghost predicate FlashDivides(c: Config, s: State, inp: Lanes)
    requires Fits(c, s)
  {
    ActivationDivides(c, s.locked) || WriteDivides(c, AfterRead(c, s, inp).locked)
  }

  /** No state and no ingress make it divide by zero. */
  ghost predicate NeverDivides(c: Config)
    requires c.Valid()
  {
    forall s: State, inp: Lanes | Fits(c, s) :: !FlashDivides(c, s, inp)
  }

  /** ev_reset_domain between flashes. */
  ghost function ResetState(c: Config, s: State, mask: u16): (r: State)
    requires Fits(c, s)
    ensures Fits(c, r)
  {
    State(
      seq(|c.tiles|, t requires 0 <= t < |c.tiles| => if t < c.n && Hits(mask, c.tiles[t].domain) then 0 else s.thr[t]),
      seq(|c.tiles|, t requires 0 <= t < |c.tiles| => s.locked[t] && !(t < c.n && Hits(mask, c.tiles[t].domain))),
      s.row)
  }

  // ---------- Rows of width zero ----------

  lemma RowsNeverDivide(c: Config)
    requires c.Valid() && 0 < c.w
    ensures NeverDivides(c)
  {
  }

  /** A mask east, west or diagonal. */
  predicate AsksColumn(m: Tile) { m.maskE || m.maskW || m.maskNE || m.maskNW || m.maskSE || m.maskSW }

  /** A flash with rows of width zero divides exactly when a locked BUS_R tile has a mask that asks for a column, or
      some BUS_W tile does not come out of the read phase locked. */
  lemma WidthZeroDivides(c: Config, s: State, inp: Lanes)
    requires Fits(c, s) && c.w == 0
    ensures FlashDivides(c, s, inp) <==>
            || (exists t: nat :: t < c.n && c.tiles[t].busR && s.locked[t] && AsksColumn(c.tiles[t]))
            || (exists t: nat :: t < c.n && c.tiles[t].busW && !AfterRead(c, s, inp).locked[t])
  {
    hide AfterRead;
    WidthZeroActivation(c, s.locked);
    assert forall t: nat | t < c.n :: DividesAt(c, t) <==> AsksColumn(c.tiles[t]);
  }

  /** So a bake without BUS_W tiles flashes from a fresh swarm, and one with neither BUS_W tiles nor BUS_R tiles that
      ask for a column flashes from every state. */
  lemma WidthZeroFlashes(c: Config)
    requires c.Valid() && c.w == 0 && forall t: nat | t < c.n :: !c.tiles[t].busW
    ensures forall inp: Lanes :: !FlashDivides(c, Fresh(|c.tiles|), inp)
    ensures (forall t: nat | t < c.n && c.tiles[t].busR :: !AsksColumn(c.tiles[t])) <==> NeverDivides(c)
  {
    hide FlashDivides, AfterRead;
    forall s: State, inp: Lanes | Fits(c, s)
      ensures FlashDivides(c, s, inp) <==> exists t: nat :: t < c.n && c.tiles[t].busR && s.locked[t] && AsksColumn(c.tiles[t])
    {
      WidthZeroDivides(c, s, inp);
    }
    var lit := Fresh(|c.tiles|).(locked := seq(|c.tiles|, _ => true));
    assert Fits(c, lit);
    if NeverDivides(c) {
      assert !FlashDivides(c, lit, ZERO_LANES);
    }
  }

  // ---------- One flash, tile by tile ----------

  /** What a flash leaves in tile t: the tile's own step, on the state before and with the lock it had then, unless
      auto-reset wipes it; and the row of this flash if the tile was driven, of an earlier one if not. */
  lemma FlashOfTile(c: Config, s: State, inp: Lanes, t: nat)
    requires Fits(c, s) && t < |c.tiles|
    ensures var r := FlashState(c, s, inp);
            if t >= c.n then r.thr[t] == s.thr[t] && r.locked[t] == s.locked[t] && r.row[t] == s.row[t]
            else
              var o := StepTile(c.tiles[t], c.bakeId, t in ActiveSet(c, s.locked), s.locked[t], s.thr[t], inp);
              && FireOf(c, s, inp)[t] == o.fire
              && r.thr[t] == (if Wiped(c, FireOf(c, s, inp), t) then 0 else o.thr)
              && r.locked[t] == (o.locked && !Wiped(c, FireOf(c, s, inp), t))
              && r.row[t] == if o.driven then RowOuts(c.tiles[t], inp) else s.row[t]
  {
    hide StepTile, RowOuts, AutoReset, IsWinner;
  }

  /** Which tiles auto-reset wipes, given the sixteen reported winners: those in a domain whose bit some winner's mask
      has, and which win no domain. */
  lemma WipedInFields(c: Config, fire: seq<bool>, winner: seq<u16>, t: nat)
    requires c.Valid() && |fire| == |c.tiles| && |winner| == 16
    requires forall d | 0 <= d < 16 :: winner[d] == WinnerOf(c, fire, c.n, d)
    ensures Wiped(c, fire, t) <==>
              && t < c.n && c.tiles[t].domain < 16
              && (exists d :: 0 <= d < 16 && AsksFor(c, winner[d], c.tiles[t].domain))
              && t !in winner
  {
    hide AsksReset, AsksFor;
    if t < c.n {
      var e: nat := c.tiles[t].domain;
      forall d: nat | d < 16
        ensures AsksReset(c, fire, d, e) <==> AsksFor(c, winner[d], e)
      {
        AsksInFields(c, fire, d, e);
      }
      if AutoReset(c, fire, e) {
        var d :| 0 <= d < 16 && AsksReset(c, fire, d, e);
        assert AsksFor(c, winner[d], e);
      }
      if exists d :: 0 <= d < 16 && AsksFor(c, winner[d], e) {
        var d :| 0 <= d < 16 && AsksFor(c, winner[d], e);
        assert AsksReset(c, fire, d, e);
      }
      if IsWinner(c, fire, t) {
        var d :| 0 <= d < DOMAINS && t == WinnerOf(c, fire, c.n, d);
        assert winner[d] == t;
      }
      if t in winner {
        var d :| 0 <= d < 16 && winner[d] == t;
        assert t == WinnerOf(c, fire, c.n, d);
      }
    }
  }

  lemma AsksInFields(c: Config, fire: seq<bool>, d: nat, e: nat)
    requires c.n <= |fire| == |c.tiles| <= 0xFFFF
    ensures AsksReset(c, fire, d, e) <==> AsksFor(c, WinnerOf(c, fire, c.n, d), e)
  {
    var w := WinnerOf(c, fire, c.n, d);
    if w < |c.tiles| {
      BitIsQuotient(c.tiles[w].resetMask, e);
    }
  }

  /** Tile w is one, and its reset mask has the bit of domain e. */
  predicate AsksFor(c: Config, w: nat, e: nat) { w < |c.tiles| && c.tiles[w].resetMask / Pow2(e) % 2 == 1 }

  /** A domain reset zeroes exactly the active tiles whose domain's bit is in the mask, and touches no row. */
  lemma ResetOfTile(c: Config, s: State, mask: u16, t: nat)
    requires Fits(c, s) && t < |c.tiles|
    ensures var r, hit := ResetState(c, s, mask), t < c.n && c.tiles[t].domain < 16 && mask / Pow2(c.tiles[t].domain) % 2 == 1;
            && r.thr[t] == (if hit then 0 else s.thr[t])
            && r.locked[t] == (!hit && s.locked[t])
            && r.row[t] == s.row[t]
  {
    BitIsQuotient(mask, c.tiles[t].domain);
  }

  /** Two bakes that ask for different resets. */
  ghost predicate SameButResets(c: Config, c': Config) {
    && |c.tiles| == |c'.tiles| && c.n == c'.n && c.w == c'.w && c.bakeId == c'.bakeId
    && forall t | 0 <= t < |c.tiles| :: c'.tiles[t] == c.tiles[t].(resetMask := c'.tiles[t].resetMask)
  }

  /** The BUS is written before auto-reset: it does not depend on the reset masks, and neither do the fire flags. */
  lemma BusPrecedesResets(c: Config, c': Config, s: State, inp: Lanes)
    requires Fits(c, s) && c'.Valid() && SameButResets(c, c')
    ensures FlashBus(c, s, inp) == FlashBus(c', s, inp) && FireOf(c, s, inp) == FireOf(c', s, inp)
  {
    hide ActiveSet, Writes, StepTile, RowOuts;
    SameActive(c, c', s.locked);
    forall t: nat | t < c.n
      ensures OutAt(c, s, inp, t) == OutAt(c', s, inp, t)
      ensures RowOuts(c.tiles[t], inp) == RowOuts(c'.tiles[t], inp)
    {
      StepIgnoresResets(c.tiles[t], c'.tiles[t].resetMask, c.bakeId, IsActive(c, s, t), s.locked[t], s.thr[t], inp);
    }
    var m := AfterRead(c, s, inp);
    assert m == AfterRead(c', s, inp);
    forall lane: nat | lane < 8
      ensures BusLane(c, m.locked, m.row, lane) == BusLane(c', m.locked, m.row, lane)
    {
      SumIgnoresResets(c, c', m.locked, m.row, c.n, lane);
    }
  }

  lemma {:induction false} SumIgnoresResets(c: Config, c': Config, locked: seq<bool>, row: seq<Lanes>, k: nat, lane: nat)
    requires c.Valid() && c'.Valid() && SameButResets(c, c') && k <= c.n <= |locked| && c.n <= |row| && lane < 8
    ensures BusSum(c, locked, row, k, lane) == BusSum(c', locked, row, k, lane)
  {
    hide Writes;
    if k > 0 {
      SumIgnoresResets(c, c', locked, row, k - 1, lane);
      WritesIgnoresResets(c, c', locked, k - 1);
    }
  }

  lemma WritesIgnoresResets(c: Config, c': Config, locked: seq<bool>, t: nat)
    requires c.Valid() && c'.Valid() && SameButResets(c, c') && t < c.n <= |locked|
    ensures Writes(c, locked, t) == Writes(c', locked, t)
  {
    if 0 < c.w {
      forall d: Dir
        ensures LockedParentVia(c, locked, t, d) == LockedParentVia(c', locked, t, d)
      {
        if HasParent(c.n, c.w, t, d) {
          ParentInRange(c.n, c.w, t, d);
        }
      }
    }
  }

  lemma SameActive(c: Config, c': Config, locked: seq<bool>)
    requires c.Valid() && c'.Valid() && SameButResets(c, c') && c.n <= |locked|
    ensures ActiveSet(c, locked) == ActiveSet(c', locked)
  {
    hide ActiveSet;
    ActiveSetIsClosed(c, locked);
    ActiveSetIsClosed(c', locked);
    forall p: nat, q: nat
      ensures Edge(c, p, q) <==> Edge(c', p, q)
    {
      forall d: Dir
        ensures EdgeVia(c, p, q, d) <==> EdgeVia(c', p, q, d)
      {
      }
    }
    ActiveSetIsLeast(c, locked, ActiveSet(c', locked));
    ActiveSetIsLeast(c', locked, ActiveSet(c, locked));
  }

  lemma StepIgnoresResets(t: Tile, mask: u16, bakeId: u32, active: bool, lockedBefore: bool, thr: i16, inp: Lanes)
    ensures StepTile(t, bakeId, active, lockedBefore, thr, inp) ==
            StepTile(t.(resetMask := mask), bakeId, active, lockedBefore, thr, inp)
    ensures RowOuts(t, inp) == RowOuts(t.(resetMask := mask), inp)
  {
    hide Delta, WeightSum;
    SumsIgnoreResets(t, mask, inp, 8);
    forall r: nat | r < 8
      ensures WeightSum(t, r, 8) == WeightSum(t.(resetMask := mask), r, 8)
    {
      WeightsIgnoreResets(t, mask, r, 8);
    }
  }

  lemma {:induction false} WeightsIgnoreResets(t: Tile, mask: u16, r: nat, k: nat)
    requires r < 8 && k <= 8
    ensures WeightSum(t, r, k) == WeightSum(t.(resetMask := mask), r, k)
  {
    if k > 0 {
      WeightsIgnoreResets(t, mask, r, k - 1);
    }
  }

  lemma {:induction false} RowIgnoresResets(t: Tile, mask: u16, inp: Lanes, r: nat, k: nat)
    requires r < 8 && k <= 8
    ensures RowSum(t, inp, r, k) == RowSum(t.(resetMask := mask), inp, r, k)
  {
    if k > 0 {
      RowIgnoresResets(t, mask, inp, r, k - 1);
    }
  }

  lemma {:induction false} SumsIgnoreResets(t: Tile, mask: u16, inp: Lanes, k: nat)
    requires k <= 8
    ensures Delta(t, inp, k) == Delta(t.(resetMask := mask), inp, k)
  {
    if k > 0 {
      SumsIgnoreResets(t, mask, inp, k - 1);
      RowIgnoresResets(t, mask, inp, k - 1, 8);
    }
  }

  // ---------- Facts about one flash ----------

  /** Arbitration and the auto-reset agree: a tile that won a domain fired, is locked, and stays locked. */
  lemma WinnerStaysLocked(c: Config, s: State, inp: Lanes, t: nat)
    requires Fits(c, s) && IsWinner(c, FireOf(c, s, inp), t)
    ensures t < c.n && FireOf(c, s, inp)[t] && FlashState(c, s, inp).locked[t]
    ensures InRange(c.tiles[t], FlashState(c, s, inp).thr[t])
  {
    var fire := FireOf(c, s, inp);
    var d :| 0 <= d < DOMAINS && t == WinnerOf(c, fire, c.n, d);
    WinnerExact(c, fire, c.n, d);
    assert IsBest(c, fire, c.n, d, t);
  }

  /** The fuse invariant: every locked active tile sits inside an open range. */
  ghost predicate Fused(c: Config, s: State)
    requires Fits(c, s)
  {
    forall t | 0 <= t < c.n && s.locked[t] :: InRange(c.tiles[t], s.thr[t])
  }

  /** A flash establishes the fuse invariant from any state; its auto-reset zeroes exactly the non-winners
      of the reset domains. */
  lemma FlashFuses(c: Config, s: State, inp: Lanes)
    requires Fits(c, s)
    ensures Fused(c, FlashState(c, s, inp))
    ensures forall t: nat | t < c.n && Wiped(c, FireOf(c, s, inp), t) ::
              FlashState(c, s, inp).thr[t] == 0 && !FlashState(c, s, inp).locked[t]
  {
    var r := AfterRead(c, s, inp);
    forall t | 0 <= t < c.n && r.locked[t]
      ensures InRange(c.tiles[t], r.thr[t])
    {
      LockedMeansInRange(c.tiles[t], c.bakeId, IsActive(c, s, t), s.locked[t], s.thr[t], inp);
    }
  }

  lemma ResetKeepsFused(c: Config, s: State, mask: u16)
    requires Fits(c, s) && Fused(c, s)
    ensures Fused(c, ResetState(c, s, mask))
  {
  }

  /** Outside the active set a flash leaves nothing. */
  lemma InactiveIsDead(c: Config, s: State, inp: Lanes, t: nat)
    requires Fits(c, s) && t < c.n && !IsActive(c, s, t)
    ensures FlashState(c, s, inp).thr[t] == 0 && !FlashState(c, s, inp).locked[t] && !FireOf(c, s, inp)[t]
  {
  }

  /** U is cut off: it has no BUS_R tile, and no active locked tile outside points into it. */
  ghost predicate CutOff(c: Config, s: State, U: set<nat>)
    requires Fits(c, s)
  {
    && (forall t: nat | t in U && t < c.n :: !c.tiles[t].busR)
    && (forall p: nat, q: nat | p < c.n && p !in U && q in U && Edge(c, p, q) :: !(IsActive(c, s, p) && s.locked[p]))
  }

  /** Self-sustaining loops die in one flash: a cut-off set is wiped, even if all its tiles are locked and
      activate one another in cycles. */
  lemma LoopsDie(c: Config, s: State, inp: Lanes, U: set<nat>)
    requires Fits(c, s) && CutOff(c, s, U)
    ensures forall t | t in U && t < c.n ::
              !IsActive(c, s, t) && FlashState(c, s, inp).thr[t] == 0 && !FlashState(c, s, inp).locked[t]
  {
    var A := ActiveSet(c, s.locked);
    ActiveSetIsClosed(c, s.locked);
    var rest := A - U;
    assert Seeded(c, rest);
    assert Closed(c, s.locked, rest);
    ActiveSetIsLeast(c, s.locked, rest);
  }

  /** Row freshness: a tile that ends the read phase locked drives this flash's row. */
  lemma LockedRowIsFresh(c: Config, s: State, inp: Lanes, t: nat)
    requires Fits(c, s) && t < c.n && AfterRead(c, s, inp).locked[t]
    ensures AfterRead(c, s, inp).row[t] == RowOuts(c.tiles[t], inp)
  {
    LockedMeansInRange(c.tiles[t], c.bakeId, IsActive(c, s, t), s.locked[t], s.thr[t], inp);
  }
}
