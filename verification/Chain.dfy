/** A concrete bake: one row of tiles, each passing activation east. It shows that the relay bound is
    attained, and that the BUS, unlike the tiles, can remember a run from before a full reset. */
module Chain {
  import opened Machine
  import opened Grid
  import opened Activation
  import opened TileStep
  import opened Winner
  import opened Bus
  import opened Flash
  import opened Runs

  const ONES: Lanes := [1, 1, 1, 1, 1, 1, 1, 1]

  function Link(first: bool): Tile {
    ZeroTile().(thrLo := 1, thrHi := 0x7FFF, maskE := true, busW := true, busR := first,
      mag := seq(64, _ => 7), sign := seq(64, _ => true))
  }

  function Row(n: nat): (c: Config)
    requires 0 < n <= 0xFFFF
    ensures c.Valid() && c.n == c.w == |c.tiles| == n
    ensures forall t | 0 <= t < n :: c.tiles[t] == Link(t == 0)
  {
    var tiles: seq<Tile> := seq<Tile>(n, t requires 0 <= t < n => Link(t == 0));
    assert forall t | 0 <= t < n :: tiles[t] == Link(t == 0) && tiles[t].domain == 0;
    Config(tiles, n, n, 1)
  }

  function Shines(k: nat): seq<Event> {
    if k == 0 then [] else [Shine(ONES)] + Shines(k - 1)
  }

  ghost predicate FullWeights(t: Tile) { forall i | 0 <= i < 64 :: t.mag[i] == 7 && t.sign[i] }

  lemma FullDelta(t: Tile)
    requires FullWeights(t)
    ensures Delta(t, ONES, 8) == 448 && RowOuts(t, ONES) == ONES
  {
    FullDeltas(t, 8);
    FullWeightsPassThrough(t, ONES);
  }

  lemma {:induction false} FullDeltas(t: Tile, k: nat)
    requires FullWeights(t) && k <= 8
    ensures Delta(t, ONES, k) == 56 * k
  {
    if k > 0 {
      FullDeltas(t, k - 1);
      FullRow(t, k - 1, 8);
    }
  }

  lemma {:induction false} FullRow(t: Tile, r: nat, k: nat)
    requires FullWeights(t) && r < 8 && k <= 8
    ensures RowSum(t, ONES, r, k) == 7 * k
  {
    if k > 0 {
      FullRow(t, r, k - 1);
    }
  }

  lemma RowEdges(n: nat, p: nat, q: nat)
    requires 0 < n <= 0xFFFF
    ensures Edge(Row(n), p, q) <==> q == p + 1 && q < n
  {
    var c := Row(n);
    if p < n {
      RowOf(n, p, 0);
    }
    if q == p + 1 && q < n {
      assert EdgeVia(c, p, q, E);
    }
    if Edge(c, p, q) {
      var d :| EdgeVia(c, p, q, d);
      assert d == E;
    }
  }

  /** The first k tiles are locked with one charge each, and the rest untouched. */
  ghost predicate Lit(n: nat, s: State, k: nat)
    requires 0 < n <= 0xFFFF && Fits(Row(n), s)
  {
    forall t | 0 <= t < n ::
      s.locked[t] == (t < k) && s.thr[t] == (if t < k then 448 else 0) && s.row[t] == (if t < k then ONES else ZERO_LANES)
  }

  ghost function UpTo(m: nat): (S: set<nat>)
    ensures forall t: nat :: t in S <==> t < m
  {
    if m == 0 then {} else UpTo(m - 1) + {m - 1}
  }

  lemma LitActive(n: nat, s: State, k: nat)
    requires 0 < n <= 0xFFFF && Fits(Row(n), s) && k <= n
    requires forall t | 0 <= t < n :: s.locked[t] == (t < k)
    ensures forall t: nat | t < n :: IsActive(Row(n), s, t) <==> t <= k
  {
    var c := Row(n);
    var S := UpTo(Min(n, k + 1));
    forall p: nat, q: nat | p in S && p < c.n && s.locked[p] && Edge(c, p, q)
      ensures q in S
    {
      RowEdges(n, p, q);
    }
    ActiveSetIsLeast(c, s.locked, S);
    forall t: nat | t < n && t <= k
      ensures IsActive(c, s, t)
    {
      LitPrefixActive(n, s, k, t);
    }
  }

  lemma {:induction false} LitPrefixActive(n: nat, s: State, k: nat, t: nat)
    requires 0 < n <= 0xFFFF && Fits(Row(n), s) && t <= k <= n && t < n
    requires forall t | 0 <= t < n :: s.locked[t] == (t < k)
    ensures IsActive(Row(n), s, t)
  {
    ActiveSetIsClosed(Row(n), s.locked);
    if t > 0 {
      LitPrefixActive(n, s, k, t - 1);
      RowEdges(n, t - 1, t);
    }
  }

  lemma {:induction false} NoPatternNoWinner(c: Config, fire: seq<bool>, k: nat, d: nat)
    requires k <= |fire| == |c.tiles| <= 0xFFFF
    requires forall t | 0 <= t < |c.tiles| :: c.tiles[t].pattern == 0
    ensures WinnerOf(c, fire, k, d) == NO_WINNER
  {
    if k > 0 {
      NoPatternNoWinner(c, fire, k - 1, d);
    }
  }

  lemma RowNeverResets(n: nat, fire: seq<bool>)
    requires 0 < n <= 0xFFFF && |fire| == n
    ensures forall t: nat :: !Wiped(Row(n), fire, t)
  {
    forall d: nat | d < 16
      ensures WinnerOf(Row(n), fire, n, d) == NO_WINNER
    {
      NoPatternNoWinner(Row(n), fire, n, d);
    }
  }

  lemma LitAdvances(n: nat, s: State, k: nat)
    requires 0 < n <= 0xFFFF && Fits(Row(n), s) && k < n && Lit(n, s, k)
    ensures Lit(n, FlashState(Row(n), s, ONES), k + 1)
  {
    hide Delta, RowOuts;
    var c := Row(n);
    LitActive(n, s, k);
    RowNeverResets(n, FireOf(c, s, ONES));
    FullDelta(Link(true));
    FullDelta(Link(false));
    var r := FlashState(c, s, ONES);
    forall t | 0 <= t < n
      ensures r.locked[t] == (t < k + 1) && r.thr[t] == (if t < k + 1 then 448 else 0)
      ensures r.row[t] == if t < k + 1 then ONES else ZERO_LANES
    {
      assert c.tiles[t] == Link(t == 0);
    }
  }

  lemma {:induction false} LitAfter(n: nat, s: State, k: nat, j: nat)
    requires 0 < n <= 0xFFFF && Fits(Row(n), s) && k + j <= n && Lit(n, s, k)
    ensures Lit(n, Run(Row(n), s, Shines(j)), k + j)
    decreases j
  {
    if j > 0 {
      LitAdvances(n, s, k);
      assert Shines(j)[1..] == Shines(j - 1);
      LitAfter(n, FlashState(Row(n), s, ONES), k + 1, j - 1);
    }
  }

  lemma {:induction false} RowHops(n: nat, k: nat, t: nat)
    requires 0 < n <= 0xFFFF
    ensures WithinHops(Row(n), k, t) <==> t < n && t <= k
  {
    var c := Row(n);
    if k > 0 {
      RowHops(n, k - 1, t);
      if t > 0 {
        RowHops(n, k - 1, t - 1);
        RowEdges(n, t - 1, t);
      }
      forall p: nat | WithinHops(c, k - 1, p) && Edge(c, p, t)
        ensures t < n && t <= k
      {
        RowHops(n, k - 1, p);
        RowEdges(n, p, t);
      }
    }
  }

  /** The relay bound is attained: in a row of n tiles, after k flashes from a fresh swarm the tile k - 1
      hops from the source is locked, and no shorter route leads to it. */
  lemma RelaySpeedAttained(n: nat, k: nat)
    requires 0 < k <= n <= 0xFFFF
    ensures var c := Row(n);
            Run(c, Fresh(n), Shines(k)).locked[k - 1] && WithinHops(c, k - 1, k - 1)
            && (k >= 2 ==> !WithinHops(c, k - 2, k - 1))
  {
    hide WithinHops, Run;
    LitAfter(n, Fresh(n), 0, k);
    RowHops(n, k - 1, k - 1);
    if k >= 2 {
      RowHops(n, k - 2, k - 1);
    }
  }

  lemma TwoTileRead(s: State)
    requires Fits(Row(2), s) && forall t | 0 <= t < 2 :: !s.locked[t] && s.thr[t] == 0
    ensures var m := AfterRead(Row(2), s, ONES);
            m.locked[0] && !m.locked[1] && m.row[0] == ONES && m.row[1] == s.row[1]
  {
    hide Delta, RowOuts;
    var c := Row(2);
    LitActive(2, s, 0);
    FullDelta(Link(true));
    assert c.tiles[0] == Link(true) && c.tiles[1] == Link(false);
  }

  lemma TwoTileWriters(locked: seq<bool>)
    requires |locked| == 2 && locked[0]
    ensures Writes(Row(2), locked, 0) && Writes(Row(2), locked, 1)
  {
    var c := Row(2);
    assert c.tiles[0] == Link(true) && c.tiles[1] == Link(false);
    assert EdgeVia(c, 0, 1, E);
    assert SeenFrom(c, locked, 0, 1, E);
    WriteSourceExact(c, locked, 1);
  }

  lemma TwoTileBus(s: State)
    requires Fits(Row(2), s) && forall t | 0 <= t < 2 :: !s.locked[t] && s.thr[t] == 0
    ensures FlashBus(Row(2), s, ONES)[0] == Min(15, s.row[1][0] as int + 1)
  {
    hide AfterRead, Writes;
    var c, m := Row(2), AfterRead(Row(2), s, ONES);
    TwoTileRead(s);
    TwoTileWriters(m.locked);
    assert BusSum(c, m.locked, m.row, 1, 0) == 1;
    assert BusSum(c, m.locked, m.row, 2, 0) == 1 + m.row[1][0] as int;
  }

  /** The stale drive: after two flashes and a reset of every domain, the next flash shows the same tiles
      as a fresh swarm would, but a different BUS, because a just-fired parent lets its inactive child
      drive the row it computed before the reset. */
  lemma StaleDriveShows()
    ensures var c := Row(2);
            var used := ResetState(c, Run(c, Fresh(2), Shines(2)), 0xFFFF);
            (forall es :: Tape(c, used, es) == Tape(c, Fresh(2), es))
            && FlashBus(c, used, ONES) != FlashBus(c, Fresh(2), ONES)
  {
    var c := Row(2);
    var ran := Run(c, Fresh(2), Shines(2));
    var used := ResetState(c, ran, 0xFFFF);
    forall es
      ensures Tape(c, used, es) == Tape(c, Fresh(2), es)
    {
      ResetErasesHistory(c, ran, es);
    }
    LitAfter(2, Fresh(2), 0, 2);
    FullMaskHits(0);
    TwoTileBus(used);
    TwoTileBus(Fresh(2));
  }
}
