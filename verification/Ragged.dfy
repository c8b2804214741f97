/** Grids whose last row is incomplete: the one place where the two views of the activation graph part. */
module Ragged {
  import opened Machine
  import opened Grid
  import opened Activation
  import opened TileStep
  import opened Flash
  import opened Runs
  import opened Chain

  /** A source with full weights that points south-west. */
  function Pointer(): Tile {
    ZeroTile().(thrLo := 1, thrHi := 0x7FFF, maskSW := true, busR := true,
      mag := seq(64, _ => 7), sign := seq(64, _ => true))
  }

  function RaggedTile(source: bool): Tile { if source then Pointer() else ZeroTile() }

  /** n tiles in rows of w, the source right above the place after the last tile. */
  function RaggedGrid(n: nat, w: nat): (c: Config)
    requires 0 < w < n <= 0xFFFF
    ensures c.Valid() && c.n == n == |c.tiles| && c.w == w
    ensures forall t | 0 <= t < n :: c.tiles[t] == RaggedTile(t == n - w)
  {
    var tiles: seq<Tile> := seq<Tile>(n, t requires 0 <= t < n => RaggedTile(t == n - w));
    assert forall t | 0 <= t < n :: tiles[t] == RaggedTile(t == n - w) && tiles[t].domain == 0;
    Config(tiles, n, w, 1)
  }

  /** The first flash of a fresh swarm locks the source, and nothing else. */
  lemma SourceLocks(n: nat, w: nat)
    requires 0 < w < n <= 0xFFFF
    ensures forall t | 0 <= t < n :: AfterRead(RaggedGrid(n, w), Fresh(n), ONES).locked[t] == (t == n - w)
  {
    hide Delta, RowOuts;
    var c, s := RaggedGrid(n, w), Fresh(n);
    var p: nat := n - w;
    ActiveSetIsLeast(c, s.locked, {p});
    ActiveSetIsClosed(c, s.locked);
    FullDelta(Pointer());
    forall t | 0 <= t < n
      ensures AfterRead(c, s, ONES).locked[t] == (t == p)
    {
      assert IsActive(c, s, t) == (t == p);
    }
  }

  /** On every grid that is neither a rectangle nor a single row a first flash meets a difference: the south-west
      edge into the last tile carries activation, but the last tile is not allowed to write for its parent. */
  lemma RaggedDisagreement(n: nat, w: nat)
    requires 0 < w < n <= 0xFFFF && n % w != 0
    ensures var c := RaggedGrid(n, w);
            var locked := AfterRead(c, Fresh(n), ONES).locked;
            LockedParent(c, locked, n - 1) && !HasLockedWriteSource(c, locked, n - 1)
  {
    hide AfterRead, HasLockedWriteSource;
    var c := RaggedGrid(n, w);
    var locked := AfterRead(c, Fresh(n), ONES).locked;
    var p: nat, t: nat, v: int := n - w, n - 1, w;
    SourceLocks(n, w);
    assert p % w > 0 by {
      ModPlus(n, v, -1, 0);
    }
    assert EdgeVia(c, p, t, SW);
    assert Edge(c, p, t);
    WriteSourceExact(c, locked, t);
  }

  ghost predicate AgreeOn(c: Config, locked: seq<bool>)
    requires c.Valid() && 0 < c.w && c.n <= |locked|
  {
    forall t: nat | t < c.n :: HasLockedWriteSource(c, locked, t) <==> locked[t] || LockedParent(c, locked, t)
  }

  /** The two views agree for every bake on n tiles in rows of w and every lock pattern ... */
  ghost predicate ViewsAgree(n: nat, w: nat)
    requires 0 < w
  {
    forall c: Config, locked: seq<bool> | c.Valid() && c.n == n && c.w == w && n <= |locked| :: AgreeOn(c, locked)
  }

  /** ... or at least for those locks that some run from a fresh swarm brings about. */
  ghost predicate RunsAgree(n: nat, w: nat)
    requires 0 < w
  {
    forall c: Config, es: seq<Event>, inp: Lanes | c.Valid() && c.n == n && c.w == w ::
      AgreeOn(c, AfterRead(c, Run(c, Fresh(|c.tiles|), es), inp).locked)
  }

  /** Both hold exactly on rectangular grids and single rows. */
  lemma ViewsAgreeExactlyOnRectangles(n: nat, w: nat)
    requires 0 < w && n <= 0xFFFF
    ensures ViewsAgree(n, w) <==> n % w == 0 || n <= w
    ensures RunsAgree(n, w) <==> n % w == 0 || n <= w
  {
    hide HasLockedWriteSource, AfterRead, Run;
    if n % w == 0 || n <= w {
      forall c: Config, locked: seq<bool> | c.Valid() && c.n == n && c.w == w && n <= |locked|
        ensures AgreeOn(c, locked)
      {
        forall t: nat | t < n
          ensures HasLockedWriteSource(c, locked, t) <==> locked[t] || LockedParent(c, locked, t)
        {
          ForwardBackwardAgree(c, locked, t);
        }
      }
    } else {
      var c := RaggedGrid(n, w);
      RaggedDisagreement(n, w);
      NoEvents(c, Fresh(n));
      assert !AgreeOn(c, AfterRead(c, Run(c, Fresh(|c.tiles|), []), ONES).locked);
    }
  }

  lemma NoEvents(c: Config, s: State)
    requires Fits(c, s)
    ensures Run(c, s, []) == s
  {
  }
}
