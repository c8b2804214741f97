/** Baked tiles and the activation edges between them, in the two forms the swarm computes them:
    forwards while activating children, and backwards while looking for a locked writer. */
module Grid {
  import opened Machine

  /** The baked half of one tile: fuse range, decay, arbitration, the eight routing masks, the two bus
      flags and the 8x8 signed weights in row-major order. */
  datatype TileRecord = TileRecord(
    thrLo: i16, thrHi: i16, decay: u16, domain: u8, priority: u8, pattern: u16, resetMask: u16,
    maskN: bool, maskE: bool, maskS: bool, maskW: bool,
    maskNE: bool, maskSE: bool, maskSW: bool, maskNW: bool,
    busW: bool, busR: bool,
    mag: seq<Level>, sign: seq<bool>)

  function ZeroTile(): (t: TileRecord)
    ensures |t.mag| == 64 && |t.sign| == 64
  {
    TileRecord(0, 0, 0, 0, 0, 0, 0, false, false, false, false, false, false, false, false, false, false,
      seq(64, _ => 0), seq(64, _ => false))
  }

  type Tile = t: TileRecord | |t.mag| == 64 && |t.sign| == 64 witness ZeroTile()

  /** What a flash reads of a bake: the tiles, how many of them are active, the row width, the bake id. */
  datatype Config = Config(tiles: seq<Tile>, n: nat, w: nat, bakeId: u32) {

    /** Active tiles exist and can be told from the no-winner mark, and every domain is a legal shift count.
        The row width may be zero. */
    ghost predicate Valid() {
      && n <= |tiles| <= 0xFFFF
      && forall t | 0 <= t < |tiles| :: tiles[t].domain < 32
    }
  }

  datatype Dir = N | E | S | W | NE | SE | SW | NW

  predicate Route(t: Tile, d: Dir) {
    match d
    case N => t.maskN
    case E => t.maskE
    case S => t.maskS
    case W => t.maskW
    case NE => t.maskNE
    case SE => t.maskSE
    case SW => t.maskSW
    case NW => t.maskNW
  }

  /** The directions whose guard divides by the row width. */
  predicate ByColumn(d: Dir) { d != N && d != S }

  /** The guards under which the activation loop reaches a neighbour. */
  predicate HasChild(n: nat, w: nat, t: nat, d: Dir)
    requires ByColumn(d) ==> 0 < w
  {
    match d
    case N => t >= w
    case E => t % w < w - 1 && t + 1 < n
    case S => t + w < n
    case W => t % w > 0
    case NE => t % w < w - 1 && t >= w && t - w + 1 < n
    case SE => t % w < w - 1 && t + w + 1 < n
    case SW => t % w > 0 && t + w - 1 < n
    case NW => t % w > 0 && t >= w
  }

  function Child(w: nat, t: nat, d: Dir): int {
    match d
    case N => t - w
    case E => t + 1
    case S => t + w
    case W => t - 1
    case NE => t - w + 1
    case SE => t + w + 1
    case SW => t + w - 1
    case NW => t - w - 1
  }

  /** Tile p activates tile q through its mask for direction d. */
  ghost predicate EdgeVia(c: Config, p: nat, q: nat, d: Dir)
    requires c.Valid()
  {
    && p < c.n && Route(c.tiles[p], d) && (ByColumn(d) ==> 0 < c.w)
    && HasChild(c.n, c.w, p, d) && q == Child(c.w, p, d)
  }

  ghost predicate Edge(c: Config, p: nat, q: nat)
    requires c.Valid()
  {
    exists d: Dir :: EdgeVia(c, p, q, d)
  }

  lemma ChildInRange(n: nat, w: nat, t: nat, d: Dir)
    requires (ByColumn(d) ==> 0 < w) && t < n && HasChild(n, w, t, d)
    ensures 0 <= Child(w, t, d) < n
  {
    if t < w {
      RowOf(w, t, 0);
    }
  }

  lemma EdgeInRange(c: Config, p: nat, q: nat)
    requires c.Valid() && Edge(c, p, q)
    ensures p < c.n && q < c.n
  {
    var d :| EdgeVia(c, p, q, d);
    ChildInRange(c.n, c.w, p, d);
  }

  // ---------- Coordinates ----------

  /** A tile with t = y * w + x and 0 <= x < w has row y and column x. */
  lemma RowOf(w: nat, t: nat, y: nat)
    requires 0 < w && y * w <= t < y * w + w
    ensures t / w == y && t % w == t - y * w
  {
    var q := t / w;
    assert t == q * w + t % w;
    assert (q - y) * w == q * w - y * w;
    assert 0 - w < (q - y) * w < w;
    MulGap(q - y, w);
  }

  lemma MulGap(a: int, w: int)
    requires 0 - w < a * w < w
    ensures a == 0
  {
  }

  lemma Shifted(w: nat, t: nat, q: int, dx: int, dy: int)
    requires 0 < w && q == t + dy * w + dx
    requires 0 <= t % w + dx < w && -1 <= dy <= 1 && (dy == -1 ==> w <= t)
    ensures 0 <= q && q / w == t / w + dy && q % w == t % w + dx
  {
    var y := t / w + dy;
    assert t == (t / w) * w + t % w;
    assert y * w == (t / w) * w + dy * w;
    assert 0 <= y * w;
    RowOf(w, q, y);
  }

  function Dx(d: Dir): int {
    match d case N => 0 case S => 0 case E => 1 case NE => 1 case SE => 1 case _ => -1
  }

  function Dy(d: Dir): int {
    match d case E => 0 case W => 0 case S => 1 case SE => 1 case SW => 1 case _ => -1
  }

  /** No row wrap-around: every edge moves by exactly its direction's unit step in the grid. */
  lemma EdgeIsUnitStep(c: Config, p: nat, q: nat, d: Dir)
    requires c.Valid() && 0 < c.w && EdgeVia(c, p, q, d)
    ensures q % c.w == p % c.w + Dx(d) && q / c.w == p / c.w + Dy(d)
  {
    ChildIsShift(c.w, p, d);
    Shifted(c.w, p, q, Dx(d), Dy(d));
  }

  lemma ChildIsShift(w: int, p: nat, d: Dir)
    requires 0 < w
    ensures Child(w, p, d) == p + Dy(d) * w + Dx(d)
  {
    assert (-1) * w == 0 - w;
  }

  // ---------- The backward view ----------

  /** The neighbour whose mask d would point at t. */
  function Parent(w: nat, t: nat, d: Dir): int { t - (Child(w, t, d) - t) }

  /** The guards under which a tile looks at that neighbour. */
  predicate HasParent(n: nat, w: nat, t: nat, d: Dir)
    requires 0 < w
  {
    var x := t % w;
    var hasN, hasS, hasW, hasE := t >= w, t + w < n, x > 0, x + 1 < w && t + 1 < n;
    match d
    case S => hasN
    case N => hasS
    case E => hasW
    case W => hasE
    case SW => hasN && hasE
    case NW => hasS && hasE && t + w + 1 < n
    case NE => hasS && hasW && t + w - 1 < n
    case SE => hasN && hasW
  }

  lemma ParentInRange(n: nat, w: nat, t: nat, d: Dir)
    requires 0 < w && t < n && HasParent(n, w, t, d)
    ensures 0 <= Parent(w, t, d) < n
  {
    if t < w {
      RowOf(w, t, 0);
    }
  }

  predicate LockedParentVia(c: Config, locked: seq<bool>, t: nat, d: Dir)
    requires c.Valid() && 0 < c.w && c.n <= |locked| && t < c.n
  {
    HasParent(c.n, c.w, t, d) &&
    (ParentInRange(c.n, c.w, t, d);
     var p := Parent(c.w, t, d);
     Route(c.tiles[p], d) && locked[p])
  }

  /** May tile t write to the BUS: it is locked, or one of its eight neighbours is locked and points at it. The second
      question starts with a division by the row width. */
  predicate HasLockedWriteSource(c: Config, locked: seq<bool>, t: nat)
    requires c.Valid() && c.n <= |locked|
    requires t < c.n && !locked[t] ==> 0 < c.w
  {
    t < c.n &&
    (locked[t]
     || LockedParentVia(c, locked, t, S) || LockedParentVia(c, locked, t, N)
     || LockedParentVia(c, locked, t, E) || LockedParentVia(c, locked, t, W)
     || LockedParentVia(c, locked, t, SW) || LockedParentVia(c, locked, t, NW)
     || LockedParentVia(c, locked, t, NE) || LockedParentVia(c, locked, t, SE))
  }

  /** The forward edges the backward scan cannot see: in a grid whose last row is incomplete, the south-west
      edge into the last tile and the north-east edge out of it. */
  predicate Unseen(n: nat, w: nat, p: nat, d: Dir) {
    (d == SW && p + w == n) || (d == NE && p + 1 == n)
  }

  lemma OneStep(n: nat, w: nat, p: nat, t: nat, d: Dir)
    requires 0 < w && p < n && t < n
    ensures HasParent(n, w, t, d) && p == Parent(w, t, d)
            <==> HasChild(n, w, p, d) && t == Child(w, p, d) && !Unseen(n, w, p, d)
  {
    if t == Child(w, p, d) {
      ColumnStep(w, p, t, d);
      if Dx(d) == 0 || Dy(d) == 0 {
        StraightStep(n, w, p, t, d);
      } else {
        DiagonalStep(n, w, p, t, d);
      }
    }
  }

  ghost predicate ColumnsMatch(w: nat, p: nat, t: nat, d: Dir)
    requires 0 < w
  {
    (Dx(d) == 1 ==> (p % w < w - 1 <==> t % w > 0)) && (Dx(d) == -1 ==> (p % w > 0 <==> t % w < w - 1))
  }

  lemma StraightStep(n: nat, w: nat, p: nat, t: nat, d: Dir)
    requires 0 < w && p < n && t < n && t == Child(w, p, d) && ColumnsMatch(w, p, t, d)
    requires Dx(d) == 0 || Dy(d) == 0
    ensures HasParent(n, w, t, d) <==> HasChild(n, w, p, d)
  {
  }

  lemma DiagonalStep(n: nat, w: nat, p: nat, t: nat, d: Dir)
    requires 0 < w && p < n && t < n && t == Child(w, p, d) && ColumnsMatch(w, p, t, d)
    requires Dx(d) != 0 && Dy(d) != 0
    ensures HasParent(n, w, t, d) <==> HasChild(n, w, p, d) && !Unseen(n, w, p, d)
  {
  }

  /** Along one direction the two column tests are the same test. */
  lemma ColumnStep(w: nat, p: nat, t: nat, d: Dir)
    requires 0 < w && t == Child(w, p, d)
    ensures ColumnsMatch(w, p, t, d)
  {
    ChildIsShift(w, p, d);
    ModPlus(p, w, Dy(d), Dx(d));
  }

  /** Whole rows do not change a column, and one step changes it by one except across the row's end. */
  lemma ModPlus(p: int, w: int, dy: int, dx: int)
    requires 0 < w && 0 <= p && -1 <= dx <= 1
    ensures (p + dy * w + dx) % w ==
            if dx == 1 && p % w == w - 1 then 0 else if dx == -1 && p % w == 0 then w - 1 else p % w + dx
  {
    var r := if dx == 1 && p % w == w - 1 then 0 else if dx == -1 && p % w == 0 then w - 1 else p % w + dx;
    var k := if dx == 1 && p % w == w - 1 then 1 else if dx == -1 && p % w == 0 then -1 else 0;
    assert p == (p / w) * w + p % w;
    assert p + dy * w + dx == (p / w + dy + k) * w + r;
    ModUnique(p / w + dy + k, w, r);
  }

  lemma ModUnique(q: int, w: int, r: int)
    requires 0 <= r < w
    ensures (q * w + r) % w == r
  {
    var x := q * w + r;
    assert x == (x / w) * w + x % w;
    assert (x / w - q) * w == r - x % w;
    MulGap(x / w - q, w);
  }

  ghost predicate SeenFrom(c: Config, locked: seq<bool>, p: nat, t: nat, d: Dir)
    requires c.Valid() && c.n <= |locked|
  {
    p < c.n && locked[p] && EdgeVia(c, p, t, d) && !Unseen(c.n, c.w, p, d)
  }

  /** The backward scan finds exactly the locked parents along forward edges, less the unseen ones. */
  lemma WriteSourceExact(c: Config, locked: seq<bool>, t: nat)
    requires c.Valid() && 0 < c.w && c.n <= |locked| && t < c.n
    ensures HasLockedWriteSource(c, locked, t)
            <==> locked[t] || exists p: nat, d: Dir :: SeenFrom(c, locked, p, t, d)
  {
    forall d: Dir | LockedParentVia(c, locked, t, d)
      ensures exists p: nat, d: Dir :: SeenFrom(c, locked, p, t, d)
    {
      ParentInRange(c.n, c.w, t, d);
      var p := Parent(c.w, t, d);
      OneStep(c.n, c.w, p, t, d);
      assert SeenFrom(c, locked, p, t, d);
    }
    forall p: nat, d: Dir | SeenFrom(c, locked, p, t, d)
      ensures LockedParentVia(c, locked, t, d)
    {
      OneStep(c.n, c.w, p, t, d);
    }
  }

  ghost predicate LockedParent(c: Config, locked: seq<bool>, t: nat)
    requires c.Valid() && c.n <= |locked|
  {
    exists p: nat :: p < c.n && locked[p] && Edge(c, p, t)
  }

  /** On a grid of complete rows, or of a single row, both views agree on every mask and every lock. */
  lemma ForwardBackwardAgree(c: Config, locked: seq<bool>, t: nat)
    requires c.Valid() && 0 < c.w && c.n <= |locked| && t < c.n
    requires c.n % c.w == 0 || c.n <= c.w
    ensures HasLockedWriteSource(c, locked, t) <==> locked[t] || LockedParent(c, locked, t)
  {
    WriteSourceExact(c, locked, t);
    if exists p: nat, d: Dir :: SeenFrom(c, locked, p, t, d) {
      var p: nat, d: Dir :| SeenFrom(c, locked, p, t, d);
      assert Edge(c, p, t);
    }
    if LockedParent(c, locked, t) {
      var p: nat :| p < c.n && locked[p] && Edge(c, p, t);
      var d :| EdgeVia(c, p, t, d);
      CompleteRowsHideNothing(c.n, c.w, p, d);
      assert SeenFrom(c, locked, p, t, d);
    }
  }

  lemma CompleteRowsHideNothing(n: nat, w: nat, p: nat, d: Dir)
    requires 0 < w && p < n && HasChild(n, w, p, d)
    requires n % w == 0 || n <= w
    ensures !Unseen(n, w, p, d)
  {
    var v: int := w;
    if d == SW && p + w == n {
      ModPlus(p, v, 1, 0);
    } else if d == NE && p + 1 == n {
      ModPlus(p, v, 0, 1);
    }
  }

  // ---------- Edges in coordinates ----------

  /** Tile p's own masks point at tile q: one row up, down or neither, one column left, right or neither. */
  ghost predicate Points(c: Config, p: nat, q: nat)
    requires c.Valid() && 0 < c.w
  {
    && p < c.n && q < c.n
    && var m := c.tiles[p];
    var x, y, x', y' := p % c.w, p / c.w, q % c.w, q / c.w;
    || (m.maskN && x' == x && y' == y - 1)
    || (m.maskS && x' == x && y' == y + 1)
    || (m.maskE && x' == x + 1 && y' == y)
    || (m.maskW && x' == x - 1 && y' == y)
    || (m.maskNE && x' == x + 1 && y' == y - 1)
    || (m.maskNW && x' == x - 1 && y' == y - 1)
    || (m.maskSE && x' == x + 1 && y' == y + 1)
    || (m.maskSW && x' == x - 1 && y' == y + 1)
  }

  /** Tile q lies one step in direction d from tile p. */
  ghost predicate StepsTo(w: nat, p: nat, q: nat, d: Dir)
    requires 0 < w
  {
    q % w == p % w + Dx(d) && q / w == p / w + Dy(d)
  }

  /** In one direction the guards of the loop are exactly that the neighbour is in the grid. */
  lemma EdgeViaIsStep(c: Config, p: nat, q: nat, d: Dir)
    requires c.Valid() && 0 < c.w && p < c.n
    ensures EdgeVia(c, p, q, d) <==> Route(c.tiles[p], d) && q < c.n && StepsTo(c.w, p, q, d)
  {
    if EdgeVia(c, p, q, d) {
      EdgeIsUnitStep(c, p, q, d);
      ChildInRange(c.n, c.w, p, d);
    }
    if q < c.n && StepsTo(c.w, p, q, d) {
      StepIsChild(c.w, p, q, d);
      StepIsGuarded(c.n, c.w, p, q, d);
    }
  }

  lemma StepIsChild(w: nat, p: nat, q: nat, d: Dir)
    requires 0 < w && StepsTo(w, p, q, d)
    ensures q == Child(w, p, d)
  {
    ChildIsShift(w, p, d);
    assert p == (p / w) * w + p % w && q == (q / w) * w + q % w;
    assert (p / w + Dy(d)) * w == (p / w) * w + Dy(d) * w;
  }

  lemma StepIsGuarded(n: nat, w: nat, p: nat, q: nat, d: Dir)
    requires 0 < w && q < n && StepsTo(w, p, q, d) && q == Child(w, p, d)
    ensures HasChild(n, w, p, d)
  {
    if p < w {
      RowOf(w, p, 0);
    }
  }

  /** The activation loop's edges are exactly the pointing masks whose neighbour is in the grid. */
  lemma EdgeIsPointing(c: Config, p: nat, q: nat)
    requires c.Valid() && 0 < c.w
    ensures Edge(c, p, q) <==> Points(c, p, q)
  {
    hide EdgeVia;
    if p < c.n {
      forall d: Dir
        ensures EdgeVia(c, p, q, d) <==> Route(c.tiles[p], d) && q < c.n && StepsTo(c.w, p, q, d)
      {
        EdgeViaIsStep(c, p, q, d);
      }
      EveryDirection(c, p, q);
    } else {
      NoEdgeFromOutside(c, p, q);
    }
  }

  lemma EveryDirection(c: Config, p: nat, q: nat)
    requires c.Valid() && 0 < c.w && p < c.n
    requires forall d: Dir :: EdgeVia(c, p, q, d) <==> Route(c.tiles[p], d) && q < c.n && StepsTo(c.w, p, q, d)
    ensures Edge(c, p, q) <==> Points(c, p, q)
  {
    hide EdgeVia;
    assert EdgeVia(c, p, q, N) || EdgeVia(c, p, q, S) || EdgeVia(c, p, q, E) || EdgeVia(c, p, q, W)
        || EdgeVia(c, p, q, NE) || EdgeVia(c, p, q, NW) || EdgeVia(c, p, q, SE) || EdgeVia(c, p, q, SW)
        <==> Points(c, p, q);
  }

  lemma NoEdgeFromOutside(c: Config, p: nat, q: nat)
    requires c.Valid() && p >= c.n
    ensures !Edge(c, p, q)
  {
  }

  /** The two pointing masks the backward scan overlooks: between the last tile and the one above the place after it,
      where these are diagonal neighbours. */
  ghost predicate Overlooked(c: Config, p: nat, q: nat)
    requires 0 < c.w
  {
    ((p + c.w == c.n && q + 1 == c.n) || (p + 1 == c.n && q + c.w == c.n)) && p / c.w != q / c.w
  }

  /** A tile may write exactly if it is locked, or a locked tile's mask points at it and is not overlooked. */
  lemma WriteSourceInCoordinates(c: Config, locked: seq<bool>, t: nat)
    requires c.Valid() && 0 < c.w && c.n <= |locked| && t < c.n
    ensures HasLockedWriteSource(c, locked, t)
            <==> locked[t] || exists p: nat :: p < c.n && locked[p] && Points(c, p, t) && !Overlooked(c, p, t)
  {
    hide HasLockedWriteSource, Points, EdgeVia, Overlooked;
    WriteSourceExact(c, locked, t);
    forall p: nat | p < c.n
      ensures (exists d: Dir :: EdgeVia(c, p, t, d) && !Unseen(c.n, c.w, p, d)) <==> Points(c, p, t) && !Overlooked(c, p, t)
    {
      SeenIsPointing(c, p, t);
    }
    if exists p: nat, d: Dir :: SeenFrom(c, locked, p, t, d) {
      var p: nat, d: Dir :| SeenFrom(c, locked, p, t, d);
      assert Points(c, p, t) && !Overlooked(c, p, t);
    }
    forall p: nat | p < c.n && locked[p] && Points(c, p, t) && !Overlooked(c, p, t)
      ensures exists d: Dir :: SeenFrom(c, locked, p, t, d)
    {
      var d: Dir :| EdgeVia(c, p, t, d) && !Unseen(c.n, c.w, p, d);
      assert SeenFrom(c, locked, p, t, d);
    }
  }

  lemma SeenIsPointing(c: Config, p: nat, t: nat)
    requires c.Valid() && 0 < c.w && p < c.n && t < c.n
    ensures (exists d: Dir :: EdgeVia(c, p, t, d) && !Unseen(c.n, c.w, p, d)) <==> Points(c, p, t) && !Overlooked(c, p, t)
  {
    hide Points, EdgeVia;
    EdgeIsPointing(c, p, t);
    forall d: Dir | EdgeVia(c, p, t, d)
      ensures Unseen(c.n, c.w, p, d) <==> Overlooked(c, p, t)
    {
      EdgeViaIsStep(c, p, t, d);
      UnseenIsOverlooked(c, p, t, d);
    }
  }

  lemma UnseenIsOverlooked(c: Config, p: nat, t: nat, d: Dir)
    requires c.Valid() && 0 < c.w && p < c.n && t < c.n && StepsTo(c.w, p, t, d)
    ensures Unseen(c.n, c.w, p, d) <==> Overlooked(c, p, t)
  {
    StepIsChild(c.w, p, t, d);
  }
}
