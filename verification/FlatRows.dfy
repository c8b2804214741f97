/** Bakes with rows of width zero: which ones there are, and that one of them makes the first flash divide by zero. */
module FlatRows {
  import opened Machine
  import opened Grid
  import opened TileStep
  import opened Flash
  import opened BakeFormat
  import opened BakeParser
  import opened Serializer
  import opened BakeSaver

  /** Baking takes the row width from its table for six active counts, and from the topology otherwise. */
  lemma WidthExactly(prev: Baked, v: View)
    requires |prev.tiles| == |v.tiles| == TILE_COUNT && v.tileCount <= TILE_COUNT
    ensures 0 < Apply(prev, v).w <==> ActiveCount(v) in {0, 256, 512, 1024, 2048, 4096} || v.topo.tileW > 0
  {
  }

  /** What a flash reads of a bake. */
  function ConfigOf(b: Baked): Config { Config(b.tiles, b.count, b.w, b.bakeId) }

  function FlatTile(writes: bool): Tile { ZeroTile().(busW := writes) }

  function FlatTiles(writes: bool): (tiles: seq<Tile>)
    ensures |tiles| == TILE_COUNT && forall t | 0 <= t < TILE_COUNT :: tiles[t] == FlatTile(writes)
  {
    seq<Tile>(TILE_COUNT, t requires 0 <= t < TILE_COUNT => FlatTile(writes))
  }

  /** Four tiles in rows of width zero, all of them BUS_W tiles or none. */
  function FlatBake(writes: bool): Baked {
    Baked(FlatTiles(writes), 4, 0, 0, Topology(4, 0, 0, 8, 16, 0, 4), NO_READOUT, 1, 1, 0)
  }

  lemma FlatIsSavable(writes: bool)
    ensures BakedOk(FlatBake(writes)) && Savable(FlatBake(writes))
  {
    assert forall t | 0 <= t < 4 :: FlatBake(writes).tiles[t] == FlatTile(writes);
  }

  lemma FlatIsMasked(writes: bool)
    ensures Masked(FlatTile(writes)) == FlatTile(writes)
  {
  }

  /** What a flash reads after baking its view over prev. */
  function FlatConfig(prev: Baked, writes: bool): Config
    requires BakedOk(prev)
  {
    FlatIsSavable(writes);
    ConfigOf(Apply(prev, ViewOf(FlatBake(writes))))
  }

  lemma FlatApplied(prev: Baked, writes: bool)
    requires BakedOk(prev) && forall t | 0 <= t < TILE_COUNT :: prev.tiles[t].domain < 32
    ensures var c := FlatConfig(prev, writes);
            && c.Valid() && c.n == 4 && c.w == 0 && |c.tiles| == TILE_COUNT
            && forall t | 0 <= t < 4 :: c.tiles[t] == FlatTile(writes)
  {
    hide Masked, FlatTiles;
    FlatIsMasked(writes);
    var tiles := FlatConfig(prev, writes).tiles;
    forall t | 0 <= t < TILE_COUNT
      ensures tiles[t] == if t < 4 then FlatTile(writes) else prev.tiles[t]
    {
    }
  }

  lemma FlatIsAccepted(writes: bool)
    ensures BakedOk(FlatBake(writes))
    ensures Parse(Serialize(FlatBake(writes))) == Accepted(ViewOf(FlatBake(writes)))
  {
    hide Parse, Serialize, ViewOf, Savable;
    FlatIsSavable(writes);
    RoundTripExactly(FlatBake(writes));
  }

  /** The parser accepts its blob (`FlatIsAccepted`), and whatever was baked before, baking it leaves a swarm with rows
      of width zero. Its first flash divides by zero if the tiles are BUS_W tiles; if not, no flash ever does. */
  lemma FlatBakeDivides(prev: Baked, writes: bool, inp: Lanes)
    requires BakedOk(prev) && forall t | 0 <= t < TILE_COUNT :: prev.tiles[t].domain < 32
    ensures var c := FlatConfig(prev, writes);
            && c.Valid() && |c.tiles| == TILE_COUNT && c.n == 4 && c.w == 0
            && (writes ==> FlashDivides(c, Fresh(TILE_COUNT), inp))
            && (!writes ==> NeverDivides(c))
  {
    hide FlatConfig;
    FlatApplied(prev, writes);
    FlatDivides(FlatConfig(prev, writes), writes, inp);
  }

  lemma FlatDivides(c: Config, writes: bool, inp: Lanes)
    requires c.Valid() && c.n == 4 && c.w == 0 && |c.tiles| == TILE_COUNT
    requires forall t | 0 <= t < 4 :: c.tiles[t] == FlatTile(writes)
    ensures writes ==> FlashDivides(c, Fresh(TILE_COUNT), inp)
    ensures !writes ==> NeverDivides(c)
  {
    hide FlashDivides, AfterRead, NeverDivides;
    if writes {
      FlatWriterUnlocked(c, inp);
      WidthZeroDivides(c, Fresh(TILE_COUNT), inp);
    } else {
      WidthZeroFlashes(c);
    }
  }

  lemma FlatWriterUnlocked(c: Config, inp: Lanes)
    requires c.Valid() && c.n == 4 && |c.tiles| == TILE_COUNT && forall t | 0 <= t < 4 :: c.tiles[t] == FlatTile(true)
    ensures !AfterRead(c, Fresh(TILE_COUNT), inp).locked[0]
  {
    LockedMeansInRange(c.tiles[0], c.bakeId, IsActive(c, Fresh(TILE_COUNT), 0), false, 0, inp);
  }
}
