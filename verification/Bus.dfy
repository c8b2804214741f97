/** The write phase: which tiles drive the BUS and what the eight saturated lanes then carry. */
module Bus {
  import opened Machine
  import opened Grid

  predicate Writes(c: Config, locked: seq<bool>, t: nat)
    requires c.Valid() && c.n <= |locked|
  {
    t < c.n && c.tiles[t].busW && (locked[t] || 0 < c.w) && HasLockedWriteSource(c, locked, t)
  }

  /** What the first k tiles put on one lane, in tile order. */
  function BusSum(c: Config, locked: seq<bool>, row: seq<Lanes>, k: nat, lane: nat): (s: nat)
    requires c.Valid() && k <= c.n <= |locked| && c.n <= |row| && lane < 8
    ensures s <= 15 * k
  {
    if k == 0 then 0
    else BusSum(c, locked, row, k - 1, lane) + if Writes(c, locked, k - 1) then row[k - 1][lane] else 0
  }

  function BusLane(c: Config, locked: seq<bool>, row: seq<Lanes>, lane: nat): Level
    requires c.Valid() && c.n <= |locked| && c.n <= |row| && lane < 8
  {
    Min(15, BusSum(c, locked, row, c.n, lane))
  }

  /** The write phase divides by a row width of zero: some BUS_W tile is not locked itself. */
  ghost predicate WriteDivides(c: Config, locked: seq<bool>)
    requires c.Valid() && c.n <= |locked|
  {
    c.w == 0 && exists t: nat :: t < c.n && c.tiles[t].busW && !locked[t]
  }

  function BusLanes(c: Config, locked: seq<bool>, row: seq<Lanes>): Lanes
    requires c.Valid() && c.n <= |locked| && c.n <= |row|
  {
    seq(8, i requires 0 <= i < 8 => BusLane(c, locked, row, i))
  }

  /** Some lane saturates. */
  ghost predicate AnyClip(c: Config, locked: seq<bool>, row: seq<Lanes>)
    requires c.Valid() && c.n <= |locked| && c.n <= |row|
  {
    exists i :: 0 <= i < 8 && BusSum(c, locked, row, c.n, i) > 15
  }

  // ---------- The sum does not depend on the order of the writers ----------

  ghost function Writers(c: Config, locked: seq<bool>, k: nat): set<nat>
    requires c.Valid() && c.n <= |locked|
  {
    set t: nat | t < k && Writes(c, locked, t)
  }

  predicate InTable(row: seq<Lanes>, order: seq<nat>) {
    forall i | 0 <= i < |order| :: order[i] < |row|
  }

  function SumInOrder(row: seq<Lanes>, order: seq<nat>, lane: nat): nat
    requires lane < 8 && InTable(row, order)
  {
    if order == [] then 0 else row[order[0]][lane] + SumInOrder(row, order[1..], lane)
  }

  ghost predicate Lists(order: seq<nat>, S: set<nat>) {
    && (forall i, j | 0 <= i < j < |order| :: order[i] != order[j])
    && (forall t :: t in order <==> t in S)
  }

  lemma {:induction false} SumWithout(row: seq<Lanes>, order: seq<nat>, lane: nat, i: nat)
    requires lane < 8 && InTable(row, order)
    requires i < |order|
    ensures InTable(row, order[..i] + order[i + 1..])
    ensures SumInOrder(row, order, lane)
            == row[order[i]][lane] + SumInOrder(row, order[..i] + order[i + 1..], lane)
  {
    if i > 0 {
      var rest := order[1..];
      SumWithout(row, rest, lane, i - 1);
      assert (order[..i] + order[i + 1..])[1..] == rest[..i - 1] + rest[i..];
    } else {
      assert order[..0] + order[1..] == order[1..];
    }
  }

  lemma ListsWithout(order: seq<nat>, S: set<nat>, i: nat)
    requires Lists(order, S) && i < |order|
    ensures Lists(order[..i] + order[i + 1..], S - {order[i]})
  {
    var rest := order[..i] + order[i + 1..];
    forall t
      ensures t in rest <==> t in S - {order[i]}
    {
      if t in order {
        var j :| 0 <= j < |order| && order[j] == t;
        if j < i {
          assert rest[j] == t;
        } else if j > i {
          assert rest[j - 1] == t;
        }
      }
    }
  }

  /** However the permitted writers are visited, a lane receives the same sum. */
  lemma {:induction false} BusSumAnyOrder(c: Config, locked: seq<bool>, row: seq<Lanes>, k: nat, lane: nat, order: seq<nat>)
    requires c.Valid() && k <= c.n <= |locked| && c.n <= |row| && lane < 8
    requires Lists(order, Writers(c, locked, k))
    ensures InTable(row, order)
    ensures SumInOrder(row, order, lane) == BusSum(c, locked, row, k, lane)
  {
    forall i | 0 <= i < |order|
      ensures order[i] in Writers(c, locked, k)
    {
      assert order[i] in order;
    }
    if k == 0 {
      assert Writers(c, locked, 0) == {};
    } else if Writes(c, locked, k - 1) {
      assert k - 1 in Writers(c, locked, k);
      var i :| 0 <= i < |order| && order[i] == k - 1;
      ListsWithout(order, Writers(c, locked, k), i);
      assert Writers(c, locked, k) - {k - 1} == Writers(c, locked, k - 1);
      BusSumAnyOrder(c, locked, row, k - 1, lane, order[..i] + order[i + 1..]);
      SumWithout(row, order, lane, i);
    } else {
      assert Writers(c, locked, k) == Writers(c, locked, k - 1);
      BusSumAnyOrder(c, locked, row, k - 1, lane, order);
    }
  }

  // ---------- Who writes, in terms of masks and locks ----------

  /** On complete rows or a single row a tile writes exactly if it is a BUS_W tile and is locked, or has a locked tile
      pointing at it. */
  lemma WritesExactly(c: Config, locked: seq<bool>, t: nat)
    requires c.Valid() && 0 < c.w && c.n <= |locked| && t < c.n
    requires c.n % c.w == 0 || c.n <= c.w
    ensures Writes(c, locked, t)
            <==> c.tiles[t].busW && (locked[t] || exists p: nat :: p < c.n && locked[p] && Points(c, p, t))
  {
    hide Points, HasLockedWriteSource;
    ForwardBackwardAgree(c, locked, t);
    forall p: nat
      ensures Edge(c, p, t) <==> Points(c, p, t)
    {
      EdgeIsPointing(c, p, t);
    }
  }

  /** On any rows, less the two overlooked masks. */
  lemma WritesOnAnyRows(c: Config, locked: seq<bool>, t: nat)
    requires c.Valid() && 0 < c.w && c.n <= |locked| && t < c.n
    ensures Writes(c, locked, t)
            <==> c.tiles[t].busW
                 && (locked[t] || exists p: nat :: p < c.n && locked[p] && Points(c, p, t) && !Overlooked(c, p, t))
  {
    hide Points, Overlooked, HasLockedWriteSource;
    WriteSourceInCoordinates(c, locked, t);
  }

  /** What a tile that is no BUS_W tile would put out does not matter, nor does that of a tile which is unlocked and has
      no locked tile pointing at it. */
  lemma {:induction false} OnlyWritersCount(c: Config, locked: seq<bool>, row: seq<Lanes>, row': seq<Lanes>, k: nat, lane: nat)
    requires c.Valid() && 0 < c.w && k <= c.n <= |locked| && c.n <= |row| && c.n <= |row'| && lane < 8
    requires forall t: nat | t < c.n && c.tiles[t].busW && (locked[t] || exists p: nat :: p < c.n && locked[p] && Points(c, p, t)) ::
               row[t] == row'[t]
    ensures BusSum(c, locked, row, k, lane) == BusSum(c, locked, row', k, lane)
  {
    hide Points, Overlooked, Writes;
    if k > 0 {
      OnlyWritersCount(c, locked, row, row', k - 1, lane);
      WritesOnAnyRows(c, locked, k - 1);
    }
  }

  /** Without BUS_W tiles the BUS is silent. */
  lemma {:induction false} NoWriterNoBus(c: Config, locked: seq<bool>, row: seq<Lanes>, k: nat, lane: nat)
    requires c.Valid() && k <= c.n <= |locked| && c.n <= |row| && lane < 8
    requires forall t: nat | t < c.n :: !c.tiles[t].busW
    ensures BusSum(c, locked, row, k, lane) == 0
  {
    if k > 0 {
      NoWriterNoBus(c, locked, row, k - 1, lane);
    }
  }

  lemma NoWriterSilent(c: Config, locked: seq<bool>, row: seq<Lanes>)
    requires c.Valid() && c.n <= |locked| && c.n <= |row| && forall t: nat | t < c.n :: !c.tiles[t].busW
    ensures BusLanes(c, locked, row) == ZERO_LANES
  {
    forall lane: nat | lane < 8
      ensures BusLane(c, locked, row, lane) == 0
    {
      NoWriterNoBus(c, locked, row, c.n, lane);
    }
  }

  /** If exactly one tile writes, the BUS is its row, lane by lane. */
  lemma OneWriterIsBus(c: Config, locked: seq<bool>, row: seq<Lanes>, t: nat)
    requires c.Valid() && c.n <= |locked| && c.n <= |row| && t < c.n
    requires forall p: nat | p < c.n :: Writes(c, locked, p) <==> p == t
    ensures BusLanes(c, locked, row) == row[t]
  {
    hide Writes;
    forall lane: nat | lane < 8
      ensures BusLane(c, locked, row, lane) == row[t][lane]
    {
      OneWriterSum(c, locked, row, t, c.n, lane);
    }
  }

  lemma {:induction false} OneWriterSum(c: Config, locked: seq<bool>, row: seq<Lanes>, t: nat, k: nat, lane: nat)
    requires c.Valid() && k <= c.n <= |locked| && c.n <= |row| && t < c.n && lane < 8
    requires forall p: nat | p < c.n :: Writes(c, locked, p) <==> p == t
    ensures BusSum(c, locked, row, k, lane) == if t < k then row[t][lane] else 0
  {
    hide Writes;
    if k > 0 {
      OneWriterSum(c, locked, row, t, k - 1, lane);
    }
  }

  // ---------- The loops ----------

  /** Bus accumulation and the scalar clamp. */
  method AccumulateBus(c: Config, locked: array<bool>, rowOut: array<Lanes>) returns (bus: Lanes, clip: u16, divides: bool)
    requires c.Valid() && c.n <= locked.Length && c.n <= rowOut.Length
    ensures divides <==> WriteDivides(c, locked[..])
    ensures !divides ==> bus == BusLanes(c, locked[..], rowOut[..])
    ensures !divides ==> forall i | 0 <= i < 8 :: Bit(clip, i) <==> BusSum(c, locked[..], rowOut[..], c.n, i) > 15
    ensures !divides ==> (clip != 0 <==> AnyClip(c, locked[..], rowOut[..]))
  {
    divides := false;
    bus, clip := ZERO_LANES, 0;
    var raw: seq<u32> := seq(8, _ => 0);
    var t := 0;
    while t < c.n
      invariant t <= c.n && |raw| == 8
      invariant forall i | 0 <= i < 8 :: raw[i] == BusSum(c, locked[..], rowOut[..], t, i)
      invariant !divides && (c.w == 0 ==> forall i: nat | i < t && c.tiles[i].busW :: locked[i])
    {
      if c.tiles[t].busW {
        if !locked[t] && c.w == 0 {
          return bus, clip, true;
        }
        if HasLockedWriteSource(c, locked[..], t) {
          raw := AddRow(raw, rowOut[t], 15 * t);
        }
      }
      t := t + 1;
    }
    BitsOfNone();
    var i := 0;
    while i < 8
      invariant 0 <= i <= 8
      invariant forall k | 0 <= k < i :: bus[k] == Min(15, raw[k])
      invariant forall k: nat :: Bit(clip, k) <==> k < i && raw[k] > 15
      invariant clip != 0 <==> exists k :: 0 <= k < i && raw[k] > 15
    {
      bus := bus[i := Clamp15(raw[i])];
      if raw[i] > 15 {
        SetsOneBit(clip, i);
        clip := Or16(clip, Shift1(i));
      }
      i := i + 1;
    }
  }

  lemma BitsOfNone()
    ensures forall k: nat :: !Bit(0, k)
  {
    forall k: nat { BitOfZero(k); }
  }

  lemma SetsOneBit(m: u16, d: nat)
    requires d < 8
    ensures forall k: nat :: Bit(Or16(m, Shift1(d)), k) <==> Bit(m, k) || k == d
    ensures Or16(m, Shift1(d)) != 0
  {
    forall k: nat { SetBit(m, d, k); }
    BitOfZero(d);
  }

  /** bus_raw[i] += drive_vec[i] on 32-bit words. */
  method AddRow(raw: seq<u32>, drive: Lanes, ghost bound: nat) returns (r: seq<u32>)
    requires |raw| == 8 && bound <= 15 * 0xFFFF
    requires forall i | 0 <= i < 8 :: raw[i] <= bound
    ensures |r| == 8 && forall i | 0 <= i < 8 :: r[i] == raw[i] + drive[i]
  {
    r := raw;
    var i := 0;
    while i < 8
      invariant 0 <= i <= 8 && |r| == 8
      invariant forall k | 0 <= k < i :: r[k] == raw[k] + drive[k]
      invariant forall k | i <= k < 8 :: r[k] == raw[k]
    {
      r := r[i := (r[i] + drive[i]) % 0x1_0000_0000];
      i := i + 1;
    }
  }
}
