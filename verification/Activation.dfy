/** The activation closure of one flash: which tiles are alive, given the locks of the previous flash. */
module Activation {
  import opened Grid

  // ---------- Meaning ----------

  /** Every tile flagged BUS_R is in S. */
  ghost predicate Seeded(c: Config, S: set<nat>)
    requires c.Valid()
  {
    forall t: nat | t < c.n && c.tiles[t].busR :: t in S
  }

  /** A locked tile of S passes activation along each of its edges. */
  ghost predicate Closed(c: Config, locked: seq<bool>, S: set<nat>)
    requires c.Valid() && c.n <= |locked|
  {
    forall p: nat, q: nat | p in S && p < c.n && locked[p] && Edge(c, p, q) :: q in S
  }

  /** The least set that is seeded and closed. */
  ghost function ActiveSet(c: Config, locked: seq<bool>): set<nat>
    requires c.Valid() && c.n <= |locked|
  {
    set t: nat | t < c.n && InEveryClosedSet(c, locked, t)
  }

  ghost predicate InEveryClosedSet(c: Config, locked: seq<bool>, t: nat)
    requires c.Valid() && c.n <= |locked|
  {
    forall S: set<nat> | Seeded(c, S) && Closed(c, locked, S) :: t in S
  }

  lemma ActiveSetIsLeast(c: Config, locked: seq<bool>, S: set<nat>)
    requires c.Valid() && c.n <= |locked|
    requires Seeded(c, S) && Closed(c, locked, S)
    ensures ActiveSet(c, locked) <= S
  {
  }

  lemma ActiveSetIsClosed(c: Config, locked: seq<bool>)
    requires c.Valid() && c.n <= |locked|
    ensures Seeded(c, ActiveSet(c, locked)) && Closed(c, locked, ActiveSet(c, locked))
  {
    var A := ActiveSet(c, locked);
    forall t: nat | t < c.n && c.tiles[t].busR
      ensures t in A
    {
      assert InEveryClosedSet(c, locked, t);
    }
    forall p: nat, q: nat | p in A && p < c.n && locked[p] && Edge(c, p, q)
      ensures q in A
    {
      EdgeInRange(c, p, q);
      forall S: set<nat> | Seeded(c, S) && Closed(c, locked, S)
        ensures q in S
      {
        assert InEveryClosedSet(c, locked, p);
        assert p in S;
      }
      assert InEveryClosedSet(c, locked, q);
    }
  }

  /** Any set with the two closure properties and no more is the active set. */
  lemma ActiveSetUnique(c: Config, locked: seq<bool>, A: set<nat>)
    requires c.Valid() && c.n <= |locked|
    requires Seeded(c, A) && Closed(c, locked, A)
    requires forall S: set<nat> | Seeded(c, S) && Closed(c, locked, S) :: A <= S
    ensures A == ActiveSet(c, locked)
  {
    ActiveSetIsClosed(c, locked);
    ActiveSetIsLeast(c, locked, A);
  }

  // ---------- Paths: an independent reading ----------

  /** A chain of edges from a BUS_R tile to t in which every tile before the last one is locked. */
  ghost predicate RelayPath(c: Config, locked: seq<bool>, path: seq<nat>, t: nat)
    requires c.Valid() && c.n <= |locked|
  {
    && path != [] && path[|path| - 1] == t
    && path[0] < c.n && c.tiles[path[0]].busR
    && forall i: nat | i + 1 < |path| ::
         path[i] < c.n && locked[path[i]] && Edge(c, path[i], path[i + 1])
  }

  ghost predicate Relayed(c: Config, locked: seq<bool>, t: nat)
    requires c.Valid() && c.n <= |locked|
  {
    exists path: seq<nat> :: RelayPath(c, locked, path, t)
  }

  lemma {:induction false} PathIsActive(c: Config, locked: seq<bool>, path: seq<nat>, t: nat)
    requires c.Valid() && c.n <= |locked|
    requires RelayPath(c, locked, path, t)
    ensures t in ActiveSet(c, locked)
    decreases |path|
  {
    ActiveSetIsClosed(c, locked);
    if |path| > 1 {
      var k := |path| - 2;
      var p := path[k];
      assert RelayPath(c, locked, path[..k + 1], p);
      PathIsActive(c, locked, path[..k + 1], p);
      assert Edge(c, path[k], path[k + 1]);
    }
  }

  /** A tile is active exactly when a relay of locked tiles leads to it from a BUS_R tile. */
  lemma ActiveIffRelayed(c: Config, locked: seq<bool>, t: nat)
    requires c.Valid() && c.n <= |locked|
    ensures t in ActiveSet(c, locked) <==> Relayed(c, locked, t)
  {
    var S := set t: nat | t < c.n && Relayed(c, locked, t);
    forall s: nat | s < c.n && c.tiles[s].busR
      ensures s in S
    {
      assert RelayPath(c, locked, [s], s);
    }
    forall p: nat, q: nat | p in S && p < c.n && locked[p] && Edge(c, p, q)
      ensures q in S
    {
      EdgeInRange(c, p, q);
      var path :| RelayPath(c, locked, path, p);
      assert RelayPath(c, locked, path + [q], q);
    }
    ActiveSetIsLeast(c, locked, S);
    if Relayed(c, locked, t) {
      var path :| RelayPath(c, locked, path, t);
      PathIsActive(c, locked, path, t);
    }
  }

  /** More locks never switch a tile off. */
  lemma ActiveMonotone(c: Config, before: seq<bool>, after: seq<bool>)
    requires c.Valid() && c.n <= |before| && c.n <= |after|
    requires forall t | 0 <= t < c.n && before[t] :: after[t]
    ensures ActiveSet(c, before) <= ActiveSet(c, after)
  {
    ActiveSetIsClosed(c, after);
    ActiveSetIsLeast(c, before, ActiveSet(c, after));
  }

  // ---------- Visiting tiles one by one ----------

  /** The propagation loop's visit to tile t when A is marked so far. */
  ghost function Visit(c: Config, locked: seq<bool>, A: set<nat>, t: nat): set<nat>
    requires c.Valid() && c.n <= |locked|
  {
    if t < c.n && t in A && locked[t] then A + set q: nat | q < c.n && Edge(c, t, q) else A
  }

  ghost function VisitAll(c: Config, locked: seq<bool>, A: set<nat>, order: seq<nat>): set<nat>
    requires c.Valid() && c.n <= |locked|
    decreases |order|
  {
    if order == [] then A else VisitAll(c, locked, Visit(c, locked, A, order[0]), order[1..])
  }

  ghost function Sources(c: Config): set<nat>
    requires c.Valid()
  {
    set t: nat | t < c.n && c.tiles[t].busR
  }

  /** Visits in any order only grow the marks, and never leave a closed set. */
  lemma {:induction false} VisitsStayInside(c: Config, locked: seq<bool>, A: set<nat>, order: seq<nat>, S: set<nat>)
    requires c.Valid() && c.n <= |locked|
    ensures A <= VisitAll(c, locked, A, order)
    ensures A <= S && Closed(c, locked, S) ==> VisitAll(c, locked, A, order) <= S
    decreases |order|
  {
    if order != [] {
      VisitsStayInside(c, locked, Visit(c, locked, A, order[0]), order[1..], S);
    }
  }

  /** Marks that a round of visits to all tiles, in any order, leaves alone are closed. */
  lemma {:induction false} SettledAt(c: Config, locked: seq<bool>, A: set<nat>, order: seq<nat>, t: nat)
    requires c.Valid() && c.n <= |locked|
    requires VisitAll(c, locked, A, order) == A && t in order
    ensures Visit(c, locked, A, t) == A
    decreases |order|
  {
    hide Edge;
    VisitsStayInside(c, locked, Visit(c, locked, A, order[0]), order[1..], A);
    assert Visit(c, locked, A, order[0]) == A;
    if t != order[0] {
      SettledAt(c, locked, A, order[1..], t);
    }
  }

  lemma SettledIsClosed(c: Config, locked: seq<bool>, A: set<nat>, order: seq<nat>)
    requires c.Valid() && c.n <= |locked|
    requires VisitAll(c, locked, A, order) == A && forall t: nat | t < c.n :: t in order
    ensures Closed(c, locked, A)
  {
    forall p: nat, q: nat | p in A && p < c.n && locked[p] && Edge(c, p, q)
      ensures q in A
    {
      SettledAt(c, locked, A, order, p);
      EdgeInRange(c, p, q);
      assert q in Visit(c, locked, A, p);
    }
  }

  /** Order cannot matter: whatever tiles were visited in whatever order, as soon as a round over all tiles, again in
      any order, changes nothing, the marks are the active set. */
  lemma AnyOrderReachesActiveSet(c: Config, locked: seq<bool>, order: seq<nat>, round: seq<nat>)
    requires c.Valid() && c.n <= |locked| && forall t: nat | t < c.n :: t in round
    requires var A := VisitAll(c, locked, Sources(c), order); VisitAll(c, locked, A, round) == A
    ensures VisitAll(c, locked, Sources(c), order) == ActiveSet(c, locked)
  {
    var A := VisitAll(c, locked, Sources(c), order);
    SettledIsClosed(c, locked, A, round);
    VisitsStayInside(c, locked, Sources(c), order, ActiveSet(c, locked));
    ActiveSetIsClosed(c, locked);
    ActiveSetIsLeast(c, locked, A);
  }

  ghost function VisitRounds(c: Config, locked: seq<bool>, A: set<nat>, rounds: seq<seq<nat>>): set<nat>
    requires c.Valid() && c.n <= |locked|
    decreases |rounds|
  {
    if rounds == [] then A else VisitRounds(c, locked, VisitAll(c, locked, A, rounds[0]), rounds[1..])
  }

  /** And such a round comes: as many rounds as there are tiles, each over all tiles in an order of its own, always
      reach the active set. */
  lemma AnyRoundsReachActiveSet(c: Config, locked: seq<bool>, rounds: seq<seq<nat>>)
    requires c.Valid() && c.n <= |locked| && c.n <= |rounds|
    requires forall i: nat, t: nat | i < |rounds| && t < c.n :: t in rounds[i]
    ensures VisitRounds(c, locked, Sources(c), rounds) == ActiveSet(c, locked)
  {
    ActiveSetIsClosed(c, locked);
    RoundsProgress(c, locked, Sources(c), rounds);
  }

  /** Every round but the last ones adds a tile. */
  lemma {:induction false} RoundsProgress(c: Config, locked: seq<bool>, A: set<nat>, rounds: seq<seq<nat>>)
    requires c.Valid() && c.n <= |locked|
    requires Sources(c) <= A <= ActiveSet(c, locked) && c.n <= |A| + |rounds|
    requires forall i: nat, t: nat | i < |rounds| && t < c.n :: t in rounds[i]
    ensures VisitRounds(c, locked, A, rounds) == ActiveSet(c, locked)
    decreases |rounds|
  {
    hide ActiveSet, VisitAll, Seeded, Closed, Edge;
    ActiveSetIsClosed(c, locked);
    if rounds == [] {
      ActiveBelow(c, locked);
      BelowCount(ActiveSet(c, locked), c.n);
      if A != ActiveSet(c, locked) {
        SmallerSubset(A, ActiveSet(c, locked));
      }
    } else {
      var B := VisitAll(c, locked, A, rounds[0]);
      VisitsStayInside(c, locked, A, rounds[0], ActiveSet(c, locked));
      assert forall t: nat | t < c.n :: t in rounds[0];
      if B == A {
        SettledIsClosed(c, locked, A, rounds[0]);
        SourcesSeed(c, A);
        ActiveSetIsLeast(c, locked, A);
        assert A == ActiveSet(c, locked);
        ActiveStays(c, locked, rounds);
      } else {
        SmallerSubset(A, B);
        RoundsProgress(c, locked, B, rounds[1..]);
      }
    }
  }

  lemma {:induction false} ActiveStays(c: Config, locked: seq<bool>, rounds: seq<seq<nat>>)
    requires c.Valid() && c.n <= |locked|
    ensures VisitRounds(c, locked, ActiveSet(c, locked), rounds) == ActiveSet(c, locked)
    decreases |rounds|
  {
    if rounds != [] {
      var A := ActiveSet(c, locked);
      ActiveSetIsClosed(c, locked);
      VisitsStayInside(c, locked, A, rounds[0], A);
      assert VisitAll(c, locked, A, rounds[0]) == A;
      ActiveStays(c, locked, rounds[1..]);
    }
  }

  lemma ActiveBelow(c: Config, locked: seq<bool>)
    requires c.Valid() && c.n <= |locked|
    ensures forall t | t in ActiveSet(c, locked) :: t < c.n
  {
  }

  lemma SourcesSeed(c: Config, A: set<nat>)
    requires c.Valid() && Sources(c) <= A
    ensures Seeded(c, A)
  {
  }

  lemma SmallerSubset(A: set<nat>, B: set<nat>)
    requires A <= B && A != B
    ensures |A| < |B|
  {
    var x :| x in B && x !in A;
    CardinalitySubset(A, B - {x});
  }

  lemma {:induction false} CardinalitySubset(A: set<nat>, B: set<nat>)
    requires A <= B
    ensures |A| <= |B|
  {
    if A != {} {
      var x :| x in A;
      CardinalitySubset(A - {x}, B - {x});
    }
  }

  lemma {:induction false} BelowCount(A: set<nat>, n: nat)
    requires forall t | t in A :: t < n
    ensures |A| <= n
  {
    if n > 0 {
      BelowCount(A - {n - 1}, n - 1);
    }
  }

  lemma {:induction false} VisitSnoc(c: Config, locked: seq<bool>, A: set<nat>, order: seq<nat>, t: nat)
    requires c.Valid() && c.n <= |locked|
    ensures VisitAll(c, locked, A, order + [t]) == Visit(c, locked, VisitAll(c, locked, A, order), t)
    decreases |order|
  {
    if order == [] {
      assert [] + [t] == [t];
    } else {
      assert (order + [t])[1..] == order[1..] + [t];
      VisitSnoc(c, locked, Visit(c, locked, A, order[0]), order[1..], t);
    }
  }

  function Ascending(n: nat): (order: seq<nat>)
    ensures |order| == n && forall t | 0 <= t < n :: order[t] == t
  {
    if n == 0 then [] else Ascending(n - 1) + [n - 1]
  }

  // ---------- When the loop divides by zero ----------

  /** The child blocks of tile t divide by a row width of zero: some mask asks for a column test. */
  predicate DividesAt(c: Config, t: nat)
    requires t < c.n <= |c.tiles|
  {
    var m := c.tiles[t];
    c.w == 0 && (m.maskE || m.maskW || m.maskSE || m.maskSW || m.maskNE || m.maskNW)
  }

  /** The loop meets such a tile active and locked. */
  ghost predicate ActivationDivides(c: Config, locked: seq<bool>)
    requires c.Valid() && c.n <= |locked|
  {
    exists t: nat :: t in ActiveSet(c, locked) && t < c.n && locked[t] && DividesAt(c, t)
  }

  /** With rows of width zero nobody passes activation to another tile before the loop divides. */
  lemma WidthZeroActivation(c: Config, locked: seq<bool>)
    requires c.Valid() && c.n <= |locked| && c.w == 0
    ensures ActiveSet(c, locked) == Sources(c)
    ensures ActivationDivides(c, locked)
            <==> exists t: nat :: t < c.n && c.tiles[t].busR && locked[t] && DividesAt(c, t)
  {
    ActiveSetIsLeast(c, locked, Sources(c));
    ActiveSetIsClosed(c, locked);
  }

  // ---------- The loop ----------

  ghost function Marked(n: nat, active: seq<bool>): set<nat>
    requires n <= |active|
  {
    set t: nat | t < n && active[t]
  }

  ghost function Unmarked(n: nat, active: seq<bool>): set<nat>
    requires n <= |active|
  {
    set t: nat | t < n && !active[t]
  }

  /** One of the eight child blocks of the propagation loop: mark the neighbour unless it already is. */
  method Touch(c: Config, active: array<bool>, t: nat, d: Dir, changed: bool) returns (r: bool)
    requires c.Valid() && c.n <= active.Length && t < c.n && !DividesAt(c, t)
    modifies active
    ensures forall i | 0 <= i < active.Length ::
              active[i] == (old(active[i]) || (i < c.n && EdgeVia(c, t, i, d)))
    ensures r == (changed || Grew(old(active[..]), active[..]))
  {
    r := changed;
    if Route(c.tiles[t], d) && HasChild(c.n, c.w, t, d) {
      ChildInRange(c.n, c.w, t, d);
      var q := Child(c.w, t, d);
      if !active[q] {
        active[q] := true;
        r := true;
      }
    }
  }

  ghost predicate Grew(before: seq<bool>, after: seq<bool>) {
    |before| == |after| && exists i :: 0 <= i < |before| && after[i] && !before[i]
  }

  /** The eight child blocks for one active locked tile. */
  method ActivateChildren(c: Config, active: array<bool>, t: nat, changed: bool) returns (r: bool)
    requires c.Valid() && c.n <= active.Length && t < c.n && !DividesAt(c, t)
    modifies active
    ensures forall i | 0 <= i < active.Length ::
              active[i] == (old(active[i]) || (i < c.n && Edge(c, t, i)))
    ensures r == (changed || Grew(old(active[..]), active[..]))
  {
    r := Touch(c, active, t, E, changed);
    r := Touch(c, active, t, W, r);
    r := Touch(c, active, t, S, r);
    r := Touch(c, active, t, N, r);
    r := Touch(c, active, t, SE, r);
    r := Touch(c, active, t, SW, r);
    r := Touch(c, active, t, NE, r);
    r := Touch(c, active, t, NW, r);
  }

  /** One pass is a round of visits in ascending order. So it adds only what every closed set above the current
      marks contains, and if it adds nothing the marks are closed. It ends early at the first active locked tile that
      divides by zero. */
  method ActivatePass(c: Config, locked: array<bool>, active: array<bool>) returns (changed: bool, divides: bool)
    requires c.Valid() && c.n <= active.Length == locked.Length && active != locked
    modifies active
    ensures forall i | 0 <= i < active.Length :: old(active[i]) ==> active[i]
    ensures forall i | c.n <= i < active.Length :: active[i] == old(active[i])
    ensures changed == Grew(old(active[..]), active[..])
    ensures !divides ==>
              Marked(c.n, active[..]) == VisitAll(c, locked[..], Marked(c.n, old(active[..])), Ascending(c.n))
    ensures forall S: set<nat> | Closed(c, locked[..], S) && Marked(c.n, old(active[..])) <= S ::
              Marked(c.n, active[..]) <= S
    ensures !changed && !divides ==> Closed(c, locked[..], Marked(c.n, active[..]))
    ensures divides ==> exists t: nat :: t < c.n && active[t] && locked[t] && DividesAt(c, t)
    ensures !divides ==> forall t: nat | t < c.n && old(active[t]) && locked[t] :: !DividesAt(c, t)
  {
    hide Edge, Closed, VisitAll, Visit;
    changed, divides := false, false;
    ghost var was, L := active[..], locked[..];
    NoVisits(c, L, Marked(c.n, was));
    var t := 0;
    while t < c.n
      invariant t <= c.n && locked[..] == L
      invariant forall i | 0 <= i < active.Length :: was[i] ==> active[i]
      invariant forall i | c.n <= i < active.Length :: active[i] == was[i]
      invariant changed == Grew(was, active[..])
      invariant Marked(c.n, active[..]) == VisitAll(c, L, Marked(c.n, was), Ascending(t))
      invariant !divides && forall i: nat | i < t && was[i] && L[i] :: !DividesAt(c, i)
    {
      ghost var before := active[..];
      VisitSnoc(c, L, Marked(c.n, was), Ascending(t), t);
      if active[t] && locked[t] {
        if DividesAt(c, t) {
          forall S: set<nat> {
            VisitsStayInside(c, L, Marked(c.n, was), Ascending(t), S);
          }
          return changed, true;
        }
        changed := ActivateChildren(c, active, t, changed);
        GrowthComposes(was, before, active[..], changed);
        ChildrenAreVisit(c, L, before, active[..], t);
      } else {
        NothingToVisit(c, L, before, t);
      }
      t := t + 1;
    }
    forall S: set<nat> {
      VisitsStayInside(c, L, Marked(c.n, was), Ascending(c.n), S);
    }
    if !changed {
      assert active[..] == was;
      AscendingCovers(c.n);
      SettledIsClosed(c, L, Marked(c.n, was), Ascending(c.n));
    }
  }

  lemma NoVisits(c: Config, L: seq<bool>, A: set<nat>)
    requires c.Valid() && c.n <= |L|
    ensures VisitAll(c, L, A, Ascending(0)) == A
  {
  }

  lemma AscendingCovers(n: nat)
    ensures forall t: nat | t < n :: t in Ascending(n)
  {
    forall t: nat | t < n
      ensures t in Ascending(n)
    {
      assert Ascending(n)[t] == t;
    }
  }

  lemma NothingToVisit(c: Config, L: seq<bool>, now: seq<bool>, t: nat)
    requires c.Valid() && t < c.n <= |L| == |now| && (!now[t] || !L[t])
    ensures Visit(c, L, Marked(c.n, now), t) == Marked(c.n, now)
  {
  }

  lemma ChildrenAreVisit(c: Config, L: seq<bool>, before: seq<bool>, now: seq<bool>, t: nat)
    requires c.Valid() && t < c.n <= |L| == |before| == |now| && before[t] && L[t]
    requires forall i | 0 <= i < |now| :: now[i] == (before[i] || (i < c.n && Edge(c, t, i)))
    ensures Marked(c.n, now) == Visit(c, L, Marked(c.n, before), t)
  {
    hide Edge;
  }

  lemma GrowthComposes(was: seq<bool>, before: seq<bool>, now: seq<bool>, changed: bool)
    requires |was| == |before| == |now|
    requires forall i | 0 <= i < |now| :: (was[i] ==> before[i]) && (before[i] ==> now[i])
    requires changed == (Grew(was, before) || Grew(before, now))
    ensures changed == Grew(was, now)
  {
    if Grew(was, before) {
      var i :| 0 <= i < |was| && before[i] && !was[i];
      assert now[i] && !was[i];
    }
    if Grew(before, now) {
      var i :| 0 <= i < |was| && now[i] && !before[i];
      assert now[i] && !was[i];
    }
  }

  /** Seeding and multi-pass propagation. The result is the least seeded closed set, so it does not depend
      on the order in which tiles are visited or on the number of passes. The loop divides by zero exactly when
      that set has a locked tile that asks for a column of a row of width zero. */
  method ComputeActive(c: Config, locked: array<bool>, active: array<bool>) returns (divides: bool)
    requires c.Valid() && c.n <= active.Length == locked.Length && active != locked
    modifies active
    ensures divides <==> ActivationDivides(c, locked[..])
    ensures !divides ==> forall t: nat | t < c.n :: active[t] <==> t in ActiveSet(c, locked[..])
  {
    ghost var L := locked[..];
    var t := 0;
    while t < active.Length
      invariant t <= active.Length && locked[..] == L
      invariant forall i | 0 <= i < t :: !active[i]
    {
      active[t] := false;
      t := t + 1;
    }
    t := 0;
    while t < c.n
      invariant t <= c.n && locked[..] == L
      invariant forall i | 0 <= i < active.Length :: active[i] <==> i < t && c.tiles[i].busR
    {
      if c.tiles[t].busR {
        active[t] := true;
      }
      t := t + 1;
    }
    var changed := true;
    while changed
      invariant locked[..] == L
      invariant Seeded(c, Marked(c.n, active[..]))
      invariant forall S: set<nat> | Seeded(c, S) && Closed(c, L, S) :: Marked(c.n, active[..]) <= S
      invariant !changed ==> Closed(c, L, Marked(c.n, active[..]))
      invariant !changed ==> forall t: nat | t < c.n && active[t] && L[t] :: !DividesAt(c, t)
      decreases Unmarked(c.n, active[..]), changed
    {
      ghost var before := active[..];
      changed, divides := ActivatePass(c, locked, active);
      if divides {
        ActiveSetIsClosed(c, L);
        return true;
      }
      if changed {
        ghost var i :| 0 <= i < |before| && active[i] && !before[i];
        assert i in Unmarked(c.n, before) && i !in Unmarked(c.n, active[..]);
      }
    }
    ActiveSetUnique(c, L, Marked(c.n, active[..]));
    divides := false;
  }
}
