/** Arbitration: which fired tile wins its domain, and what the winners ask to be reset. */
module Winner {
  import opened Machine
  import opened Grid

  /** Tile t fired into domain d with a pattern to report. */
  predicate FiredIn(c: Config, fire: seq<bool>, t: nat, d: nat)
    requires t < |fire| == |c.tiles|
  {
    fire[t] && c.tiles[t].pattern != 0 && c.tiles[t].domain == d
  }

  ghost function FiredSet(c: Config, fire: seq<bool>, k: nat, d: nat): set<nat>
    requires k <= |fire| == |c.tiles|
  {
    set t: nat | t < k && FiredIn(c, fire, t, d)
  }

  /** The winner of domain d among the first k tiles, as the one-pass loop keeps it. */
  function WinnerOf(c: Config, fire: seq<bool>, k: nat, d: nat): u16
    requires k <= |fire| == |c.tiles| <= 0xFFFF
  {
    if k == 0 then NO_WINNER
    else
      var cur := WinnerOf(c, fire, k - 1, d);
      if !FiredIn(c, fire, k - 1, d) then cur
      else if cur == NO_WINNER || cur >= |c.tiles| || c.tiles[k - 1].priority > c.tiles[cur].priority then k - 1
      else cur
  }

  ghost predicate Beats(c: Config, a: nat, b: nat)
    requires a < |c.tiles| && b < |c.tiles|
  {
    c.tiles[a].priority > c.tiles[b].priority || (c.tiles[a].priority == c.tiles[b].priority && a < b)
  }

  /** w fired in domain d and beats every other tile that did. */
  ghost predicate IsBest(c: Config, fire: seq<bool>, k: nat, d: nat, w: nat)
    requires k <= |fire| == |c.tiles|
  {
    w in FiredSet(c, fire, k, d) && forall t | t in FiredSet(c, fire, k, d) && t != w :: Beats(c, w, t)
  }

  /** The one-pass loop reports a tile exactly when it is the best fired tile of the domain, and reports
      none exactly when none fired. */
  lemma WinnerExact(c: Config, fire: seq<bool>, k: nat, d: nat)
    requires k <= |fire| == |c.tiles| <= 0xFFFF
    ensures WinnerOf(c, fire, k, d) == NO_WINNER <==> FiredSet(c, fire, k, d) == {}
    ensures forall w: nat :: IsBest(c, fire, k, d, w) <==> w == WinnerOf(c, fire, k, d) && w != NO_WINNER
  {
    LoopKeepsBest(c, fire, k, d);
    var best := WinnerOf(c, fire, k, d);
    forall w: nat | IsBest(c, fire, k, d, w)
      ensures w == best && w != NO_WINNER
    {
    }
  }

  lemma {:induction false} LoopKeepsBest(c: Config, fire: seq<bool>, k: nat, d: nat)
    requires k <= |fire| == |c.tiles| <= 0xFFFF
    ensures var w := WinnerOf(c, fire, k, d);
            if FiredSet(c, fire, k, d) == {} then w == NO_WINNER else w != NO_WINNER && IsBest(c, fire, k, d, w)
  {
    if k > 0 {
      LoopKeepsBest(c, fire, k - 1, d);
      if FiredIn(c, fire, k - 1, d) {
        NewWinner(c, fire, k, d);
      } else {
        assert FiredSet(c, fire, k, d) == FiredSet(c, fire, k - 1, d);
      }
    }
  }

  lemma NewWinner(c: Config, fire: seq<bool>, k: nat, d: nat)
    requires 0 < k <= |fire| == |c.tiles| <= 0xFFFF && FiredIn(c, fire, k - 1, d)
    requires WinnerOf(c, fire, k - 1, d) == NO_WINNER <==> FiredSet(c, fire, k - 1, d) == {}
    requires WinnerOf(c, fire, k - 1, d) != NO_WINNER ==> IsBest(c, fire, k - 1, d, WinnerOf(c, fire, k - 1, d))
    ensures IsBest(c, fire, k, d, WinnerOf(c, fire, k, d)) && WinnerOf(c, fire, k, d) != NO_WINNER
  {
    var now := WinnerOf(c, fire, k, d);
    assert FiredSet(c, fire, k, d) == FiredSet(c, fire, k - 1, d) + {k - 1};
    forall t | t in FiredSet(c, fire, k, d) && t != now
      ensures Beats(c, now, t)
    {
      if t < k - 1 {
        assert t in FiredSet(c, fire, k - 1, d);
      }
    }
  }

  /** The same in terms of the tiles' fields: tile w is reported for domain d exactly if it fired into d with a pattern,
      and every other tile that did so has a smaller priority, or the same and a greater number. */
  lemma WinnerInFields(c: Config, fire: seq<bool>, d: nat, w: nat)
    requires c.n <= |fire| == |c.tiles| <= 0xFFFF
    ensures w == WinnerOf(c, fire, c.n, d) && w != 0xFFFF <==>
              && w < c.n && fire[w] && c.tiles[w].pattern != 0 && c.tiles[w].domain == d
              && forall t: nat | t < c.n && t != w && fire[t] && c.tiles[t].pattern != 0 && c.tiles[t].domain == d ::
                   c.tiles[t].priority < c.tiles[w].priority || (c.tiles[t].priority == c.tiles[w].priority && w < t)
    ensures WinnerOf(c, fire, c.n, d) == 0xFFFF <==>
              forall t: nat | t < c.n :: !(fire[t] && c.tiles[t].pattern != 0 && c.tiles[t].domain == d)
    ensures FiredSet(c, fire, c.n, d) == set t: nat | t < c.n && fire[t] && c.tiles[t].pattern != 0 && c.tiles[t].domain == d
  {
    hide WinnerOf;
    WinnerExact(c, fire, c.n, d);
    var F := FiredSet(c, fire, c.n, d);
    if F == {} {
      forall t: nat | t < c.n
        ensures !(fire[t] && c.tiles[t].pattern != 0 && c.tiles[t].domain == d)
      {
        assert t !in F;
      }
    } else {
      var t :| t in F;
      assert fire[t] && c.tiles[t].pattern != 0 && c.tiles[t].domain == d;
    }
    if IsBest(c, fire, c.n, d, w) {
      assert w in F;
      forall t: nat | t < c.n && t != w && fire[t] && c.tiles[t].pattern != 0 && c.tiles[t].domain == d
        ensures c.tiles[t].priority < c.tiles[w].priority || (c.tiles[t].priority == c.tiles[w].priority && w < t)
      {
        assert t in F;
        assert Beats(c, w, t);
      }
    } else if w in F {
      var t :| t in F && t != w && !Beats(c, w, t);
      assert fire[t] && c.tiles[t].pattern != 0 && c.tiles[t].domain == d;
    }
  }

  /** A domain bit asked for by some winner. */
  ghost predicate AutoReset(c: Config, fire: seq<bool>, e: nat)
    requires c.n <= |fire| == |c.tiles| <= 0xFFFF
  {
    exists d :: 0 <= d < DOMAINS && AsksReset(c, fire, d, e)
  }

  ghost predicate AsksReset(c: Config, fire: seq<bool>, d: nat, e: nat)
    requires c.n <= |fire| == |c.tiles| <= 0xFFFF
  {
    var w := WinnerOf(c, fire, c.n, d);
    w < |c.tiles| && Bit(c.tiles[w].resetMask, e)
  }

  ghost predicate IsWinner(c: Config, fire: seq<bool>, t: nat)
    requires c.n <= |fire| == |c.tiles| <= 0xFFFF
  {
    t != NO_WINNER && exists d :: 0 <= d < DOMAINS && t == WinnerOf(c, fire, c.n, d)
  }

  /** The arbitration part of the snapshot. */
  datatype Selection = Selection(
    winner: seq<u16>, pattern: seq<u16>, priority: seq<u8>, firedSat: seq<u8>, resetFrom: seq<u16>,
    autoReset: u16, collide: u16, domainsFired: u16)

  ghost predicate SelectionExact(c: Config, fire: seq<bool>, s: Selection)
    requires c.n <= |fire| == |c.tiles| <= 0xFFFF
  {
    && |s.winner| == |s.pattern| == |s.priority| == |s.firedSat| == |s.resetFrom| == DOMAINS
    && (forall d | 0 <= d < DOMAINS ::
          && s.winner[d] == WinnerOf(c, fire, c.n, d)
          && s.firedSat[d] == Min(255, |FiredSet(c, fire, c.n, d)|)
          && WinnerFields(c, s.winner[d], s.pattern[d], s.priority[d], s.resetFrom[d]))
    && (forall d | 0 <= d < DOMAINS ::
          && (Bit(s.collide, d) <==> |FiredSet(c, fire, c.n, d)| >= 2)
          && (Bit(s.domainsFired, d) <==> FiredSet(c, fire, c.n, d) != {}))
    && (forall e | 0 <= e < DOMAINS :: Bit(s.autoReset, e) <==> AutoReset(c, fire, e))
  }

  ghost predicate WinnerFields(c: Config, w: u16, pattern: u16, priority: u8, mask: u16) {
    if w < |c.tiles| then
      pattern == c.tiles[w].pattern && priority == c.tiles[w].priority && mask == c.tiles[w].resetMask
    else pattern == 0 && priority == 0 && mask == 0
  }

  /** The tiles that fired into domain d with a pattern. */
  ghost function Fired(c: Config, fire: seq<bool>, d: nat): set<nat>
    requires c.n <= |fire| == |c.tiles|
  {
    set t: nat | t < c.n && fire[t] && c.tiles[t].pattern != 0 && c.tiles[t].domain == d
  }

  /** What the arbitration reports for one domain, field by field. */
  lemma SelectionOfDomain(c: Config, fire: seq<bool>, s: Selection, d: nat)
    requires c.n <= |fire| == |c.tiles| <= 0xFFFF && SelectionExact(c, fire, s) && d < 16
    ensures s.winner[d] == 0xFFFF <==> Fired(c, fire, d) == {}
    ensures s.winner[d] == 0xFFFF ==> s.pattern[d] == 0 && s.priority[d] == 0 && s.resetFrom[d] == 0
    ensures s.winner[d] != 0xFFFF ==>
              && s.winner[d] as nat in Fired(c, fire, d)
              && (forall t: nat | t in Fired(c, fire, d) && t != s.winner[d] ::
                    c.tiles[t].priority < c.tiles[s.winner[d]].priority
                    || (c.tiles[t].priority == c.tiles[s.winner[d]].priority && s.winner[d] < t))
              && s.pattern[d] == c.tiles[s.winner[d]].pattern
              && s.priority[d] == c.tiles[s.winner[d]].priority
              && s.resetFrom[d] == c.tiles[s.winner[d]].resetMask
    ensures s.firedSat[d] == if |Fired(c, fire, d)| > 255 then 255 else |Fired(c, fire, d)|
    ensures s.collide / Pow2(d) % 2 == 1 <==> |Fired(c, fire, d)| >= 2
    ensures s.domainsFired / Pow2(d) % 2 == 1 <==> |Fired(c, fire, d)| >= 1
  {
    hide WinnerOf, Bit, Pow2;
    WinnerInFields(c, fire, d, s.winner[d]);
    BitIsQuotient(s.collide, d);
    BitIsQuotient(s.domainsFired, d);
    var w := s.winner[d];
    assert FiredSet(c, fire, c.n, d) == Fired(c, fire, d);
    if w != 0xFFFF {
      assert w as nat in Fired(c, fire, d);
      forall t: nat | t in Fired(c, fire, d) && t != w
        ensures c.tiles[t].priority < c.tiles[w].priority || (c.tiles[t].priority == c.tiles[w].priority && w < t)
      {
      }
    } else {
      assert forall t: nat :: t !in Fired(c, fire, d);
      assert Fired(c, fire, d) == {};
    }
    if |Fired(c, fire, d)| == 0 {
      assert Fired(c, fire, d) == {};
    }
  }

  /** The merged reset mask has a bit exactly if some winner's own mask has it. */
  lemma SelectionResets(c: Config, fire: seq<bool>, s: Selection, e: nat)
    requires c.n <= |fire| == |c.tiles| <= 0xFFFF && SelectionExact(c, fire, s) && e < 16
    ensures s.autoReset / Pow2(e) % 2 == 1 <==> exists d :: 0 <= d < 16 && s.resetFrom[d] / Pow2(e) % 2 == 1
  {
    hide Bit, Pow2;
    BitIsQuotient(s.autoReset, e);
    forall d: nat | d < 16
      ensures AsksReset(c, fire, d, e) <==> s.resetFrom[d] / Pow2(e) % 2 == 1
    {
      BitIsQuotient(s.resetFrom[d], e);
      BitOfZero(e);
      assert s.winner[d] == WinnerOf(c, fire, c.n, d);
    }
    if AutoReset(c, fire, e) {
      var d :| 0 <= d < DOMAINS && AsksReset(c, fire, d, e);
      assert s.resetFrom[d] / Pow2(e) % 2 == 1;
    }
    if exists d :: 0 <= d < 16 && s.resetFrom[d] / Pow2(e) % 2 == 1 {
      var d :| 0 <= d < 16 && s.resetFrom[d] / Pow2(e) % 2 == 1;
      assert AsksReset(c, fire, d, e);
    }
  }

  lemma FiredSetStep(c: Config, fire: seq<bool>, k: nat, d: nat)
    requires k < |fire| == |c.tiles|
    ensures !FiredIn(c, fire, k, d) ==> FiredSet(c, fire, k + 1, d) == FiredSet(c, fire, k, d)
    ensures FiredIn(c, fire, k, d) ==> |FiredSet(c, fire, k + 1, d)| == |FiredSet(c, fire, k, d)| + 1
  {
    if FiredIn(c, fire, k, d) {
      FiredSetGrows(c, fire, k, d);
    }
  }

  lemma FiredSetGrows(c: Config, fire: seq<bool>, k: nat, d: nat)
    requires k < |fire| == |c.tiles| && FiredIn(c, fire, k, d)
    ensures |FiredSet(c, fire, k + 1, d)| == |FiredSet(c, fire, k, d)| + 1
  {
    assert FiredSet(c, fire, k + 1, d) == FiredSet(c, fire, k, d) + {k};
    assert k !in FiredSet(c, fire, k, d);
  }

  /** The registers of the arbitration loop. */
  datatype Arbiter = Arbiter(cnt: seq<nat>, winner: seq<u16>, pattern: seq<u16>, priority: seq<u8>, collide: u16, fired: u16)

  ghost predicate TracksDomain(c: Config, F: seq<bool>, t: nat, a: Arbiter, d: nat)
    requires t <= |F| == |c.tiles| <= 0xFFFF && d < 16
    requires |a.cnt| == |a.winner| == |a.pattern| == |a.priority| == 16
  {
    var w := a.winner[d];
    && w == WinnerOf(c, F, t, d) && (w == NO_WINNER || w < t)
    && a.cnt[d] == |FiredSet(c, F, t, d)|
    && WinnerFields(c, w, a.pattern[d], a.priority[d], if w < |c.tiles| then c.tiles[w].resetMask else 0)
    && (Bit(a.collide, d) <==> a.cnt[d] >= 2)
    && (Bit(a.fired, d) <==> a.cnt[d] >= 1)
  }

  ghost predicate Tracks(c: Config, F: seq<bool>, t: nat, a: Arbiter)
    requires t <= |F| == |c.tiles| <= 0xFFFF
  {
    && |a.cnt| == |a.winner| == |a.pattern| == |a.priority| == 16
    && forall d: nat | d < 16 :: TracksDomain(c, F, t, a, d)
  }

  /** One turn of the arbitration loop. */
  method Arbitrate(c: Config, ghost F: seq<bool>, t: nat, fires: bool, a: Arbiter) returns (r: Arbiter)
    requires c.Valid() && t < c.n && |F| == |c.tiles| && fires == F[t]
    requires Tracks(c, F, t, a)
    ensures Tracks(c, F, t + 1, r)
  {
    r := a;
    ghost var t1 := t + 1;
    var tile := c.tiles[t];
    var d := tile.domain;
    if fires && tile.pattern != 0 && d < DOMAINS {
      FiredSetStep(c, F, t, d);
      assert TracksDomain(c, F, t, a, d);
      r := r.(cnt := a.cnt[d := a.cnt[d] + 1], fired := Or16(a.fired, Shift1(d)));
      if r.cnt[d] >= 2 {
        r := r.(collide := Or16(a.collide, Shift1(d)));
      }
      var cur := a.winner[d];
      var curPri := if cur == NO_WINNER then 0 else c.tiles[cur].priority;
      if cur == NO_WINNER || tile.priority > curPri || (tile.priority == curPri && t < cur) {
        r := r.(winner := a.winner[d := t], pattern := a.pattern[d := tile.pattern], priority := a.priority[d := tile.priority]);
      }
      SetBits(a.fired, d);
      SetBits(a.collide, d);
      assert TracksDomain(c, F, t1, r, d);
    }
    forall e: nat | e < 16
      ensures TracksDomain(c, F, t1, r, e)
    {
      FiredSetStep(c, F, t, e);
      assert TracksDomain(c, F, t, a, e);
    }
  }

  /** The interphase loops over the fire flags. */
  method SelectWinners(c: Config, fire: array<bool>) returns (s: Selection)
    requires c.Valid() && fire.Length == |c.tiles|
    ensures SelectionExact(c, fire[..], s)
  {
    var a := Arbiter(seq(16, _ => 0), seq(16, _ => NO_WINNER), seq(16, _ => 0), seq(16, _ => 0), 0, 0);
    NothingTracked(c, fire[..], a);
    var t := 0;
    while t < c.n
      invariant t <= c.n && Tracks(c, fire[..], t, a)
    {
      a := Arbitrate(c, fire[..], t, fire[t], a);
      t := t + 1;
    }
    AllTracked(c, fire[..], a);
    var firedSat, resetFrom, autoReset := CollectResets(c, fire[..], a.winner, a.cnt);
    s := Selection(a.winner, a.pattern, a.priority, firedSat, resetFrom, autoReset, a.collide, a.fired);
  }

  lemma AllTracked(c: Config, F: seq<bool>, a: Arbiter)
    requires c.Valid() && |F| == |c.tiles| && Tracks(c, F, c.n, a)
    ensures forall d | 0 <= d < 16 ::
              && a.winner[d] == WinnerOf(c, F, c.n, d) && (a.winner[d] == NO_WINNER || a.winner[d] < c.n)
              && a.cnt[d] == |FiredSet(c, F, c.n, d)|
              && WinnerFields(c, a.winner[d], a.pattern[d], a.priority[d],
                   if a.winner[d] < |c.tiles| then c.tiles[a.winner[d]].resetMask else 0)
    ensures forall d | 0 <= d < 16 :: Bit(a.collide, d) <==> a.cnt[d] >= 2
    ensures forall d | 0 <= d < 16 :: Bit(a.fired, d) <==> a.cnt[d] >= 1
  {
    forall d | 0 <= d < 16
      ensures a.winner[d] == WinnerOf(c, F, c.n, d) && (a.winner[d] == NO_WINNER || a.winner[d] < c.n)
      ensures a.cnt[d] == |FiredSet(c, F, c.n, d)|
      ensures WinnerFields(c, a.winner[d], a.pattern[d], a.priority[d],
                if a.winner[d] < |c.tiles| then c.tiles[a.winner[d]].resetMask else 0)
      ensures (Bit(a.collide, d) <==> a.cnt[d] >= 2) && (Bit(a.fired, d) <==> a.cnt[d] >= 1)
    {
      assert TracksDomain(c, F, c.n, a, d);
    }
  }

  lemma NothingTracked(c: Config, F: seq<bool>, a: Arbiter)
    requires |F| == |c.tiles| <= 0xFFFF
    requires a == Arbiter(seq(16, _ => 0), seq(16, _ => NO_WINNER), seq(16, _ => 0), seq(16, _ => 0), 0, 0)
    ensures Tracks(c, F, 0, a)
  {
    ZeroMask();
    forall d: nat | d < 16
      ensures TracksDomain(c, F, 0, a, d)
    {
      assert FiredSet(c, F, 0, d) == {};
    }
  }

  lemma ZeroMask()
    ensures forall d: nat :: !Bit(0, d)
  {
    forall d: nat { BitOfZero(d); }
  }

  lemma MergeBits(a: u16, b: u16)
    ensures forall k: nat :: Bit(Or16(a, b), k) <==> Bit(a, k) || Bit(b, k)
  {
    forall k: nat { BitOfOr(a, b, k); }
  }

  lemma SetBits(m: u16, d: nat)
    requires d < DOMAINS
    ensures forall k: nat :: Bit(Or16(m, Shift1(d)), k) <==> Bit(m, k) || k == d
  {
    forall k: nat { SetBit(m, d, k); }
  }

  /** The second interphase loop: saturate the counts and merge the winners' reset masks. */
  method CollectResets(c: Config, ghost F: seq<bool>, winner: seq<u16>, cnt: seq<nat>)
    returns (firedSat: seq<u8>, resetFrom: seq<u16>, autoReset: u16)
    requires c.Valid() && |F| == |c.tiles| && |winner| == |cnt| == 16
    requires forall d | 0 <= d < 16 :: winner[d] == WinnerOf(c, F, c.n, d) && (winner[d] == NO_WINNER || winner[d] < c.n)
    ensures |firedSat| == |resetFrom| == 16
    ensures forall d | 0 <= d < 16 ::
              && firedSat[d] == Min(255, cnt[d])
              && resetFrom[d] == if winner[d] < |c.tiles| then c.tiles[winner[d]].resetMask else 0
    ensures forall e | 0 <= e < 16 :: Bit(autoReset, e) <==> AutoReset(c, F, e)
  {
    firedSat, resetFrom, autoReset := seq(16, _ => 0), seq(16, _ => 0), 0;
    ZeroMask();
    var d := 0;
    while d < 16
      invariant 0 <= d <= 16 && |firedSat| == |resetFrom| == 16
      invariant forall k | 0 <= k < d ::
                  && firedSat[k] == Min(255, cnt[k])
                  && resetFrom[k] == if winner[k] < |c.tiles| then c.tiles[winner[k]].resetMask else 0
      invariant forall k | d <= k < 16 :: resetFrom[k] == 0
      invariant forall e: nat :: Bit(autoReset, e) <==> exists k :: 0 <= k < d && AsksReset(c, F, k, e)
    {
      firedSat := firedSat[d := if cnt[d] > 255 then 255 else cnt[d]];
      if winner[d] != NO_WINNER {
        var mask := c.tiles[winner[d]].resetMask;
        resetFrom := resetFrom[d := mask];
        MergeBits(autoReset, mask);
        assert forall e: nat :: AsksReset(c, F, d, e) <==> Bit(mask, e);
        autoReset := Or16(autoReset, mask);
      } else {
        assert forall e: nat :: !AsksReset(c, F, d, e);
      }
      d := d + 1;
    }
  }
}
