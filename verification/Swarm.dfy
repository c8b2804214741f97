/** The swarm object: baked tables, runtime arrays and the snapshot, with the operations that change them. */
module Swarm {
  import opened Machine
  import opened Grid
  import opened Activation
  import opened TileStep
  import opened Winner
  import opened Bus
  import opened Flash
  import opened Bytes
  import opened BakeFormat
  import opened BakeParser
  import opened BakeReader
  import opened Serializer
  import opened BakeSaver
  import opened WideViews

  datatype Status = Status(code: Code, extra: u32)

  datatype FlashResult = FlashResult(st: Status, readout: Lanes, flags: u32)

  /** How a call that flashes ends. The C code has no check against a row width of zero, and the model stops where
      it would divide by it. */
  datatype FlashEnd = Returns(res: FlashResult) | DividesByZero

  /** How baking ends. The C code has no check against the parser leaving its memory, and none against an accepted
      view for more tiles than the swarm's tables hold; the model stops there. `WideViews.BakeSafeExactly` has the
      blob sizes at which that cannot happen. */
  datatype BakeEnd = Ends(st: Status) | LeavesBlob | LeavesTables

  /** The snapshot fields a flash writes once, besides the per-tile v_state bytes. */
  datatype Snapshot = Snapshot(
    frameTag: u32, ingress: Lanes, bus16: Lanes, clipMask: u16, flags: u32, sel: Selection)

  const DARK: Selection := Selection([], [], [], [], [], 0, 0, 0)

  /** v_state: accumulator nibble, locked bit, fire bit. */
  function VState(t: Tile, bakeId: u32, thr: i16, locked: bool, fire: bool): u8 {
    var high: int := ThrNorm(thr, t.thrLo, t.thrHi);
    high * 16 + (if bakeId > 0 && locked then 8 else 0) + (if fire then 4 else 0)
  }

  /** The byte's fields can be read back. */
  lemma VStateFields(t: Tile, bakeId: u32, thr: i16, locked: bool, fire: bool)
    ensures var v := VState(t, bakeId, thr, locked, fire);
            && v / 16 == ThrNorm(thr, t.thrLo, t.thrHi)
            && (v / 8 % 2 == 1 <==> bakeId > 0 && locked)
            && (v / 4 % 2 == 1 <==> fire)
  {
    hide ThrNorm;
    PackedFields(ThrNorm(thr, t.thrLo, t.thrHi), bakeId > 0 && locked, fire);
  }

  lemma PackedFields(high: int, locked: bool, fire: bool)
    ensures var v := high * 16 + (if locked then 8 else 0) + (if fire then 4 else 0);
            v / 16 == high && (v / 8 % 2 == 1 <==> locked) && (v / 4 % 2 == 1 <==> fire)
  {
    var l, f := if locked then 1 else 0, if fire then 1 else 0;
    var v := high * 16 + l * 8 + f * 4;
    assert v / 16 == high;
    assert v / 8 == high * 2 + l;
    assert v / 4 == (high * 2 + l) * 2 + f;
    LowDigit(high, l);
    LowDigit(high * 2 + l, f);
  }

  lemma LowDigit(x: int, b: int)
    requires 0 <= b <= 1
    ensures (x * 2 + b) % 2 == b
  {
  }

  /** FLAGS32: ready, overflow, collision, and the collision mask in the upper half. */
  function Flags32(overflow: bool, collide: u16): u32 {
    1 + (if overflow then 2 else 0) + (if collide != 0 then 4 else 0) + collide * 0x1_0000
  }

  /** Bit 0 is always set, bit 1 tells of an overflow, bit 2 of a collision; bits 16 to 31 are the collision mask and the
      others are clear. */
  lemma FlagBits(overflow: bool, collide: u16)
    ensures var f := Flags32(overflow, collide);
            && f % 2 == 1 && (f / 2 % 2 == 1 <==> overflow) && (f / 4 % 2 == 1 <==> collide != 0)
            && f / 8 % 0x2000 == 0 && f / 0x1_0000 == collide
  {
  }

  /** The snapshot tells the truth about a flash from state s. */
  ghost predicate Reports(c: Config, s: State, tag: u32, ingress: Lanes, snap: Snapshot)
    requires Fits(c, s)
  {
    var mid := AfterRead(c, s, ingress);
    && snap.frameTag == tag && snap.ingress == ingress
    && snap.bus16 == FlashBus(c, s, ingress)
    && SelectionExact(c, FireOf(c, s, ingress), snap.sel)
    && (forall i | 0 <= i < 8 :: Bit(snap.clipMask, i) <==> BusSum(c, mid.locked, mid.row, c.n, i) > 15)
    && snap.flags == Flags32(snap.clipMask != 0, snap.sel.collide)
    && (snap.clipMask != 0 <==> AnyClip(c, mid.locked, mid.row))
  }

  class Swarm {
    // Baked tables; only baking replaces them.
    var bake: Baked
    var bakeApplied: bool
    var doubleStrait: bool

    // Runtime state, in place.
    const thrCur: array<i16>
    const locked: array<bool>

    // Flash buffers.
    const lockedBefore: array<bool>
    const active: array<bool>
    const fire: array<bool>
    const rowOut: array<Lanes>

    // Snapshot.
    const vState: array<u8>
    var snapshot: Snapshot
    var flashInProgress: bool

    ghost predicate Valid()
      reads this
    {
      && thrCur.Length == locked.Length == lockedBefore.Length == active.Length == fire.Length == TILE_COUNT
      && rowOut.Length == vState.Length == TILE_COUNT
      && locked != lockedBefore && locked != active && locked != fire
      && lockedBefore != active && lockedBefore != fire && active != fire
      && BakedOk(bake)
      && (forall t | 0 <= t < TILE_COUNT :: bake.tiles[t].domain < 32)
    }

    ghost function Cfg(): Config
      reads this
    {
      Config(bake.tiles, bake.count, bake.w, bake.bakeId)
    }

    ghost function Runtime(): State
      reads this, thrCur, locked, rowOut
    {
      State(thrCur[..], locked[..], rowOut[..])
    }

    constructor ()
      ensures Valid() && 0 < bake.w && !bakeApplied && !doubleStrait && !flashInProgress
      ensures Runtime() == Fresh(TILE_COUNT)
      ensures fresh(thrCur) && fresh(locked) && fresh(lockedBefore) && fresh(active) && fresh(fire) && fresh(rowOut) && fresh(vState)
    {
      bake := Baked(seq(TILE_COUNT, _ => ZeroTile()), TILE_COUNT, EXPECTED_W, EXPECTED_H,
        Topology(TILE_COUNT, EXPECTED_W, EXPECTED_H, 8, 16, 0, 0), NO_READOUT, 0, 0, 0);
      bakeApplied, doubleStrait, flashInProgress := false, false, false;
      thrCur := new i16[TILE_COUNT](_ => 0);
      locked := new bool[TILE_COUNT](_ => false);
      lockedBefore := new bool[TILE_COUNT](_ => false);
      active := new bool[TILE_COUNT](_ => false);
      fire := new bool[TILE_COUNT](_ => false);
      rowOut := new Lanes[TILE_COUNT](_ => ZERO_LANES);
      vState := new u8[TILE_COUNT](_ => 0);
      snapshot := Snapshot(0, ZERO_LANES, ZERO_LANES, 0, 0, DARK);
    }

    // ---------- The phases of a flash ----------

    /** locked_before := locked, and fire := 0. */
    method TakeSnapshot()
      requires Valid()
      modifies lockedBefore, fire
      ensures lockedBefore[..bake.count] == locked[..bake.count]
      ensures forall t | 0 <= t < TILE_COUNT :: !fire[t]
    {
      var t := 0;
      while t < TILE_COUNT
        invariant 0 <= t <= TILE_COUNT
        invariant forall i | 0 <= i < t :: !fire[i]
      {
        fire[t] := false;
        t := t + 1;
      }
      t := 0;
      while t < bake.count
        invariant 0 <= t <= bake.count
        invariant forall i | 0 <= i < t :: lockedBefore[i] == locked[i]
        invariant forall i | 0 <= i < TILE_COUNT :: !fire[i]
      {
        lockedBefore[t] := locked[t];
        t := t + 1;
      }
    }

    /** One turn of the tile loop. */
    method ProcessAt(t: nat, ingress: Lanes, ghost c: Config, ghost s: State)
      requires Valid() && c == Cfg() && Fits(c, s) && t < bake.count
      requires active[t] == IsActive(c, s, t) && lockedBefore[t] == s.locked[t] && !fire[t]
      requires thrCur[t] == s.thr[t] && locked[t] == s.locked[t] && rowOut[t] == s.row[t]
      modifies thrCur, locked, fire, rowOut
      ensures Processed(c, s, ingress, t)
      ensures forall i | 0 <= i < TILE_COUNT && i != t ::
                thrCur[i] == old(thrCur[i]) && locked[i] == old(locked[i]) && fire[i] == old(fire[i]) && rowOut[i] == old(rowOut[i])
    {
      hide StepTile, RowOuts;
      var thr, lock, fired, driven, row :=
        ProcessTile(bake.tiles[t], bake.bakeId, active[t], lockedBefore[t], thrCur[t], ingress);
      thrCur[t] := thr;
      locked[t] := lock;
      fire[t] := fired;
      if driven {
        rowOut[t] := row;
      }
    }

    /** The tile loop of the read phase, after activation. */
    method ProcessTiles(ingress: Lanes, ghost s: State)
      requires Valid() && s == Runtime()
      requires lockedBefore[..bake.count] == locked[..bake.count]
      requires forall t: nat | t < bake.count :: active[t] <==> IsActive(Cfg(), s, t)
      requires forall t | 0 <= t < TILE_COUNT :: !fire[t]
      modifies thrCur, locked, fire, rowOut
      ensures Runtime() == AfterRead(Cfg(), s, ingress)
      ensures fire[..] == FireOf(Cfg(), s, ingress)
    {
      hide OutAt, RowOuts, IsActive;
      ghost var c := Cfg();
      assert forall i | 0 <= i < bake.count :: lockedBefore[i] == lockedBefore[..bake.count][i] == s.locked[i];
      var t := 0;
      while t < bake.count
        invariant 0 <= t <= bake.count
        invariant forall i | 0 <= i < t :: Processed(c, s, ingress, i)
        invariant forall i | t <= i < TILE_COUNT ::
                    thrCur[i] == s.thr[i] && locked[i] == s.locked[i] && rowOut[i] == s.row[i] && !fire[i]
      {
        label before:
        ProcessAt(t, ingress, c, s);
        forall i | 0 <= i < t
          ensures Processed(c, s, ingress, i)
        {
          assert old@before(Processed(c, s, ingress, i));
        }
        t := t + 1;
      }
      AllProcessed(c, s, ingress);
    }

    lemma AllProcessed(c: Config, s: State, ingress: Lanes)
      requires Valid() && c == Cfg() && Fits(c, s)
      requires forall i | 0 <= i < c.n :: Processed(c, s, ingress, i)
      requires forall i | c.n <= i < TILE_COUNT ::
                 thrCur[i] == s.thr[i] && locked[i] == s.locked[i] && rowOut[i] == s.row[i] && !fire[i]
      ensures Runtime() == AfterRead(c, s, ingress)
      ensures fire[..] == FireOf(c, s, ingress)
    {
      hide OutAt, RowOuts;
      var r, f := AfterRead(c, s, ingress), FireOf(c, s, ingress);
      forall i | 0 <= i < TILE_COUNT
        ensures thrCur[i] == r.thr[i] && locked[i] == r.locked[i] && rowOut[i] == r.row[i] && fire[i] == f[i]
      {
        if i < bake.count {
          assert Processed(c, s, ingress, i);
        }
      }
      assert thrCur[..] == r.thr && locked[..] == r.locked && rowOut[..] == r.row && fire[..] == f;
    }

    /** Tile i carries its values after the read phase. */
    ghost predicate Processed(c: Config, s: State, ingress: Lanes, i: nat)
      requires Fits(c, s) && i < c.n && c.n <= TILE_COUNT && |c.tiles| == TILE_COUNT
      requires thrCur.Length == locked.Length == fire.Length == rowOut.Length == TILE_COUNT
      reads thrCur, locked, fire, rowOut
    {
      var o := OutAt(c, s, ingress, i);
      && thrCur[i] == o.thr && locked[i] == o.locked && fire[i] == o.fire
      && rowOut[i] == if o.driven then RowOuts(c.tiles[i], ingress) else s.row[i]
    }

    /** Auto-reset: zero every tile in a domain some winner asked for, except the winners themselves. */
    method AutoResetDomains(sel: Selection, ghost s: State, ghost fired: seq<bool>)
      requires Valid() && s == Runtime() && |fired| == TILE_COUNT
      requires SelectionExact(Cfg(), fired, sel)
      modifies thrCur, locked
      ensures Runtime() == AfterAutoReset(Cfg(), s, fired)
    {
      hide Wiped, SelectionExact, IsWinner;
      ghost var c := Cfg();
      if sel.autoReset != 0 {
        var t := 0;
        while t < bake.count
          invariant 0 <= t <= bake.count
          invariant forall i | 0 <= i < t ::
                      thrCur[i] == (if Wiped(c, fired, i) then 0 else s.thr[i]) && locked[i] == (s.locked[i] && !Wiped(c, fired, i))
          invariant forall i | t <= i < TILE_COUNT :: thrCur[i] == s.thr[i] && locked[i] == s.locked[i]
        {
          var isWinner := Won(c, fired, sel, t);
          WipedByMask(c, fired, sel, t);
          if Hits(sel.autoReset, bake.tiles[t].domain) && !isWinner {
            thrCur[t] := 0;
            locked[t] := false;
          }
          t := t + 1;
        }
        OnlyActiveWiped(c, fired);
      } else {
        EmptyMaskWipesNothing(c, fired, sel);
      }
      assert thrCur[..] == AfterAutoReset(c, s, fired).thr;
      assert locked[..] == AfterAutoReset(c, s, fired).locked;
    }

    /** The v_state bytes of all active tiles. */
    method UpdateVState()
      requires Valid()
      modifies vState
      ensures forall t | 0 <= t < bake.count ::
                vState[t] == VState(bake.tiles[t], bake.bakeId, thrCur[t], locked[t], fire[t])
      ensures forall t | bake.count <= t < TILE_COUNT :: vState[t] == old(vState[t])
    {
      var t := 0;
      while t < bake.count
        invariant 0 <= t <= bake.count
        invariant forall i | 0 <= i < t ::
                    vState[i] == VState(bake.tiles[i], bake.bakeId, thrCur[i], locked[i], fire[i])
        invariant forall i | bake.count <= i < TILE_COUNT :: vState[i] == old(vState[i])
      {
        vState[t] := VState(bake.tiles[t], bake.bakeId, thrCur[t], locked[t], fire[t]);
        t := t + 1;
      }
    }

    /** The body of flash_impl between its guards and its return. */
    method FlashPhases(tag: u32, ingress: Lanes) returns (divides: bool)
      requires Valid()
      modifies this`snapshot, thrCur, locked, lockedBefore, active, fire, rowOut, vState
      ensures Valid()
      ensures divides <==> FlashDivides(Cfg(), old(Runtime()), ingress)
      ensures !divides ==> Runtime() == FlashState(Cfg(), old(Runtime()), ingress)
      ensures !divides ==> fire[..] == FireOf(Cfg(), old(Runtime()), ingress)
      ensures !divides ==> Reports(Cfg(), old(Runtime()), tag, ingress, snapshot)
      ensures !divides ==> forall t | 0 <= t < bake.count ::
                vState[t] == VState(bake.tiles[t], bake.bakeId, thrCur[t], locked[t], fire[t])
    {
      hide OutAt, BusSum, WinnerOf, FiredSet, VState, AfterRead, FireOf, AfterAutoReset, BusLane, AnyClip, Flags32, SelectionExact;
      ghost var c, s := Cfg(), Runtime();
      var cfg := Config(bake.tiles, bake.count, bake.w, bake.bakeId);

      // READ
      TakeSnapshot();
      divides := ComputeActive(cfg, lockedBefore, active);
      ActiveFromBefore(c, s, lockedBefore[..]);
      if divides {
        return;
      }
      ProcessTiles(ingress, s);

      ghost var mid, fired := Runtime(), fire[..];

      // INTERPHASE
      var sel := SelectWinners(cfg, fire);

      // WRITE
      var bus, clip;
      bus, clip, divides := AccumulateBus(cfg, locked, rowOut);
      if divides {
        return;
      }
      assert bus == FlashBus(c, s, ingress);

      AutoResetDomains(sel, mid, fired);
      UpdateVState();
      snapshot := Snapshot(tag, ingress, bus, clip, Flags32(clip != 0, sel.collide), sel);
    }

    /** flash_impl: one READ-WRITE cycle. */
    method FlashImpl(tag: u32, ingress: Lanes) returns (end: FlashEnd)
      requires Valid()
      modifies this`snapshot, this`flashInProgress, thrCur, locked, lockedBefore, active, fire, rowOut, vState
      ensures Valid()
      ensures end.DividesByZero? <==>
                bakeApplied && !old(flashInProgress) && FlashDivides(Cfg(), old(Runtime()), ingress)
      ensures !end.DividesByZero? ==> flashInProgress == old(flashInProgress)
      ensures !bakeApplied ==> end.res == FlashResult(Status(NOT_BAKED, 0), ZERO_LANES, 0)
      ensures bakeApplied && old(flashInProgress) ==> end.res == FlashResult(Status(BAD_PHASE, 0), ZERO_LANES, 0)
      ensures !bakeApplied || old(flashInProgress) ==>
                unchanged(thrCur, locked, lockedBefore, active, fire, rowOut, vState) && snapshot == old(snapshot)
      ensures bakeApplied && !old(flashInProgress) && end.Returns? ==> Flashed(old(Runtime()), tag, ingress, end.res)
    {
      if !bakeApplied {
        return Returns(FlashResult(Status(NOT_BAKED, 0), ZERO_LANES, 0));
      }
      if flashInProgress {
        return Returns(FlashResult(Status(BAD_PHASE, 0), ZERO_LANES, 0));
      }
      flashInProgress := true;
      var divides := FlashPhases(tag, ingress);
      if divides {
        return DividesByZero;
      }
      var readout := if bake.readout.mode == 0 then snapshot.bus16 else ZERO_LANES;
      flashInProgress := false;
      end := Returns(FlashResult(Status(OK, 0), readout, snapshot.flags));
    }

    /** The swarm and the result are what a flash from state s leaves. */
    ghost predicate Flashed(s: State, tag: u32, ingress: Lanes, res: FlashResult)
      requires Valid() && Fits(Cfg(), s)
      reads this, thrCur, locked, fire, rowOut, vState
    {
      && Runtime() == FlashState(Cfg(), s, ingress)
      && fire[..] == FireOf(Cfg(), s, ingress)
      && Reports(Cfg(), s, tag, ingress, snapshot)
      && (forall t | 0 <= t < bake.count ::
            vState[t] == VState(bake.tiles[t], bake.bakeId, thrCur[t], locked[t], fire[t]))
      && res == FlashResult(Status(OK, 0), if bake.readout.mode == 0 then snapshot.bus16 else ZERO_LANES, snapshot.flags)
    }

    /** Every lane is a Level16. */
    predicate LegalIngress(raw: seq<u8>) {
      forall i | 0 <= i < |raw| :: raw[i] <= 15
    }

    /** ev_flash: the ingress check, and the double flash of a double-strait swarm, whose first result is
        dropped. A refused call changes nothing. */
    method EvFlash(tag: u32, raw: seq<u8>) returns (end: FlashEnd)
      requires Valid() && |raw| == 8
      modifies this`snapshot, this`flashInProgress, thrCur, locked, lockedBefore, active, fire, rowOut, vState
      ensures Valid()
      ensures !end.DividesByZero? ==> flashInProgress == old(flashInProgress)
      ensures end.Returns? ==> (!bakeApplied <==> end.res.st.code == NOT_BAKED)
      ensures end.Returns? ==> (bakeApplied && !LegalIngress(raw) <==> end.res.st.code == BAD_INGRESS_LEVEL)
      ensures end.Returns? ==> (bakeApplied && LegalIngress(raw) && old(flashInProgress) <==> end.res.st.code == BAD_PHASE)
      ensures end.Returns? ==> (bakeApplied && LegalIngress(raw) && !old(flashInProgress) <==> end.res.st.code == OK)
      ensures end.DividesByZero? <==>
                && bakeApplied && LegalIngress(raw) && !old(flashInProgress)
                && (|| FlashDivides(Cfg(), old(Runtime()), raw)
                    || (doubleStrait && FlashDivides(Cfg(), FlashState(Cfg(), old(Runtime()), raw), raw)))
      ensures end.Returns? && end.res.st.code != OK ==>
                unchanged(thrCur, locked, lockedBefore, active, fire, rowOut, vState) && snapshot == old(snapshot)
      ensures end.Returns? && end.res.st.code == BAD_INGRESS_LEVEL ==>
                exists i :: 0 <= i < 8 && end.res.st.extra == raw[i] > 15 && forall k | 0 <= k < i :: raw[k] <= 15
      ensures end.Returns? && end.res.st.code in {NOT_BAKED, BAD_PHASE, OK} ==> end.res.st.extra == 0
      ensures end.Returns? && end.res.st.code != OK ==> end.res.readout == ZERO_LANES && end.res.flags == 0
      ensures end.Returns? && end.res.st.code == OK && !doubleStrait ==> Flashed(old(Runtime()), tag, raw, end.res)
      ensures end.Returns? && end.res.st.code == OK && doubleStrait ==>
                Flashed(FlashState(Cfg(), old(Runtime()), raw), tag, raw, end.res)
    {
      hide FlashState, FireOf, Reports, FlashDivides;
      if !bakeApplied {
        return Returns(FlashResult(Status(NOT_BAKED, 0), ZERO_LANES, 0));
      }
      var i := 0;
      while i < 8
        invariant 0 <= i <= 8 && forall k | 0 <= k < i :: raw[k] <= 15
      {
        if raw[i] > 15 {
          return Returns(FlashResult(Status(BAD_INGRESS_LEVEL, raw[i]), ZERO_LANES, 0));
        }
        i := i + 1;
      }
      var ingress: Lanes := raw;
      if doubleStrait {
        end := FlashImpl(tag, ingress);
        if end.DividesByZero? {
          return;
        }
      }
      end := FlashImpl(tag, ingress);
    }

    /** ev_reset_domain. */
    method EvResetDomain(mask: u16) returns (st: Status)
      requires Valid()
      modifies thrCur, locked, vState
      ensures Valid()
      ensures !bakeApplied ==> st == Status(NOT_BAKED, 0)
      ensures bakeApplied && flashInProgress ==> st == Status(BAD_PHASE, 0)
      ensures bakeApplied && !flashInProgress ==> st == Status(OK, 0)
      ensures st.code != OK ==> unchanged(thrCur, locked, vState)
      ensures st.code == OK ==> Runtime() == ResetState(Cfg(), old(Runtime()), mask)
      ensures st.code == OK ==> forall t | 0 <= t < TILE_COUNT ::
                vState[t] == if t < bake.count && Hits(mask, bake.tiles[t].domain) then 0 else old(vState[t])
    {
      if !bakeApplied {
        return Status(NOT_BAKED, 0);
      }
      if flashInProgress {
        return Status(BAD_PHASE, 0);
      }
      ghost var s := Runtime();
      var t := 0;
      while t < bake.count
        invariant 0 <= t <= bake.count
        invariant forall i | 0 <= i < TILE_COUNT ::
                    var hit := i < t && Hits(mask, bake.tiles[i].domain);
                    && thrCur[i] == (if hit then 0 else s.thr[i]) && locked[i] == (s.locked[i] && !hit)
                    && vState[i] == if hit then 0 else old(vState[i])
      {
        if Hits(mask, bake.tiles[t].domain) {
          thrCur[t] := 0;
          locked[t] := false;
          vState[t] := 0;
        }
        t := t + 1;
      }
      assert thrCur[..] == ResetState(Cfg(), s, mask).thr;
      assert locked[..] == ResetState(Cfg(), s, mask).locked;
      st := Status(OK, 0);
    }

    /** ev_bake: parse, then replace the baked tables. The runtime state and the double-strait flag are kept
        as they are, and a blob that is not accepted changes nothing. */
    method EvBake(blob: Blob) returns (end: BakeEnd)
      requires Valid() && |blob| < 0x1_0000_0000
      modifies this`bake, this`bakeApplied
      ensures Valid()
      ensures blob == [] ==> end == Ends(Status(BAKE_NO_BLOB, 0))
      ensures blob != [] && Parse(blob).Rejected? ==> end == Ends(Status(Parse(blob).code, Parse(blob).extra))
      ensures end.LeavesBlob? <==> blob != [] && Parse(blob) == PastBlob
      ensures end.LeavesTables? <==> blob != [] && (Parse(blob) == PastArrays || TooManyTiles(blob))
      ensures !(blob != [] && AcceptedFits(blob)) ==> bake == old(bake) && bakeApplied == old(bakeApplied)
      ensures blob != [] && AcceptedFits(blob) ==>
                end == Ends(Status(OK, 0)) && bakeApplied && Sane(Parse(blob).view)
                && bake == Apply(old(bake), Parse(blob).view)
    {
      hide Parse;
      if blob == [] {
        return Ends(Status(BAKE_NO_BLOB, 0));
      }
      var o := ParseView(blob);
      match o {
        case Rejected(code, extra) => return Ends(Status(code, extra));
        case PastBlob => return LeavesBlob;
        case PastArrays => return LeavesTables;
        case Accepted(view) =>
      }
      AcceptedIsSane(blob);
      if o.view.tileCount > TILE_COUNT {
        return LeavesTables;
      }
      bake := Apply(bake, o.view);
      bakeApplied := true;
      end := Ends(Status(OK, 0));
    }
  }

  /** The blob is accepted, and its tile count fits the swarm's tables. The parser does not check the last
      topology record's count against them. */
  ghost predicate AcceptedFits(blob: Blob)
    requires |blob| < 0x1_0000_0000
  {
    Parse(blob).Accepted? && Parse(blob).view.tileCount <= TILE_COUNT
  }

  /** The winner test of the auto-reset loop. */
  method Won(ghost c: Config, ghost fired: seq<bool>, sel: Selection, t: nat) returns (r: bool)
    requires c.Valid() && |fired| == |c.tiles| && SelectionExact(c, fired, sel) && t < NO_WINNER
    ensures r == IsWinner(c, fired, t)
  {
    r := false;
    var wd := 0;
    while wd < 16
      invariant 0 <= wd <= 16
      invariant r <==> exists d :: 0 <= d < wd && sel.winner[d] == t
    {
      if sel.winner[wd] == t {
        r := true;
      }
      wd := wd + 1;
    }
    if r {
      var d :| 0 <= d < 16 && sel.winner[d] == t;
      assert t == WinnerOf(c, fired, c.n, d);
    }
  }

  lemma WipedByMask(c: Config, fired: seq<bool>, sel: Selection, t: nat)
    requires c.Valid() && |fired| == |c.tiles| && SelectionExact(c, fired, sel) && t < c.n
    ensures Wiped(c, fired, t) <==> Hits(sel.autoReset, c.tiles[t].domain) && !IsWinner(c, fired, t)
  {
  }

  lemma OnlyActiveWiped(c: Config, fired: seq<bool>)
    requires c.Valid() && |fired| == |c.tiles|
    ensures forall t: nat | t >= c.n :: !Wiped(c, fired, t)
  {
  }

  lemma EmptyMaskWipesNothing(c: Config, fired: seq<bool>, sel: Selection)
    requires c.Valid() && |fired| == |c.tiles| && SelectionExact(c, fired, sel) && sel.autoReset == 0
    ensures forall t: nat :: !Wiped(c, fired, t)
  {
    forall e: nat { BitOfZero(e); }
  }

  /** Activation only looks at the locks of active tiles. */
  lemma ActiveFromBefore(c: Config, s: State, before: seq<bool>)
    requires Fits(c, s) && |before| == |c.tiles| && before[..c.n] == s.locked[..c.n]
    ensures ActiveSet(c, before) == ActiveSet(c, s.locked)
  {
    assert forall t | 0 <= t < c.n :: before[t] == before[..c.n][t] && s.locked[t] == s.locked[..c.n][t];
    ActiveMonotone(c, before, s.locked);
    ActiveMonotone(c, s.locked, before);
  }
}
