/** The tape inspector: decode frames, flash each one, and cut the tape where patterns fire. */
module Tape {
  import opened Machine
  import opened Grid
  import opened Flash
  import opened Runs
  import opened Bytes
  import opened Swarm

  datatype Segment = Segment(start: nat, end: nat, resolved: bool)

  // ---------- Frames ----------

  function FrameBytes(packed4: bool): nat { if packed4 then 4 else 8 }

  ghost predicate HasFrame(tape: Blob, frame: nat, packed4: bool) {
    if packed4 then 4 * frame + 4 <= |tape| else 8 * frame + 8 <= |tape|
  }

  /** The eight lane values of a frame: nibbles, low one first, or whole bytes. */
  function FrameLane(tape: Blob, frame: nat, packed4: bool, i: nat): u8
    requires HasFrame(tape, frame, packed4) && i < 8
  {
    if packed4 then
      var b := tape[4 * frame + i / 2];
      if i % 2 == 0 then b % 16 else b / 16
    else tape[8 * frame + i]
  }

  ghost predicate LegalFrame(tape: Blob, frame: nat, packed4: bool)
    requires HasFrame(tape, frame, packed4)
  {
    forall i: nat | i < 8 :: FrameLane(tape, frame, packed4, i) <= 15
  }

  ghost function FrameOf(tape: Blob, frame: nat, packed4: bool): Lanes
    requires HasFrame(tape, frame, packed4) && LegalFrame(tape, frame, packed4)
  {
    seq(8, i requires 0 <= i < 8 => FrameLane(tape, frame, packed4, i))
  }

  /** Packed frames have two lanes to a byte, the even one in the low nibble; raw frames one lane to a byte. */
  lemma LanesInBytes(tape: Blob, frame: nat)
    ensures HasFrame(tape, frame, true) <==> 4 * frame + 4 <= |tape|
    ensures HasFrame(tape, frame, false) <==> 8 * frame + 8 <= |tape|
    ensures HasFrame(tape, frame, true) ==> forall i: nat | i < 4 ::
              && FrameLane(tape, frame, true, 2 * i) == tape[4 * frame + i] % 16
              && FrameLane(tape, frame, true, 2 * i + 1) == tape[4 * frame + i] / 16
    ensures HasFrame(tape, frame, false) ==> forall i: nat | i < 8 :: FrameLane(tape, frame, false, i) == tape[8 * frame + i]
  {
  }

  /** decode_tape_frame: a raw frame with a byte above 15 is refused; packed frames never are. */
  method DecodeFrame(tape: Blob, frame: nat, packed4: bool) returns (ok: bool, lanes: Lanes)
    requires HasFrame(tape, frame, packed4)
    ensures ok == LegalFrame(tape, frame, packed4) && (packed4 ==> ok)
    ensures ok ==> lanes == FrameOf(tape, frame, packed4)
  {
    lanes := ZERO_LANES;
    if packed4 {
      var p := tape[4 * frame..4 * frame + 4];
      lanes := [p[0] % 16, p[0] / 16, p[1] % 16, p[1] / 16, p[2] % 16, p[2] / 16, p[3] % 16, p[3] / 16];
      return true, lanes;
    }
    var i := 0;
    while i < 8
      invariant 0 <= i <= 8
      invariant forall k: nat | k < i :: FrameLane(tape, frame, false, k) <= 15 && lanes[k] == FrameLane(tape, frame, false, k)
    {
      var b := tape[8 * frame + i];
      if b > 15 {
        assert FrameLane(tape, frame, false, i) > 15;
        return false, lanes;
      }
      lanes := lanes[i := b];
      i := i + 1;
    }
    ok := true;
  }

  // ---------- What a tape does to a swarm ----------

  /** Some fired tile has a pattern to report. */
  ghost predicate PatternFired(c: Config, fire: seq<bool>)
    requires c.n <= |fire| && c.n <= |c.tiles|
  {
    exists t: nat :: t < c.n && fire[t] && c.tiles[t].pattern != 0
  }

  /** The state from which the reported flash of a frame starts. */
  ghost function FlashStart(c: Config, twice: bool, s: State, inp: Lanes): (r: State)
    requires Fits(c, s)
    ensures Fits(c, r)
  {
    if twice then FlashState(c, s, inp) else s
  }

  ghost predicate FrameFires(c: Config, twice: bool, s: State, inp: Lanes)
    requires Fits(c, s)
  {
    PatternFired(c, FireOf(c, FlashStart(c, twice, s, inp), inp))
  }

  /** A frame is reported to fire when some active tile with a pattern fires in its flash, which for a double-strait swarm
      is the second of two. */
  lemma FrameFiresMeans(c: Config, s: State, inp: Lanes)
    requires Fits(c, s)
    ensures FrameFires(c, false, s, inp)
            <==> exists t: nat :: t < c.n && FireOf(c, s, inp)[t] && c.tiles[t].pattern != 0
    ensures FrameFires(c, true, s, inp)
            <==> exists t: nat :: t < c.n && FireOf(c, FlashState(c, s, inp), inp)[t] && c.tiles[t].pattern != 0
  {
  }

  /** What a frame leaves: the state after its one or two flashes, with every domain reset if it fired and the caller
      wants that. */
  lemma AfterFrameMeans(c: Config, reset: bool, s: State, inp: Lanes)
    requires Fits(c, s)
    ensures var q := FlashState(c, s, inp);
            AfterFrame(c, false, reset, s, inp) ==
            if reset && FrameFires(c, false, s, inp) then ResetState(c, q, 0xFFFF) else q
    ensures var q := FlashState(c, FlashState(c, s, inp), inp);
            AfterFrame(c, true, reset, s, inp) ==
            if reset && FrameFires(c, true, s, inp) then ResetState(c, q, 0xFFFF) else q
  {
  }

  /** One frame: flash, and reset every domain after a fired pattern if asked to. */
  ghost function AfterFrame(c: Config, twice: bool, reset: bool, s: State, inp: Lanes): (r: State)
    requires Fits(c, s)
    ensures Fits(c, r)
  {
    var q := FlashState(c, FlashStart(c, twice, s, inp), inp);
    if reset && FrameFires(c, twice, s, inp) then ResetState(c, q, 0xFFFF) else q
  }

  ghost function AfterFrames(c: Config, twice: bool, reset: bool, s: State, frames: seq<Lanes>): (r: State)
    requires Fits(c, s)
    ensures Fits(c, r)
  {
    if frames == [] then s
    else AfterFrame(c, twice, reset, AfterFrames(c, twice, reset, s, frames[..|frames| - 1]), frames[|frames| - 1])
  }

  /** Frame k of the tape fires a pattern. */
  ghost predicate FiresAt(c: Config, twice: bool, reset: bool, s: State, frames: seq<Lanes>, k: nat)
    requires Fits(c, s) && k < |frames|
  {
    FrameFires(c, twice, AfterFrames(c, twice, reset, s, frames[..k]), frames[k])
  }

  // ---------- Segments ----------

  /** Segments i covers frames start..end, has its only fired frame at its end if it is resolved, and no
      fired frame if it is not. */
  ghost predicate Covers(g: Segment, fired: seq<bool>) {
    && g.start <= g.end < |fired|
    && fired[g.end] == g.resolved
    && forall k | g.start <= k < g.end :: !fired[k]
  }

  /** Segment i begins right after the one before it. */
  ghost predicate Follows(segs: seq<Segment>, i: nat)
    requires i < |segs|
  {
    segs[i].start == if i == 0 then 0 else segs[i - 1].end + 1
  }

  /** The segments are contiguous from frame 0 on, and each is resolved. */
  ghost predicate Chained(segs: seq<Segment>, fired: seq<bool>, next: nat) {
    && |segs| <= next <= |fired|
    && (forall i | 0 <= i < |segs| :: Covers(segs[i], fired))
    && (forall i | 0 <= i < |segs| :: Follows(segs, i))
    && next == if segs == [] then 0 else segs[|segs| - 1].end + 1
  }

  /** The segments partition a nonempty tape; only the last one may be unresolved. */
  ghost predicate Partition(segs: seq<Segment>, fired: seq<bool>) {
    && segs != []
    && Chained(segs, fired, |fired|)
    && forall i | 0 <= i < |segs| - 1 :: segs[i].resolved
  }

  /** In a partition every frame lies in exactly one segment. */
  lemma EveryFrameOnce(segs: seq<Segment>, fired: seq<bool>, k: nat)
    requires Partition(segs, fired) && k < |fired|
    ensures exists i :: 0 <= i < |segs| && segs[i].start <= k <= segs[i].end
    ensures forall i, j | 0 <= i < |segs| && 0 <= j < |segs| && segs[i].start <= k <= segs[i].end
              && segs[j].start <= k <= segs[j].end :: i == j
  {
    var i := FindSegment(segs, fired, k, |segs|);
    forall a, b | 0 <= a < b < |segs| && segs[a].start <= k <= segs[a].end && segs[b].start <= k <= segs[b].end
      ensures false
    {
      SegmentsOrdered(segs, fired, a, b);
    }
  }

  lemma {:induction false} FindSegment(segs: seq<Segment>, fired: seq<bool>, k: nat, m: nat) returns (i: nat)
    requires Chained(segs, fired, |fired|) && 0 < m <= |segs| && k <= segs[m - 1].end
    ensures i < m && segs[i].start <= k <= segs[i].end
    decreases m
  {
    if k >= segs[m - 1].start {
      i := m - 1;
    } else {
      assert Follows(segs, m - 1);
      i := FindSegment(segs, fired, k, m - 1);
    }
  }

  lemma {:induction false} SegmentsOrdered(segs: seq<Segment>, fired: seq<bool>, a: nat, b: nat)
    requires Chained(segs, fired, |fired|) && a < b < |segs|
    ensures segs[a].end < segs[b].start
    decreases b
  {
    assert Follows(segs, b);
    if a < b - 1 {
      assert Covers(segs[b - 1], fired);
      SegmentsOrdered(segs, fired, a, b - 1);
    }
  }

  /** The label collector: is there a fired tile with a pattern, read off the v_state bytes. */
  method AnyPattern(s: Swarm) returns (r: bool)
    requires s.Valid()
    requires forall t | 0 <= t < s.bake.count ::
               s.vState[t] == VState(s.bake.tiles[t], s.bake.bakeId, s.thrCur[t], s.locked[t], s.fire[t])
    ensures r == PatternFired(s.Cfg(), s.fire[..])
  {
    r := false;
    var t := 0;
    while t < s.bake.count
      invariant 0 <= t <= s.bake.count
      invariant r == exists i: nat :: i < t && s.fire[..][i] && s.bake.tiles[i].pattern != 0
    {
      VStateFields(s.bake.tiles[t], s.bake.bakeId, s.thrCur[t], s.locked[t], s.fire[t]);
      if s.vState[t] / 4 % 2 == 1 && s.bake.tiles[t].pattern != 0 {
        assert s.fire[..][t];
        r := true;
      }
      t := t + 1;
    }
  }

  /** What an inspection may change: the swarm it steps. */
  ghost function Footprint(s: Swarm?): set<object> {
    if s == null then {} else {s, s.thrCur, s.locked, s.lockedBefore, s.active, s.fire, s.rowOut, s.vState}
  }

  lemma FrameInTape(tape: Blob, packed4: bool, frame: nat, count: nat)
    requires frame < count && count * FrameBytes(packed4) <= |tape|
    ensures HasFrame(tape, frame, packed4)
  {
  }

  /** The segmenter's registers midway: resolved segments up to start, and nothing fired since. */
  ghost predicate Cutting(segs: seq<Segment>, fired: seq<bool>, start: nat) {
    && Chained(segs, fired, start)
    && (forall i | 0 <= i < |segs| :: segs[i].resolved)
    && forall k | start <= k < |fired| :: !fired[k]
  }

  lemma CutStep(segs: seq<Segment>, fired: seq<bool>, start: nat, hit: bool)
    requires Cutting(segs, fired, start)
    ensures hit ==> Cutting(segs + [Segment(start, |fired|, true)], fired + [hit], |fired| + 1)
    ensures !hit ==> Cutting(segs, fired + [hit], start)
  {
    forall i | 0 <= i < |segs|
      ensures Covers(segs[i], fired + [hit])
    {
      assert Covers(segs[i], fired);
    }
    var more := segs + [Segment(start, |fired|, true)];
    forall i | 0 <= i < |segs|
      ensures Follows(more, i)
    {
      assert Follows(segs, i);
    }
  }

  lemma CutEnd(segs: seq<Segment>, fired: seq<bool>, start: nat)
    requires Cutting(segs, fired, start) && fired != []
    ensures start < |fired| ==> Partition(segs + [Segment(start, |fired| - 1, false)], fired)
    ensures start >= |fired| ==> segs != [] && Partition(segs, fired)
    ensures |segs| <= start <= |fired|
  {
    var more := segs + [Segment(start, |fired| - 1, false)];
    forall i | 0 <= i < |segs|
      ensures Follows(more, i)
    {
      assert Follows(segs, i);
    }
  }

  ghost predicate FramesRead(tape: Blob, packed4: bool, frames: seq<Lanes>) {
    forall f: nat | f < |frames| ::
      HasFrame(tape, f, packed4) && LegalFrame(tape, f, packed4) && frames[f] == FrameOf(tape, f, packed4)
  }

  /** The run so far: the state reached and the flags seen. */
  ghost predicate RunMatches(c: Config, twice: bool, reset: bool, s: State, now: State, frames: seq<Lanes>, fired: seq<bool>)
    requires Fits(c, s)
  {
    && |fired| == |frames|
    && now == AfterFrames(c, twice, reset, s, frames)
    && forall f: nat | f < |frames| :: fired[f] == FiresAt(c, twice, reset, s, frames, f)
  }

  lemma RunStep(c: Config, twice: bool, reset: bool, s: State, now: State, next: State, frames: seq<Lanes>, fired: seq<bool>, inp: Lanes, hit: bool)
    requires Fits(c, s) && RunMatches(c, twice, reset, s, now, frames, fired)
    requires next == AfterFrame(c, twice, reset, now, inp) && hit == FrameFires(c, twice, now, inp)
    ensures RunMatches(c, twice, reset, s, next, frames + [inp], fired + [hit])
  {
    hide FiresAt, AfterFrame, FrameFires, AfterFrames;
    FlagsGrow(c, twice, reset, s, frames, inp);
  }

  lemma FlagsGrow(c: Config, twice: bool, reset: bool, s: State, frames: seq<Lanes>, inp: Lanes)
    requires Fits(c, s)
    ensures AfterFrames(c, twice, reset, s, frames + [inp])
            == AfterFrame(c, twice, reset, AfterFrames(c, twice, reset, s, frames), inp)
    ensures forall k: nat | k < |frames| ::
              FiresAt(c, twice, reset, s, frames + [inp], k) == FiresAt(c, twice, reset, s, frames, k)
    ensures FiresAt(c, twice, reset, s, frames + [inp], |frames|)
            == FrameFires(c, twice, AfterFrames(c, twice, reset, s, frames), inp)
  {
    hide FrameFires, AfterFrame;
    assert (frames + [inp])[..|frames|] == frames;
    forall k: nat | k < |frames|
      ensures FiresAt(c, twice, reset, s, frames + [inp], k) == FiresAt(c, twice, reset, s, frames, k)
    {
      assert (frames + [inp])[..k] == frames[..k];
    }
  }

  /** Neither flash of this frame divides by zero. */
  ghost predicate FrameDefined(c: Config, twice: bool, s: State, inp: Lanes)
    requires Fits(c, s)
  {
    !FlashDivides(c, s, inp) && !FlashDivides(c, FlashStart(c, twice, s, inp), inp)
  }

  /** No flash of the run over the tape's first count frames divides by zero, as far as those frames are legal. */
  ghost predicate RunsThrough(c: Config, twice: bool, reset: bool, s: State, tape: Blob, packed4: bool, count: nat)
    requires Fits(c, s)
  {
    forall frames: seq<Lanes>, inp: Lanes | |frames| < count && FramesRead(tape, packed4, frames + [inp]) ::
      FrameDefined(c, twice, AfterFrames(c, twice, reset, s, frames), inp)
  }

  lemma NeverDividesRunsThrough(c: Config, twice: bool, reset: bool, s: State, tape: Blob, packed4: bool, count: nat)
    requires Fits(c, s) && NeverDivides(c)
    ensures RunsThrough(c, twice, reset, s, tape, packed4, count)
  {
    hide FlashDivides, AfterFrames, FlashState, FramesRead;
  }

  lemma OneMoreRead(tape: Blob, packed4: bool, frames: seq<Lanes>, inp: Lanes)
    requires FramesRead(tape, packed4, frames)
    requires HasFrame(tape, |frames|, packed4) && LegalFrame(tape, |frames|, packed4) && inp == FrameOf(tape, |frames|, packed4)
    ensures FramesRead(tape, packed4, frames + [inp])
  {
    hide HasFrame, LegalFrame, FrameOf;
  }

  /** Flash one frame, and reset every domain if a pattern fired and the caller wants it. */
  method StepFrame(s: Swarm, tag: u32, ingress: Lanes, resetOnWinner: bool) returns (hit: bool)
    requires s.Valid() && s.bakeApplied && !s.flashInProgress
    requires FrameDefined(s.Cfg(), s.doubleStrait, s.Runtime(), ingress)
    modifies s`snapshot, s`flashInProgress, s.thrCur, s.locked, s.lockedBefore, s.active, s.fire, s.rowOut, s.vState
    ensures s.Valid() && s.bakeApplied && !s.flashInProgress
    ensures hit == FrameFires(s.Cfg(), s.doubleStrait, old(s.Runtime()), ingress)
    ensures s.Runtime() == AfterFrame(s.Cfg(), s.doubleStrait, resetOnWinner, old(s.Runtime()), ingress)
  {
    hide FlashState, FireOf, PatternFired, ResetState, Reports, VState, FlashDivides;
    var end := s.EvFlash(tag, ingress);
    hit := AnyPattern(s);
    if hit && resetOnWinner {
      var st := s.EvResetDomain(0xFFFF);
    }
  }

  /** The segmentation loop. It reports failure exactly when some frame is illegal; otherwise every flash
      succeeds, the fired flags are those of the run, and the segments partition the tape. Without a swarm
      nothing fires. */
  method InspectTape(tape: Blob, packed4: bool, frameCount: nat, s: Swarm?, resetOnWinner: bool)
    returns (ok: bool, segs: seq<Segment>, ghost fired: seq<bool>, ghost frames: seq<Lanes>)
    requires frameCount * FrameBytes(packed4) <= |tape|
    requires s != null ==> s.Valid() && s.bakeApplied && !s.flashInProgress
    requires s != null ==>
               RunsThrough(s.Cfg(), s.doubleStrait, resetOnWinner, s.Runtime(), tape, packed4, frameCount)
    modifies Footprint(s)
    ensures ok <==> forall f: nat | f < frameCount :: HasFrame(tape, f, packed4) && LegalFrame(tape, f, packed4)
    ensures ok ==> |fired| == |frames| == frameCount
    ensures ok ==> forall f: nat | f < frameCount :: frames[f] == FrameOf(tape, f, packed4)
    ensures ok && frameCount > 0 ==> Partition(segs, fired) && |segs| <= frameCount
    ensures ok && frameCount == 0 ==> segs == [Segment(0, 0, false)]
    ensures ok && s == null ==> forall f | 0 <= f < frameCount :: !fired[f]
    ensures s != null ==> s.Valid()
    ensures ok && s != null ==> s.Runtime() == AfterFrames(s.Cfg(), s.doubleStrait, resetOnWinner, old(s.Runtime()), frames)
    ensures ok && s != null ==> forall f: nat | f < frameCount ::
              fired[f] == FiresAt(s.Cfg(), s.doubleStrait, resetOnWinner, old(s.Runtime()), frames, f)
  {
    hide AfterFrames, AfterFrame, FiresAt, FrameFires, FrameDefined, RunsThrough, Chained, Cutting, LegalFrame, HasFrame, FrameOf;
    segs, fired, frames, ok := [], [], [], true;
    var segmentStart, frame := 0, 0;
    NothingCut();
    if s != null {
      NothingRun(s.Cfg(), s.doubleStrait, resetOnWinner, s.Runtime());
    }
    while frame < frameCount
      invariant frame <= frameCount && |fired| == |frames| == frame
      invariant FramesRead(tape, packed4, frames) && Cutting(segs, fired, segmentStart)
      invariant s == null ==> forall f | 0 <= f < frame :: !fired[f]
      invariant s != null ==> s.Valid() && s.bakeApplied && !s.flashInProgress
      invariant s != null ==> s.Cfg() == old(s.Cfg()) && s.doubleStrait == old(s.doubleStrait)
      invariant s != null ==>
                  RunMatches(s.Cfg(), s.doubleStrait, resetOnWinner, old(s.Runtime()), s.Runtime(), frames, fired)
    {
      FrameInTape(tape, packed4, frame, frameCount);
      var legal, ingress := DecodeFrame(tape, frame, packed4);
      if !legal {
        return false, [], [], [];
      }
      var hit := false;
      if s != null {
        ghost var now := s.Runtime();
        OneMoreRead(tape, packed4, frames, ingress);
        NextIsDefined(s.Cfg(), s.doubleStrait, resetOnWinner, old(s.Runtime()), tape, packed4, frameCount, frames, ingress);
        hit := StepFrame(s, frame % 0x1_0000_0000, ingress, resetOnWinner);
        RunStep(s.Cfg(), s.doubleStrait, resetOnWinner, old(s.Runtime()), now, s.Runtime(), frames, fired, ingress, hit);
      }
      CutStep(segs, fired, segmentStart, hit);
      fired, frames := fired + [hit], frames + [ingress];
      if hit {
        segs := segs + [Segment(segmentStart, frame, true)];
        segmentStart := frame + 1;
      }
      frame := frame + 1;
    }
    if frameCount > 0 {
      CutEnd(segs, fired, segmentStart);
    } else {
      EmptyTape(segs, fired, segmentStart);
    }
    if segmentStart < frameCount || |segs| == 0 {
      segs := segs + [Segment(segmentStart, if frameCount > 0 then frameCount - 1 else 0, false)];
    }
  }

  lemma NextIsDefined(c: Config, twice: bool, reset: bool, s: State, tape: Blob, packed4: bool, count: nat,
                      frames: seq<Lanes>, inp: Lanes)
    requires Fits(c, s) && RunsThrough(c, twice, reset, s, tape, packed4, count)
    requires |frames| < count && FramesRead(tape, packed4, frames + [inp])
    ensures FrameDefined(c, twice, AfterFrames(c, twice, reset, s, frames), inp)
  {
  }

  lemma NothingCut()
    ensures Cutting([], [], 0)
  {
  }

  lemma EmptyTape(segs: seq<Segment>, fired: seq<bool>, start: nat)
    requires Cutting(segs, fired, start) && fired == []
    ensures segs == [] && start == 0
  {
  }

  lemma NothingRun(c: Config, twice: bool, reset: bool, s: State)
    requires Fits(c, s)
    ensures RunMatches(c, twice, reset, s, s, [], [])
  {
  }

  // ---------- Segments stand alone ----------

  lemma FrameRespectsAgreement(c: Config, twice: bool, reset: bool, s: State, s': State, inp: Lanes)
    requires Fits(c, s) && Fits(c, s') && Agree(c, s, s')
    ensures FrameFires(c, twice, s, inp) == FrameFires(c, twice, s', inp)
    ensures Agree(c, AfterFrame(c, twice, reset, s, inp), AfterFrame(c, twice, reset, s', inp))
  {
    hide FlashState, FireOf, PatternFired, AfterRead;
    FlashRespectsAgreement(c, s, s', inp);
    FlashRespectsAgreement(c, FlashStart(c, twice, s, inp), FlashStart(c, twice, s', inp), inp);
  }

  lemma FullResetAgreesWithFresh(c: Config, s: State)
    requires Fits(c, s) && forall t | 0 <= t < c.n :: c.tiles[t].domain < DOMAINS
    ensures Agree(c, ResetState(c, s, 0xFFFF), Fresh(|c.tiles|))
  {
    forall t: nat | t < c.n
      ensures Hits(0xFFFF, c.tiles[t].domain)
    {
      FullMaskHits(c.tiles[t].domain);
    }
  }

  lemma {:induction false} AfterCut(c: Config, twice: bool, s: State, frames: seq<Lanes>, k: nat, m: nat)
    requires Fits(c, s) && forall t | 0 <= t < c.n :: c.tiles[t].domain < DOMAINS
    requires k < m <= |frames| && FiresAt(c, twice, true, s, frames, k)
    ensures Agree(c, AfterFrames(c, twice, true, s, frames[..m]),
                     AfterFrames(c, twice, true, Fresh(|c.tiles|), frames[k + 1..m]))
    decreases m
  {
    hide FrameFires, FlashState;
    assert frames[..m][..m - 1] == frames[..m - 1];
    if m == k + 1 {
      assert frames[k + 1..m] == [];
      FullResetAgreesWithFresh(c, FlashState(c, FlashStart(c, twice, AfterFrames(c, twice, true, s, frames[..k]), frames[k]), frames[k]));
    } else {
      AfterCut(c, twice, s, frames, k, m - 1);
      assert frames[k + 1..m][..m - 1 - (k + 1)] == frames[k + 1..m - 1];
      FrameRespectsAgreement(c, twice, true, AfterFrames(c, twice, true, s, frames[..m - 1]),
        AfterFrames(c, twice, true, Fresh(|c.tiles|), frames[k + 1..m - 1]), frames[m - 1]);
    }
  }

  /** With reset-on-winner every segment stands alone: after a fired frame k, the rest of the tape fires at
      exactly the frames at which a freshly created swarm would, given only the rest. */
  lemma SegmentsStandAlone(c: Config, twice: bool, s: State, frames: seq<Lanes>, k: nat, j: nat)
    requires Fits(c, s) && forall t | 0 <= t < c.n :: c.tiles[t].domain < DOMAINS
    requires k < j < |frames| && FiresAt(c, twice, true, s, frames, k)
    ensures FiresAt(c, twice, true, s, frames, j)
            == FiresAt(c, twice, true, Fresh(|c.tiles|), frames[k + 1..], j - (k + 1))
  {
    hide FrameFires, AfterFrames;
    var rest := frames[k + 1..];
    AfterCut(c, twice, s, frames, k, j);
    assert rest[..j - (k + 1)] == frames[k + 1..j] && rest[j - (k + 1)] == frames[j];
    FrameRespectsAgreement(c, twice, true, AfterFrames(c, twice, true, s, frames[..j]),
      AfterFrames(c, twice, true, Fresh(|c.tiles|), frames[k + 1..j]), frames[j]);
  }
}
