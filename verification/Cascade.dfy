/** A cascade: each machine's readout is the next machine's ingress. */
module Cascade {
  import opened Machine
  import opened BakeFormat
  import opened Flash
  import opened Swarm

  ghost function Parts(s: Swarm): set<object> {
    {s, s.thrCur, s.locked, s.lockedBefore, s.active, s.fire, s.rowOut, s.vState}
  }

  /** A baked machine whose flashes never divide by zero: its rows are not empty, or its bake asks for no column. */
  ghost predicate Ready(s: Swarm)
    reads s
  {
    s.Valid() && NeverDivides(s.Cfg()) && s.bakeApplied && !s.flashInProgress
  }

  /** Machines that share no memory. */
  ghost predicate Apart(ms: seq<Swarm>) {
    forall i, j | 0 <= i < j < |ms| :: Parts(ms[i]) !! Parts(ms[j])
  }

  ghost function AllParts(ms: seq<Swarm>): set<object> {
    set i, o | 0 <= i < |ms| && o in Parts(ms[i]) :: o
  }

  /** One machine's turn. */
  method Stage(s: Swarm, tag: u32, raw: seq<u8>) returns (code: Code, out: seq<u8>)
    requires Ready(s) && |raw| == 8 && (forall i | 0 <= i < |raw| :: raw[i] <= 15)
    modifies Parts(s)
    ensures Ready(s) && code == OK && |out| == 8 && forall i | 0 <= i < |out| :: out[i] <= 15
  {
    hide FlashDivides;
    var end := s.EvFlash(tag, raw);
    code, out := end.res.st.code, end.res.readout;
  }

  /** Feeding one legal vector through any chain of baked machines, every stage succeeds: saturation makes
      each readout a legal ingress for the next. */
  method Run(ms: seq<Swarm>, tag: u32, raw: seq<u8>) returns (codes: seq<Code>, out: seq<u8>)
    requires |raw| == 8 && (forall i | 0 <= i < |raw| :: raw[i] <= 15)
    requires Apart(ms) && forall i | 0 <= i < |ms| :: Ready(ms[i])
    modifies AllParts(ms)
    ensures |codes| == |ms| && forall i | 0 <= i < |ms| :: codes[i] == OK
    ensures |out| == 8 && forall i | 0 <= i < |out| :: out[i] <= 15
  {
    hide Ready, Parts;
    codes, out := [], raw;
    var i := 0;
    while i < |ms|
      invariant i <= |ms| && |codes| == i && forall k | 0 <= k < i :: codes[k] == OK
      invariant |out| == 8 && forall k | 0 <= k < |out| :: out[k] <= 15
      invariant forall k | i <= k < |ms| :: Ready(ms[k])
    {
      OthersUntouched(ms, i);
      var code;
      code, out := Stage(ms[i], tag, out);
      codes := codes + [code];
      i := i + 1;
    }
  }

  lemma OthersUntouched(ms: seq<Swarm>, i: nat)
    requires Apart(ms) && i < |ms|
    ensures Parts(ms[i]) <= AllParts(ms)
    ensures forall k | i < k < |ms| :: ms[k] !in Parts(ms[i])
  {
    forall k | i < k < |ms|
      ensures ms[k] !in Parts(ms[i])
    {
      assert ms[k] in Parts(ms[k]);
    }
  }
}
