/** The in-place solver: live-in and live-out masks updated by repeated descending sweeps until
    a sweep changes nothing or as many sweeps have run as there are instructions. */
module LivenessSolver {
  import opened LivenessModel
  import opened LivenessProofs

  /** The inner loop of the step: at most two successors are read. */
  method JoinSuccessors(succ: seq<nat>, liveIn: array<bv16>) returns (newOut: bv16)
    requires |succ| <= 2 && Below(succ, liveIn.Length)
    ensures newOut == JoinUpTo(succ, liveIn[..], |succ|)
  {
    newOut := 0;
    var j := 0;
    while j < 2
      invariant 0 <= j <= |succ|
      invariant newOut == JoinUpTo(succ, liveIn[..], j)
    {
      if j >= |succ| {
        break;
      }
      newOut := newOut | liveIn[succ[j]];
      j := j + 1;
    }
  }

  /** One transfer step at instruction i. */
  method Step(p: Program, liveIn: array<bv16>, liveOut: array<bv16>, i: nat) returns (changed: bool)
    requires WellFormed(p) && i < |p|
    requires liveIn != liveOut && liveIn.Length == |p| && liveOut.Length == |p|
    modifies liveIn, liveOut
    ensures Live(liveIn[..], liveOut[..]) == StepAt(p, old(Live(liveIn[..], liveOut[..])), i)
    ensures changed <==> (liveIn[i], liveOut[i]) != old((liveIn[i], liveOut[i]))
  {
    ghost var start := Live(liveIn[..], liveOut[..]);
    var newOut := JoinSuccessors(p[i].succ, liveIn);
    var newIn := Transfer(p[i], newOut);
    changed := newOut != liveOut[i] || newIn != liveIn[i];
    if changed {
      liveOut[i] := newOut;
      liveIn[i] := newIn;
    }
    assert liveIn[..] == start.ins[i := newIn];
    assert liveOut[..] == start.outs[i := newOut];
  }

  /** The instructions below k have not been visited, and `changed` tells whether any mask differs. */
  ghost predicate Tracked(p: Program, start: Live, live: Live, k: nat, changed: bool) {
    Fits(p, start) && Fits(p, live) && k <= |p| && (changed <==> live != start) &&
    forall j | 0 <= j < k :: live.ins[j] == start.ins[j] && live.outs[j] == start.outs[j]
  }

  lemma TrackedStep(p: Program, start: Live, live: Live, k: nat, changed: bool, stepped: bool)
    requires WellFormed(p) && k < |p| && Tracked(p, start, live, k + 1, changed)
    requires var next := StepAt(p, live, k); stepped <==> (next.ins[k], next.outs[k]) != (live.ins[k], live.outs[k])
    ensures Tracked(p, start, StepAt(p, live, k), k, changed || stepped)
  {
    hide Join, Transfer;
    var next := StepAt(p, live, k);
    if live == start {
      if !stepped {
        assert next.ins == live.ins && next.outs == live.outs;
      }
    }
  }

  /** One sweep, last instruction first. */
  method RunSweep(p: Program, liveIn: array<bv16>, liveOut: array<bv16>) returns (changed: bool)
    requires WellFormed(p)
    requires liveIn != liveOut && liveIn.Length == |p| && liveOut.Length == |p|
    modifies liveIn, liveOut
    ensures Live(liveIn[..], liveOut[..]) == Sweep(p, old(Live(liveIn[..], liveOut[..])))
    ensures changed <==> !Fixpoint(p, old(Live(liveIn[..], liveOut[..])))
  {
    hide StepAt, FixedAt;
    ghost var start := Live(liveIn[..], liveOut[..]);
    changed := false;
    var k := |p|;
    while k > 0
      invariant 0 <= k <= |p|
      invariant SweepFrom(p, Live(liveIn[..], liveOut[..]), k) == Sweep(p, start)
      invariant Tracked(p, start, Live(liveIn[..], liveOut[..]), k, changed)
    {
      k := k - 1;
      ghost var live := Live(liveIn[..], liveOut[..]);
      var stepped := Step(p, liveIn, liveOut, k);
      TrackedStep(p, start, live, k, changed, stepped);
      changed := changed || stepped;
    }
    SweepStable(p, start, |p|);
  }

  lemma SweepFixpoint(p: Program, live: Live)
    requires WellFormed(p) && Fits(p, live)
    ensures Sweep(p, live) == live <==> Fixpoint(p, live)
  {
    SweepStable(p, live, |p|);
  }

  /** The solver: from zero masks, sweep until nothing changes or the cap is reached. */
  method Solve(p: Program) returns (liveIn: array<bv16>, liveOut: array<bv16>, sweeps: nat)
    requires WellFormed(p)
    ensures liveIn.Length == |p| && liveOut.Length == |p| && sweeps <= |p|
    ensures ExactIns(p, liveIn[..])
    ensures Fixpoint(p, Live(liveIn[..], liveOut[..])) <==> !CapTooSmall(p)
    ensures !CapTooSmall(p) ==> ExactOuts(p, liveOut[..])
    ensures ForwardOnly(p) ==> sweeps <= 2
  {
    hide Fixpoint, ExactIns, ExactOuts, ForwardOnly, WellFormed, Sweep;
    liveIn, liveOut := new bv16[|p|](_ => 0), new bv16[|p|](_ => 0);
    assert Live(liveIn[..], liveOut[..]) == Zero(p);
    sweeps := 0;
    var changed := true;
    while sweeps < |p| && changed
      invariant 0 <= sweeps <= |p|
      invariant Live(liveIn[..], liveOut[..]) == Sweeps(p, sweeps)
      invariant sweeps == 0 ==> changed
      invariant !changed ==> Fixpoint(p, Sweeps(p, sweeps))
      invariant ForwardOnly(p) && sweeps >= 2 ==> sweeps == 2 && !changed
    {
      if ForwardOnly(p) {
        ForwardOnePass(p);
      }
      changed := RunSweep(p, liveIn, liveOut);
      sweeps := sweeps + 1;
      SweepFixpoint(p, Sweeps(p, sweeps - 1));
    }
    SweepsSound(p, sweeps);
    CapSolves(p);
    if changed {
      SweepsExactIns(p, |p|);
      if !CapTooSmall(p) {
        SoundFixpointIsExact(p, Sweeps(p, sweeps));
      }
    } else {
      SoundFixpointIsExact(p, Sweeps(p, sweeps));
    }
  }
}
