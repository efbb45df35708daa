/** The solver's masks are the path meaning of liveness: soundness of every step, how many
    sweeps complete the masks, and what the masks guarantee about execution. */
module LivenessProofs {
  import opened LivenessModel

  // ---------- No step ever adds a register that is not live ----------

  ghost predicate Sound(p: Program, live: Live)
    requires Fits(p, live)
  {
    forall i, r: Reg | 0 <= i < |p| ::
      (Has(live.ins[i], r) ==> LiveAt(p, i, r)) && (Has(live.outs[i], r) ==> LiveAfter(p, i, r))
  }

  lemma LiveUse(p: Program, i: nat, r: Reg)
    requires i < |p| && Has(p[i].use, r)
    ensures LiveAt(p, i, r)
  {
    assert LivePath(p, [i], r);
  }

  lemma LiveThrough(p: Program, i: nat, r: Reg)
    requires i < |p| && LiveAfter(p, i, r) && !Has(p[i].def, r)
    ensures LiveAt(p, i, r)
  {
    var s :| s in p[i].succ && LiveAt(p, s, r);
    var path :| LivePath(p, path, r) && path[0] == s;
    LivePathExtend(p, i, path, r);
    assert ([i] + path)[0] == i;
  }

  /** Liveness obeys the step equations. */
  lemma LiveEquation(p: Program, i: nat, r: Reg)
    requires i < |p|
    ensures LiveAt(p, i, r) <==> (LiveAfter(p, i, r) && !Has(p[i].def, r)) || Has(p[i].use, r)
  {
    if Has(p[i].use, r) {
      LiveUse(p, i, r);
    }
    if LiveAfter(p, i, r) && !Has(p[i].def, r) {
      LiveThrough(p, i, r);
    }
    if LiveAt(p, i, r) {
      var path :| LivePath(p, path, r) && path[0] == i;
      if |path| > 1 {
        assert LivePath(p, path[1..], r) && path[1..][0] == path[1];
        assert LiveAt(p, path[1], r);
      }
    }
  }

  lemma StepSound(p: Program, live: Live, i: nat)
    requires WellFormed(p) && Fits(p, live) && i < |p| && Sound(p, live)
    ensures Sound(p, StepAt(p, live, i))
  {
    var out := Join(p, live.ins, i);
    forall r: Reg
      ensures Has(out, r) ==> LiveAfter(p, i, r)
      ensures Has(Transfer(p[i], out), r) ==> LiveAt(p, i, r)
    {
      JoinHas(p, live.ins, i, r);
      HasTransfer(out, p[i].def, p[i].use, r);
      LiveEquation(p, i, r);
    }
  }

  lemma {:induction false} SweepSound(p: Program, live: Live, k: nat)
    requires WellFormed(p) && Fits(p, live) && k <= |p| && Sound(p, live)
    ensures Sound(p, SweepFrom(p, live, k))
    decreases k
  {
    if k > 0 {
      StepSound(p, live, k - 1);
      SweepSound(p, StepAt(p, live, k - 1), k - 1);
    }
  }

  lemma {:induction false} SweepsSound(p: Program, m: nat)
    requires WellFormed(p)
    ensures Sound(p, Sweeps(p, m))
  {
    if m == 0 {
      forall r: Reg ensures !Has(0, r) { HasNothing(r); }
    } else {
      SweepsSound(p, m - 1);
      SweepSound(p, Sweeps(p, m - 1), |p|);
    }
  }

  // ---------- Each sweep follows paths across one more retreating edge ----------

  /** Instructions from k on carry every register whose path has fewer than m retreats, the
      others those with fewer than m - 1. */
  ghost predicate CoversIns(p: Program, ins: seq<bv16>, k: nat, m: int)
    requires |ins| == |p|
  {
    forall path, r: Reg | LivePath(p, path, r) && Retreats(path) < (if path[0] >= k then m else m - 1) ::
      Has(ins[path[0]], r)
  }

  /** The same for the live-out mask: a first edge into a live path. */
  ghost predicate CoversOuts(p: Program, outs: seq<bv16>, k: nat, m: int)
    requires |outs| == |p|
  {
    forall i, path, r: Reg |
      k <= i < |p| && LivePath(p, path, r) && path[0] in p[i].succ && Retreats([i] + path) < m ::
      Has(outs[i], r)
  }

  lemma RetreatsCons(i: nat, path: seq<nat>)
    requires path != []
    ensures Retreats([i] + path) == (if path[0] <= i then 1 else 0) + Retreats(path)
  {
    assert ([i] + path)[1..] == path;
  }

  lemma StepCoversOut(p: Program, live: Live, k: nat, m: int, path: seq<nat>, r: Reg)
    requires WellFormed(p) && Fits(p, live) && k < |p| && CoversIns(p, live.ins, k + 1, m)
    requires LivePath(p, path, r) && path[0] in p[k].succ && Retreats([k] + path) < m
    ensures Has(Join(p, live.ins, k), r)
  {
    RetreatsCons(k, path);
    JoinHas(p, live.ins, k, r);
    assert Has(live.ins[path[0]], r);
  }

  lemma StepCovers(p: Program, live: Live, k: nat, m: int)
    requires WellFormed(p) && Fits(p, live) && k < |p|
    requires CoversIns(p, live.ins, k + 1, m) && CoversOuts(p, live.outs, k + 1, m)
    ensures CoversIns(p, StepAt(p, live, k).ins, k, m)
    ensures CoversOuts(p, StepAt(p, live, k).outs, k, m)
  {
    var next := StepAt(p, live, k);
    var out := Join(p, live.ins, k);
    forall path, r: Reg | LivePath(p, path, r) && Retreats(path) < (if path[0] >= k then m else m - 1)
      ensures Has(next.ins[path[0]], r)
    {
      if path[0] == k {
        HasTransfer(out, p[k].def, p[k].use, r);
        if |path| > 1 {
          assert [k] + path[1..] == path;
          StepCoversOut(p, live, k, m, path[1..], r);
        }
      }
    }
    forall i, path, r: Reg |
      k <= i < |p| && LivePath(p, path, r) && path[0] in p[i].succ && Retreats([i] + path) < m
      ensures Has(next.outs[i], r)
    {
      if i == k {
        StepCoversOut(p, live, k, m, path, r);
      }
    }
  }

  lemma {:induction false} SweepCovers(p: Program, live: Live, k: nat, m: int)
    requires WellFormed(p) && Fits(p, live) && k <= |p|
    requires CoversIns(p, live.ins, k, m) && CoversOuts(p, live.outs, k, m)
    ensures CoversIns(p, SweepFrom(p, live, k).ins, 0, m)
    ensures CoversOuts(p, SweepFrom(p, live, k).outs, 0, m)
    decreases k
  {
    hide StepAt, CoversIns, CoversOuts;
    if k > 0 {
      StepCovers(p, live, k - 1, m);
      SweepCovers(p, StepAt(p, live, k - 1), k - 1, m);
    }
  }

  /** After m sweeps every live path with fewer than m retreating edges has been followed. */
  lemma {:induction false} SweepsCover(p: Program, m: nat)
    requires WellFormed(p)
    ensures CoversIns(p, Sweeps(p, m).ins, 0, m)
    ensures m > 0 ==> CoversOuts(p, Sweeps(p, m).outs, 0, m)
  {
    if m > 0 {
      SweepsCover(p, m - 1);
      SweepCovers(p, Sweeps(p, m - 1), |p|, m);
    }
  }

  /** Some live path from i has fewer than m retreating edges. */
  ghost predicate LiveWithin(p: Program, i: nat, r: Reg, m: int) {
    exists path :: LivePath(p, path, r) && path[0] == i && Retreats(path) < m
  }

  /** No register is found before the sweep that can reach it. */
  ghost predicate Timely(p: Program, ins: seq<bv16>, k: nat, m: int)
    requires |ins| == |p|
  {
    forall i, r: Reg | 0 <= i < |p| && Has(ins[i], r) :: LiveWithin(p, i, r, if i >= k then m else m - 1)
  }

  lemma WithinThrough(p: Program, i: nat, s: nat, r: Reg, m: int)
    requires i < |p| && s in p[i].succ && !Has(p[i].def, r)
    requires LiveWithin(p, s, r, if s <= i then m - 1 else m)
    ensures LiveWithin(p, i, r, m)
  {
    var path :| LivePath(p, path, r) && path[0] == s && Retreats(path) < (if s <= i then m - 1 else m);
    LivePathExtend(p, i, path, r);
    RetreatsCons(i, path);
    assert ([i] + path)[0] == i;
  }

  lemma StepTimely(p: Program, live: Live, k: nat, m: int)
    requires WellFormed(p) && Fits(p, live) && k < |p| && m >= 1 && Timely(p, live.ins, k + 1, m)
    ensures Timely(p, StepAt(p, live, k).ins, k, m)
  {
    var out := Join(p, live.ins, k);
    var next := StepAt(p, live, k);
    forall i, r: Reg | 0 <= i < |p| && Has(next.ins[i], r)
      ensures LiveWithin(p, i, r, if i >= k then m else m - 1)
    {
      if i == k {
        StepTimelyAt(p, live.ins, k, m, r);
      } else {
        assert Has(live.ins[i], r);
      }
    }
  }

  lemma StepTimelyAt(p: Program, ins: seq<bv16>, k: nat, m: int, r: Reg)
    requires WellFormed(p) && |ins| == |p| && k < |p| && m >= 1 && Timely(p, ins, k + 1, m)
    requires Has(Transfer(p[k], Join(p, ins, k)), r)
    ensures LiveWithin(p, k, r, m)
  {
    HasTransfer(Join(p, ins, k), p[k].def, p[k].use, r);
    if Has(p[k].use, r) {
      assert LivePath(p, [k], r) && Retreats([k]) == 0;
    } else {
      JoinHas(p, ins, k, r);
      var s :| s in p[k].succ && Has(ins[s], r);
      WithinThrough(p, k, s, r, m);
    }
  }

  lemma {:induction false} SweepTimely(p: Program, live: Live, k: nat, m: int)
    requires WellFormed(p) && Fits(p, live) && k <= |p| && m >= 1 && Timely(p, live.ins, k, m)
    ensures Timely(p, SweepFrom(p, live, k).ins, 0, m)
    decreases k
  {
    hide StepAt, Timely;
    if k > 0 {
      StepTimely(p, live, k - 1, m);
      SweepTimely(p, StepAt(p, live, k - 1), k - 1, m);
    }
  }

  lemma {:induction false} SweepsTimely(p: Program, m: nat)
    requires WellFormed(p)
    ensures Timely(p, Sweeps(p, m).ins, 0, m)
  {
    if m == 0 {
      forall r: Reg ensures !Has(0, r) { HasNothing(r); }
    } else {
      SweepsTimely(p, m - 1);
      var live := Sweeps(p, m - 1);
      forall i, r: Reg | 0 <= i < |p| && Has(live.ins[i], r)
        ensures LiveWithin(p, i, r, m - 1)
      {
      }
      SweepTimely(p, live, |p|, m);
    }
  }

  /** What m sweeps find, exactly: the registers with a live path of fewer than m retreating edges. */
  lemma SweepsFindExactly(p: Program, m: nat, i: nat, r: Reg)
    requires WellFormed(p) && i < |p|
    ensures Has(Sweeps(p, m).ins[i], r) <==> LiveWithin(p, i, r, m)
  {
    SweepsTimely(p, m);
    SweepsCover(p, m);
  }

  // ---------- Fewer sweeps than instructions are not enough ----------

  /** Each instruction goes to the one before it; the first reads register 0. */
  function Chain(n: nat): Program {
    seq(n, i requires 0 <= i < n => if i == 0 then Insn(0, 1, []) else Insn(0, 0, [i - 1]))
  }

  lemma ChainMasks(n: nat, i: nat)
    requires i < n
    ensures Has(Chain(n)[i].use, 0) <==> i == 0
    ensures !Has(Chain(n)[i].def, 0)
    ensures WellFormed(Chain(n))
  {
    HasNothing(0);
  }

  lemma {:induction false} ChainRetreats(n: nat, path: seq<nat>)
    requires LivePath(Chain(n), path, 0)
    ensures Retreats(path) == path[0]
    decreases |path|
  {
    ChainMasks(n, path[0]);
    if |path| > 1 {
      ChainRetreats(n, path[1..]);
    }
  }

  lemma {:induction false} ChainLive(n: nat, i: nat)
    requires i < n
    ensures LiveAt(Chain(n), i, 0)
  {
    ChainMasks(n, i);
    if i == 0 {
      LiveUse(Chain(n), 0, 0);
    } else {
      ChainLive(n, i - 1);
      assert i - 1 in Chain(n)[i].succ;
      LiveThrough(Chain(n), i, 0);
    }
  }

  /** For every n there is a program of n instructions that needs all n sweeps. */
  lemma CapTight(n: nat)
    requires n > 0
    ensures WellFormed(Chain(n)) && |Chain(n)| == n && !ExactIns(Chain(n), Sweeps(Chain(n), n - 1).ins)
  {
    ChainMasks(n, 0);
    ChainLive(n, n - 1);
    SweepsFindExactly(Chain(n), n - 1, n - 1, 0);
    if LiveWithin(Chain(n), n - 1, 0, n - 1) {
      var path :| LivePath(Chain(n), path, 0) && path[0] == n - 1 && Retreats(path) < n - 1;
      ChainRetreats(n, path);
      assert false;
    }
  }

  // ---------- As many sweeps as instructions are enough ----------

  lemma SimplePathRetreats(p: Program, path: seq<nat>, r: Reg)
    requires LivePath(p, path, r) && Distinct(path)
    ensures Retreats(path) < |path| <= |p|
  {
    LivePathInside(p, path, r);
    Pigeonhole(path, |p|);
    RetreatsBound(path);
  }

  /** The live-in masks are exact after |p| sweeps, or any larger number. */
  lemma SweepsExactIns(p: Program, m: nat)
    requires WellFormed(p) && m >= |p|
    ensures ExactIns(p, Sweeps(p, m).ins)
  {
    SweepsSound(p, m);
    SweepsCover(p, m);
    forall i, r: Reg | 0 <= i < |p| && LiveAt(p, i, r)
      ensures Has(Sweeps(p, m).ins[i], r)
    {
      var path :| LivePath(p, path, r) && path[0] == i;
      var q := Shorten(p, path, r);
      SimplePathRetreats(p, q, r);
    }
  }

  /** A path around a cycle has a forward edge. */
  lemma CycleRetreats(i: nat, q: seq<nat>)
    requires |q| >= 2 && Distinct(q) && q[|q| - 1] == i
    ensures Retreats([i] + q) < |q|
  {
    var cycle := [i] + q;
    RetreatsBound(cycle);
    assert cycle[1] == q[0] && cycle[|cycle| - 1] == q[|q| - 1];
  }

  /** A live path entered from i, without repeats, that meets i only as its last instruction. */
  lemma LoopFreeEntry(p: Program, i: nat, r: Reg) returns (q: seq<nat>)
    requires i < |p| && LiveAfter(p, i, r)
    ensures LivePath(p, q, r) && q[0] in p[i].succ && Distinct(q)
    ensures i !in q[..|q| - 1]
  {
    var s :| s in p[i].succ && LiveAt(p, s, r);
    var path :| LivePath(p, path, r) && path[0] == s;
    q := Shorten(p, path, r);
    if j :| 0 <= j < |q| - 1 && q[j] == i {
      LivePathSuffix(p, q, j, r);
      LivePathSuffix(p, q, j + 1, r);
      q := q[j + 1..];
    }
  }

  /** A register live after i is reached from i over fewer retreating edges than there are
      instructions, provided there are at least two. */
  lemma FewRetreats(p: Program, i: nat, r: Reg) returns (q: seq<nat>)
    requires WellFormed(p) && |p| >= 2 && i < |p| && LiveAfter(p, i, r)
    ensures LivePath(p, q, r) && q[0] in p[i].succ && Retreats([i] + q) < |p|
  {
    q := LoopFreeEntry(p, i, r);
    SimplePathRetreats(p, q, r);
    RetreatsCons(i, q);
    if q[|q| - 1] != i {
      LivePathInside(p, q, r);
      assert i !in q;
      Pigeonhole([i] + q, |p|);
    } else if |q| >= 2 {
      CycleRetreats(i, q);
    }
  }

  lemma SweepsExactOuts(p: Program)
    requires WellFormed(p) && |p| >= 2
    ensures ExactOuts(p, Sweeps(p, |p|).outs)
  {
    SweepsSound(p, |p|);
    SweepsCover(p, |p|);
    forall i, r: Reg | 0 <= i < |p| && LiveAfter(p, i, r)
      ensures Has(Sweeps(p, |p|).outs[i], r)
    {
      var q := FewRetreats(p, i, r);
    }
  }

  lemma ExactJoin(p: Program, ins: seq<bv16>, i: nat, r: Reg)
    requires WellFormed(p) && |ins| == |p| && ExactIns(p, ins) && i < |p|
    ensures Has(Join(p, ins, i), r) <==> LiveAfter(p, i, r)
  {
    JoinHas(p, ins, i, r);
    if s :| s in p[i].succ && Has(ins[s], r) {
      assert LiveAt(p, s, r);
    }
    if LiveAfter(p, i, r) {
      var s :| s in p[i].succ && LiveAt(p, s, r);
      assert Has(ins[s], r);
    }
  }

  lemma ExactTransfer(p: Program, i: nat, mask: bv16, out: bv16, r: Reg)
    requires i < |p| && (Has(mask, r) <==> LiveAt(p, i, r)) && (Has(out, r) <==> LiveAfter(p, i, r))
    ensures Has(mask, r) <==> Has(Transfer(p[i], out), r)
  {
    HasTransfer(out, p[i].def, p[i].use, r);
    LiveEquation(p, i, r);
  }

  /** Exact masks solve the step equations. */
  lemma ExactIsFixpoint(p: Program, live: Live)
    requires WellFormed(p) && Fits(p, live) && ExactIns(p, live.ins) && ExactOuts(p, live.outs)
    ensures Fixpoint(p, live)
  {
    forall i | 0 <= i < |p|
      ensures FixedAt(p, live, i)
    {
      forall r: Reg
        ensures Has(live.outs[i], r) <==> Has(Join(p, live.ins, i), r)
        ensures Has(live.ins[i], r) <==> Has(Transfer(p[i], live.outs[i]), r)
      {
        ExactJoin(p, live.ins, i, r);
        ExactTransfer(p, i, live.ins[i], live.outs[i], r);
      }
      MaskExtensionality(live.outs[i], Join(p, live.ins, i));
      MaskExtensionality(live.ins[i], Transfer(p[i], live.outs[i]));
    }
  }

  // ---------- Fixed points ----------

  /** Every solution of the step equations contains every live register. */
  lemma {:induction false} FixpointContainsPath(p: Program, live: Live, path: seq<nat>, r: Reg)
    requires WellFormed(p) && Fits(p, live) && Fixpoint(p, live) && LivePath(p, path, r)
    ensures Has(live.ins[path[0]], r)
  {
    var i := path[0];
    assert FixedAt(p, live, i);
    HasTransfer(live.outs[i], p[i].def, p[i].use, r);
    if |path| > 1 {
      FixpointContainsPath(p, live, path[1..], r);
      JoinHas(p, live.ins, i, r);
    }
  }

  /** The exact masks are the least solution of the step equations. */
  lemma ExactIsLeast(p: Program, exact: seq<bv16>, other: Live)
    requires WellFormed(p) && |exact| == |p| && ExactIns(p, exact)
    requires Fits(p, other) && Fixpoint(p, other)
    ensures forall i, r: Reg | 0 <= i < |p| && Has(exact[i], r) :: Has(other.ins[i], r)
  {
    forall i, r: Reg | 0 <= i < |p| && Has(exact[i], r)
      ensures Has(other.ins[i], r)
    {
      var path :| LivePath(p, path, r) && path[0] == i;
      FixpointContainsPath(p, other, path, r);
    }
  }

  /** A sound solution is exact, in both masks. */
  lemma SoundFixpointIsExact(p: Program, live: Live)
    requires WellFormed(p) && Fits(p, live) && Fixpoint(p, live) && Sound(p, live)
    ensures ExactIns(p, live.ins) && ExactOuts(p, live.outs)
  {
    forall i, r: Reg | 0 <= i < |p| && LiveAt(p, i, r)
      ensures Has(live.ins[i], r)
    {
      var path :| LivePath(p, path, r) && path[0] == i;
      FixpointContainsPath(p, live, path, r);
    }
    forall i, r: Reg | 0 <= i < |p| && LiveAfter(p, i, r)
      ensures Has(live.outs[i], r)
    {
      assert FixedAt(p, live, i);
      JoinHas(p, live.ins, i, r);
      var s :| s in p[i].succ && LiveAt(p, s, r);
    }
  }

  lemma {:induction false} SweepFromKeeps(p: Program, live: Live, k: nat, i: nat)
    requires WellFormed(p) && Fits(p, live) && k <= i < |p|
    ensures SweepFrom(p, live, k).ins[i] == live.ins[i] && SweepFrom(p, live, k).outs[i] == live.outs[i]
    decreases k
  {
    if k > 0 {
      SweepFromKeeps(p, StepAt(p, live, k - 1), k - 1, i);
    }
  }

  lemma StepFixed(p: Program, live: Live, i: nat)
    requires WellFormed(p) && Fits(p, live) && i < |p|
    ensures StepAt(p, live, i) == live <==> FixedAt(p, live, i)
  {
    var next := StepAt(p, live, i);
    if next == live {
      assert next.outs[i] == Join(p, live.ins, i) && next.ins[i] == Transfer(p[i], next.outs[i]);
    } else {
      assert FixedAt(p, live, i) ==> next.ins == live.ins && next.outs == live.outs;
    }
  }

  /** A sweep changes nothing exactly when the masks solve the equations it visits. */
  lemma {:induction false} SweepStable(p: Program, live: Live, k: nat)
    requires WellFormed(p) && Fits(p, live) && k <= |p|
    ensures SweepFrom(p, live, k) == live <==> forall i | 0 <= i < k :: FixedAt(p, live, i)
    decreases k
  {
    if k > 0 {
      var next := StepAt(p, live, k - 1);
      StepFixed(p, live, k - 1);
      if next == live {
        SweepStable(p, live, k - 1);
      } else {
        SweepFromKeeps(p, next, k - 1, k - 1);
        assert next.ins[k - 1] != live.ins[k - 1] || next.outs[k - 1] != live.outs[k - 1] by {
          assert next.ins == live.ins[k - 1 := next.ins[k - 1]];
          assert next.outs == live.outs[k - 1 := next.outs[k - 1]];
        }
      }
    }
  }

  // ---------- Programs without loops ----------

  lemma {:induction false} ForwardSweep(p: Program, live: Live, k: nat)
    requires WellFormed(p) && ForwardOnly(p) && Fits(p, live) && k <= |p|
    requires forall i | k <= i < |p| :: FixedAt(p, live, i)
    ensures Fixpoint(p, SweepFrom(p, live, k))
    decreases k
  {
    if k > 0 {
      var next := StepAt(p, live, k - 1);
      forall i | k - 1 <= i < |p|
        ensures FixedAt(p, next, i)
      {
        assert forall j | 0 <= j < |p[i].succ| :: p[i].succ[j] in p[i].succ;
        JoinUpToReads(p[i].succ, live.ins, next.ins, |p[i].succ|);
        assert k <= i ==> FixedAt(p, live, i);
      }
      ForwardSweep(p, next, k - 1);
    }
  }

  /** With forward edges only, the first sweep is final and the second changes nothing. */
  lemma ForwardOnePass(p: Program)
    requires WellFormed(p) && ForwardOnly(p)
    ensures Fixpoint(p, Sweeps(p, 1)) && Sweeps(p, 2) == Sweeps(p, 1)
    ensures ExactIns(p, Sweeps(p, 1).ins) && ExactOuts(p, Sweeps(p, 1).outs)
  {
    assert Sweeps(p, 1) == Sweep(p, Sweeps(p, 0));
    ForwardSweep(p, Zero(p), |p|);
    SweepStable(p, Sweeps(p, 1), |p|);
    SweepsSound(p, 1);
    SoundFixpointIsExact(p, Sweeps(p, 1));
  }

  // ---------- When the capped solver also solves the live-out equations ----------

  /** The only program whose live-out mask the cap cuts short: one instruction that jumps to
      itself and reads a register. */
  predicate CapTooSmall(p: Program) {
    |p| == 1 && 0 in p[0].succ && p[0].use != 0
  }

  lemma OneInstruction(p: Program)
    requires WellFormed(p) && |p| == 1
    ensures Fixpoint(p, Sweeps(p, 1)) <==> !CapTooSmall(p)
  {
    var zero := Zero(p);
    var live := Sweeps(p, 1);
    assert live == SweepFrom(p, zero, 1) == StepAt(p, zero, 0) by {
      assert Sweeps(p, 1) == Sweep(p, Sweeps(p, 0));
    }
    assert Join(p, zero.ins, 0) == 0 by {
      forall r: Reg ensures Has(Join(p, zero.ins, 0), r) == Has(0, r) {
        JoinHas(p, zero.ins, 0, r);
        HasNothing(r);
      }
      MaskExtensionality(Join(p, zero.ins, 0), 0);
    }
    assert live.ins[0] == p[0].use && live.outs[0] == 0;
    assert Fixpoint(p, live) <==> FixedAt(p, live, 0);
    if CapTooSmall(p) {
      var r := SomeRegister(p[0].use);
      JoinHas(p, live.ins, 0, r);
      HasNothing(r);
      assert Has(live.ins[0], r);
    } else {
      forall r: Reg ensures Has(Join(p, live.ins, 0), r) == Has(0, r) {
        JoinHas(p, live.ins, 0, r);
        HasNothing(r);
      }
      MaskExtensionality(Join(p, live.ins, 0), 0);
    }
  }

  /** |p| sweeps solve every equation, live-out included, exactly when the program is not a
      single self-looping reader. */
  lemma CapSolves(p: Program)
    requires WellFormed(p)
    ensures Fixpoint(p, Sweeps(p, |p|)) <==> !CapTooSmall(p)
  {
    if |p| == 1 {
      OneInstruction(p);
    } else if |p| >= 2 {
      SweepsExactIns(p, |p|);
      SweepsExactOuts(p);
      ExactIsFixpoint(p, Sweeps(p, |p|));
    }
  }

  // ---------- Liveness is sound for execution ----------

  type RegFile = Reg -> int

  /** What one instruction does: leave the program, or go on with new registers; either may store. */
  datatype Outcome<M> = Exit(mem: M) | Goto(pc: nat, regs: RegFile, mem: M)

  datatype Config<M> = Running(pc: nat, regs: RegFile, mem: M) | Done(r0: int, mem: M)

  type Semantics<!M> = (nat, RegFile, M) -> Outcome<M>

  ghost predicate AgreeOn(mask: bv16, a: RegFile, b: RegFile) {
    forall r: Reg | Has(mask, r) :: a(r) == b(r)
  }

  /** One step leaves registers outside def alone, goes only to successors, and exits only where
      R0 is read. */
  ghost predicate StepWritesDef<M>(p: Program, exec: Semantics<M>, pc: nat, regs: RegFile, mem: M)
    requires pc < |p|
  {
    match exec(pc, regs, mem)
    case Exit(_) => Has(p[pc].use, 0)
    case Goto(target, after, _) =>
      target in p[pc].succ && forall r: Reg | !Has(p[pc].def, r) :: after(r) == regs(r)
  }

  ghost predicate WritesOnlyDef<M(!new)>(p: Program, exec: Semantics<M>) {
    forall pc, regs, mem: M | 0 <= pc < |p| :: StepWritesDef(p, exec, pc, regs, mem)
  }

  /** Where control goes, what lands in def and what is stored depend only on the memory and the
      registers in use. */
  ghost predicate StepReadsUse<M>(p: Program, exec: Semantics<M>, pc: nat, a: RegFile, b: RegFile, mem: M)
    requires pc < |p|
  {
    AgreeOn(p[pc].use, a, b) ==>
      match (exec(pc, a, mem), exec(pc, b, mem))
      case (Exit(memA), Exit(memB)) => memA == memB
      case (Goto(s, afterA, memA), Goto(t, afterB, memB)) =>
        s == t && memA == memB && AgreeOn(p[pc].def, afterA, afterB)
      case _ => false
  }

  ghost predicate ReadsOnlyUse<M(!new)>(p: Program, exec: Semantics<M>) {
    forall pc, a, b, mem: M | 0 <= pc < |p| :: StepReadsUse(p, exec, pc, a, b, mem)
  }

  ghost function Advance<M>(exec: Semantics<M>, c: Config<M>): Config<M> {
    match c
    case Done(_, _) => c
    case Running(pc, regs, mem) =>
      match exec(pc, regs, mem)
      case Exit(stored) => Done(regs(0), stored)
      case Goto(target, after, stored) => Running(target, after, stored)
  }

  ghost function RunFor<M>(exec: Semantics<M>, c: Config<M>, steps: nat): Config<M> {
    if steps == 0 then c else Advance(exec, RunFor(exec, c, steps - 1))
  }

  /** Two configurations at the same place with the same memory that agree on what is live there,
      or two exits with the same R0 and memory. */
  ghost predicate Alike<M>(p: Program, ins: seq<bv16>, a: Config<M>, b: Config<M>)
    requires |ins| == |p|
  {
    match (a, b)
    case (Running(i, x, memA), Running(j, y, memB)) => i == j && i < |p| && memA == memB && AgreeOn(ins[i], x, y)
    case (Done(x, memA), Done(y, memB)) => x == y && memA == memB
    case _ => false
  }

  /** Masks that contain every use, and everything in a successor's mask that is not overwritten. */
  ghost predicate Closed(p: Program, ins: seq<bv16>)
    requires |ins| == |p|
  {
    forall i, r: Reg | 0 <= i < |p| && (Has(p[i].use, r) || Needed(p, ins, i, r)) :: Has(ins[i], r)
  }

  ghost predicate Needed(p: Program, ins: seq<bv16>, i: nat, r: Reg)
    requires |ins| == |p| && i < |p|
  {
    !Has(p[i].def, r) && exists s :: s in p[i].succ && s < |p| && Has(ins[s], r)
  }

  lemma TransferHas(insn: Insn, out: bv16, r: Reg)
    ensures Has(Transfer(insn, out), r) <==> (Has(out, r) && !Has(insn.def, r)) || Has(insn.use, r)
  {
    hide Has;
    HasTransfer(out, insn.def, insn.use, r);
  }

  lemma FixpointCloses(p: Program, live: Live)
    requires WellFormed(p) && Fits(p, live) && Fixpoint(p, live)
    ensures Closed(p, live.ins)
  {
    hide Has, Join, Transfer;
    forall i, r: Reg | 0 <= i < |p| && (Has(p[i].use, r) || Needed(p, live.ins, i, r))
      ensures Has(live.ins[i], r)
    {
      assert FixedAt(p, live, i);
      TransferHas(p[i], live.outs[i], r);
      JoinHas(p, live.ins, i, r);
    }
  }

  lemma ExactCloses(p: Program, ins: seq<bv16>)
    requires |ins| == |p| && ExactIns(p, ins)
    ensures Closed(p, ins)
  {
    hide Has, LiveAt;
    forall i, r: Reg | 0 <= i < |p| && (Has(p[i].use, r) || Needed(p, ins, i, r))
      ensures Has(ins[i], r)
    {
      if Has(p[i].use, r) {
        LiveUse(p, i, r);
      } else {
        var s :| s in p[i].succ && s < |p| && Has(ins[s], r);
        LiveThrough(p, i, r);
      }
    }
  }

  lemma GotoAgrees(p: Program, ins: seq<bv16>, pc: nat, target: nat,
                   a: RegFile, b: RegFile, afterA: RegFile, afterB: RegFile)
    requires |ins| == |p| && Closed(p, ins) && pc < |p| && target < |p| && target in p[pc].succ
    requires AgreeOn(ins[pc], a, b) && AgreeOn(p[pc].def, afterA, afterB)
    requires forall r: Reg | !Has(p[pc].def, r) :: afterA(r) == a(r) && afterB(r) == b(r)
    ensures AgreeOn(ins[target], afterA, afterB)
  {
    forall r: Reg | Has(ins[target], r)
      ensures afterA(r) == afterB(r)
    {
      if !Has(p[pc].def, r) {
        assert Needed(p, ins, pc, r);
      }
    }
  }

  lemma AdvanceAlike<M(!new)>(p: Program, ins: seq<bv16>, exec: Semantics<M>, a: Config<M>, b: Config<M>)
    requires WellFormed(p) && |ins| == |p| && Closed(p, ins)
    requires WritesOnlyDef(p, exec) && ReadsOnlyUse(p, exec)
    requires Alike(p, ins, a, b)
    ensures Alike(p, ins, Advance(exec, a), Advance(exec, b))
  {
    if a.Running? {
      var pc, mem := a.pc, a.mem;
      assert StepReadsUse(p, exec, pc, a.regs, b.regs, mem);
      assert StepWritesDef(p, exec, pc, a.regs, mem) && StepWritesDef(p, exec, pc, b.regs, mem);
      match (exec(pc, a.regs, mem), exec(pc, b.regs, mem))
      case (Exit(_), Exit(_)) =>
        assert Has(p[pc].use, 0);
      case (Goto(target, afterA, _), Goto(_, afterB, _)) =>
        GotoAgrees(p, ins, pc, target, a.regs, b.regs, afterA, afterB);
      case _ =>
        assert false;
    }
  }

  /** From register files that agree on the live-in mask, with the same memory, every run takes the
      same path, keeps agreeing on the live-in mask and the memory at each later step, and exits
      with the same R0. */
  lemma {:induction false} LivenessSound<M(!new)>(p: Program, ins: seq<bv16>, exec: Semantics<M>,
                                                  a: Config<M>, b: Config<M>, steps: nat)
    requires WellFormed(p) && |ins| == |p| && Closed(p, ins)
    requires WritesOnlyDef(p, exec) && ReadsOnlyUse(p, exec)
    requires Alike(p, ins, a, b)
    ensures Alike(p, ins, RunFor(exec, a, steps), RunFor(exec, b, steps))
  {
    if steps > 0 {
      LivenessSound(p, ins, exec, a, b, steps - 1);
      AdvanceAlike(p, ins, exec, RunFor(exec, a, steps - 1), RunFor(exec, b, steps - 1));
    }
  }
}
