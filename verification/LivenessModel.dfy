/** Register liveness over a BPF control-flow graph: the transfer step, the descending
    in-place sweep and the path meaning of a live register. */
module LivenessModel {

  // ---------- 16-bit register masks ----------

  type Reg = r: bv5 | r < 16

  predicate Has(mask: bv16, r: Reg) { (mask >> r) & 1 == 1 }

  lemma HasOr(a: bv16, b: bv16, r: Reg)
    ensures Has(a | b, r) <==> Has(a, r) || Has(b, r)
  {
  }

  lemma HasXor(a: bv16, b: bv16, r: Reg)
    ensures Has(a ^ b, r) <==> Has(a, r) != Has(b, r)
  {
  }

  lemma HasNothing(r: Reg)
    ensures !Has(0, r)
  {
  }

  lemma HasTransfer(out: bv16, def: bv16, use: bv16, r: Reg)
    ensures Has((out & !def) | use, r) <==> (Has(out, r) && !Has(def, r)) || Has(use, r)
  {
  }

  /** A mask that is not zero has some register in it, found by halving. */
  lemma SomeRegister(mask: bv16) returns (r: Reg)
    requires mask != 0
    ensures Has(mask, r)
  {
    var rest := mask;
    r := 0;
    if rest >> 8 != 0 { r := 8; rest := rest >> 8; }
    if rest >> 4 != 0 { r := r + 4; rest := rest >> 4; }
    if rest >> 2 != 0 { r := r + 2; rest := rest >> 2; }
    if rest >> 1 != 0 { r := r + 1; }
  }

  lemma MaskExtensionality(a: bv16, b: bv16)
    requires forall r: Reg :: Has(a, r) <==> Has(b, r)
    ensures a == b
  {
    if a ^ b != 0 {
      var r := SomeRegister(a ^ b);
      HasXor(a, b, r);
    }
  }

  // ---------- Programs and liveness states ----------

  /** What the solver knows of one instruction: the registers it surely overwrites, the
      registers it reads, and where control may go next (none after an exit). */
  datatype Insn = Insn(def: bv16, use: bv16, succ: seq<nat>)

  type Program = seq<Insn>

  ghost predicate Below(nodes: seq<nat>, n: nat) {
    forall j | 0 <= j < |nodes| :: nodes[j] < n
  }

  /** The successor helper yields at most two targets, all inside the program. */
  ghost predicate WellFormed(p: Program) {
    forall i | 0 <= i < |p| :: |p[i].succ| <= 2 && Below(p[i].succ, |p|)
  }

  /** Every edge goes to a later instruction. */
  ghost predicate ForwardOnly(p: Program) {
    forall i, s | 0 <= i < |p| && s in p[i].succ :: i < s
  }

  datatype Live = Live(ins: seq<bv16>, outs: seq<bv16>)

  ghost predicate Fits(p: Program, live: Live) {
    |live.ins| == |p| && |live.outs| == |p|
  }

  function Zeros(n: nat): (z: seq<bv16>)
    ensures |z| == n && forall i | 0 <= i < n :: z[i] == 0
  {
    seq(n, _ => 0)
  }

  function Zero(p: Program): Live {
    Live(Zeros(|p|), Zeros(|p|))
  }

  // ---------- The step, the sweep and repeated sweeps ----------

  /** The union of the live-in masks of the first k successors. */
  function JoinUpTo(succ: seq<nat>, ins: seq<bv16>, k: nat): bv16
    requires k <= |succ| && Below(succ, |ins|)
  {
    if k == 0 then 0 else JoinUpTo(succ, ins, k - 1) | ins[succ[k - 1]]
  }

  function Join(p: Program, ins: seq<bv16>, i: nat): bv16
    requires WellFormed(p) && |ins| == |p| && i < |p|
  {
    JoinUpTo(p[i].succ, ins, |p[i].succ|)
  }

  function Transfer(insn: Insn, out: bv16): bv16 {
    (out & !insn.def) | insn.use
  }

  function StepAt(p: Program, live: Live, i: nat): (next: Live)
    requires WellFormed(p) && Fits(p, live) && i < |p|
    ensures Fits(p, next)
  {
    var out := Join(p, live.ins, i);
    Live(live.ins[i := Transfer(p[i], out)], live.outs[i := out])
  }

  /** Steps k-1, k-2, ..., 0 in that order, each seeing the earlier ones. */
  function SweepFrom(p: Program, live: Live, k: nat): (next: Live)
    requires WellFormed(p) && Fits(p, live) && k <= |p|
    ensures Fits(p, next)
    decreases k
  {
    if k == 0 then live else SweepFrom(p, StepAt(p, live, k - 1), k - 1)
  }

  function Sweep(p: Program, live: Live): (next: Live)
    requires WellFormed(p) && Fits(p, live)
    ensures Fits(p, next)
  {
    SweepFrom(p, live, |p|)
  }

  function Sweeps(p: Program, m: nat): (live: Live)
    requires WellFormed(p)
    ensures Fits(p, live)
  {
    if m == 0 then Zero(p) else Sweep(p, Sweeps(p, m - 1))
  }

  /** The step equations hold at instruction i. */
  ghost predicate FixedAt(p: Program, live: Live, i: nat)
    requires WellFormed(p) && Fits(p, live) && i < |p|
  {
    live.outs[i] == Join(p, live.ins, i) && live.ins[i] == Transfer(p[i], live.outs[i])
  }

  /** A solution of all step equations. */
  ghost predicate Fixpoint(p: Program, live: Live)
    requires WellFormed(p) && Fits(p, live)
  {
    forall i | 0 <= i < |p| :: FixedAt(p, live, i)
  }

  // ---------- The meaning of a live register ----------

  /** A path that ends at a use of r and never overwrites r before it. */
  ghost predicate LivePath(p: Program, path: seq<nat>, r: Reg) {
    path != [] && path[0] < |p| &&
    if |path| == 1 then
      Has(p[path[0]].use, r)
    else
      !Has(p[path[0]].def, r) && path[1] in p[path[0]].succ && LivePath(p, path[1..], r)
  }

  /** Some path from i reaches a use of r with no earlier def of r. */
  ghost predicate LiveAt(p: Program, i: nat, r: Reg) {
    exists path :: LivePath(p, path, r) && path[0] == i
  }

  /** r is live at some successor of i. */
  ghost predicate LiveAfter(p: Program, i: nat, r: Reg)
    requires i < |p|
  {
    exists s :: s in p[i].succ && LiveAt(p, s, r)
  }

  /** The live-in masks say exactly which registers are live. */
  ghost predicate ExactIns(p: Program, ins: seq<bv16>)
    requires |ins| == |p|
  {
    forall i, r: Reg | 0 <= i < |p| :: Has(ins[i], r) <==> LiveAt(p, i, r)
  }

  ghost predicate ExactOuts(p: Program, outs: seq<bv16>)
    requires |outs| == |p|
  {
    forall i, r: Reg | 0 <= i < |p| :: Has(outs[i], r) <==> LiveAfter(p, i, r)
  }

  // ---------- Facts about joins ----------

  lemma {:induction false} JoinUpToHas(succ: seq<nat>, ins: seq<bv16>, k: nat, r: Reg)
    requires k <= |succ| && Below(succ, |ins|)
    ensures Has(JoinUpTo(succ, ins, k), r) <==> exists j :: 0 <= j < k && Has(ins[succ[j]], r)
  {
    if k == 0 {
      HasNothing(r);
    } else {
      JoinUpToHas(succ, ins, k - 1, r);
      HasOr(JoinUpTo(succ, ins, k - 1), ins[succ[k - 1]], r);
    }
  }

  lemma JoinHas(p: Program, ins: seq<bv16>, i: nat, r: Reg)
    requires WellFormed(p) && |ins| == |p| && i < |p|
    ensures Has(Join(p, ins, i), r) <==> exists s :: s in p[i].succ && Has(ins[s], r)
  {
    JoinUpToHas(p[i].succ, ins, |p[i].succ|, r);
  }

  /** A join reads only the masks of the successors. */
  lemma {:induction false} JoinUpToReads(succ: seq<nat>, a: seq<bv16>, b: seq<bv16>, k: nat)
    requires k <= |succ| && |a| == |b| && Below(succ, |a|)
    requires forall j | 0 <= j < |succ| :: a[succ[j]] == b[succ[j]]
    ensures JoinUpTo(succ, a, k) == JoinUpTo(succ, b, k)
  {
    if k > 0 {
      JoinUpToReads(succ, a, b, k - 1);
    }
  }

  // ---------- Facts about paths ----------

  lemma LivePathExtend(p: Program, i: nat, path: seq<nat>, r: Reg)
    requires LivePath(p, path, r) && i < |p| && path[0] in p[i].succ && !Has(p[i].def, r)
    ensures LivePath(p, [i] + path, r)
  {
    assert ([i] + path)[1..] == path;
  }

  lemma {:induction false} LivePathSuffix(p: Program, path: seq<nat>, k: nat, r: Reg)
    requires LivePath(p, path, r) && k < |path|
    ensures LivePath(p, path[k..], r)
    ensures k + 1 < |path| ==> path[k + 1] in p[path[k]].succ
    ensures path[k] < |p|
    decreases k
  {
    if k > 0 {
      LivePathSuffix(p, path[1..], k - 1, r);
      assert path[1..][k - 1..] == path[k..];
    } else {
      assert path[0..] == path;
    }
  }

  ghost predicate Distinct(path: seq<nat>) {
    forall i, j | 0 <= i < j < |path| :: path[i] != path[j]
  }

  /** A live path never needs to visit an instruction twice. */
  lemma {:induction false} Shorten(p: Program, path: seq<nat>, r: Reg) returns (q: seq<nat>)
    requires LivePath(p, path, r)
    ensures LivePath(p, q, r) && q[0] == path[0] && Distinct(q)
    decreases |path|
  {
    if |path| == 1 {
      q := path;
    } else {
      var rest := Shorten(p, path[1..], r);
      if path[0] in rest {
        var j :| 0 <= j < |rest| && rest[j] == path[0];
        LivePathSuffix(p, rest, j, r);
        q := rest[j..];
      } else {
        LivePathExtend(p, path[0], rest, r);
        q := [path[0]] + rest;
      }
    }
  }

  lemma {:induction false} Pigeonhole(path: seq<nat>, n: nat)
    requires Distinct(path) && Below(path, n)
    ensures |path| <= n
    decreases n
  {
    if path == [] {
    } else if j :| 0 <= j < |path| && path[j] == n - 1 {
      Pigeonhole(path[..j] + path[j + 1..], n - 1);
    } else {
      assert path[0] < n;
      Pigeonhole(path, n - 1);
    }
  }

  lemma {:induction false} LivePathInside(p: Program, path: seq<nat>, r: Reg)
    requires LivePath(p, path, r)
    ensures Below(path, |p|)
  {
    if |path| > 1 {
      LivePathInside(p, path[1..], r);
    }
  }

  /** The edges of a path that do not go forward. */
  ghost function Retreats(path: seq<nat>): nat {
    if |path| <= 1 then 0
    else (if path[1] <= path[0] then 1 else 0) + Retreats(path[1..])
  }

  lemma {:induction false} RetreatsBound(path: seq<nat>)
    requires path != []
    ensures Retreats(path) < |path|
    ensures Retreats(path) == |path| - 1 ==> forall j | 0 <= j < |path| :: path[|path| - 1] <= path[j] <= path[0]
  {
    if |path| > 1 {
      RetreatsBound(path[1..]);
    }
  }
}
