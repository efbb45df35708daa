/** The live registers are the only ones a program's behaviour can depend on, and it can depend on
    every one of them: for each there is an execution that tells two values of it apart. */
module LivenessTight {
  import opened LivenessModel
  import opened LivenessProofs

  /** Instructions without successors are exits, and exits read R0. */
  ghost predicate ExitsReadR0(p: Program) {
    forall i | 0 <= i < |p| && p[i].succ == [] :: Has(p[i].use, 0)
  }

  /** Where pc is on the path. */
  ghost function IndexOf(path: seq<nat>, pc: nat): (j: nat)
    ensures j <= |path| && (j < |path| ==> path[j] == pc)
  {
    if path == [] || path[0] == pc then 0 else 1 + IndexOf(path[1..], pc)
  }

  lemma {:induction false} IndexOfAt(path: seq<nat>, j: nat)
    requires j < |path| && Distinct(path)
    ensures IndexOf(path, path[j]) == j
  {
    if j > 0 {
      assert path[0] != path[j] == path[1..][j - 1];
      IndexOfAt(path[1..], j - 1);
    }
  }

  /** Instructions overwrite def with zeros. */
  ghost function Overwrite(def: bv16, regs: RegFile): RegFile {
    (x: Reg) => if Has(def, x) then 0 else regs(x)
  }

  /** Where control goes: along the path, and then anywhere it may. */
  ghost function NextOnPath(p: Program, path: seq<nat>, pc: nat): nat
    requires pc < |p| && p[pc].succ != []
  {
    var j := IndexOf(path, pc);
    if j + 1 < |path| then path[j + 1] else p[pc].succ[0]
  }

  /** Follows the path, and at its end stores r. */
  ghost function Follow(p: Program, path: seq<nat>, r: Reg, pc: nat, regs: RegFile, mem: int): Outcome<int> {
    var stored := if path != [] && pc == path[|path| - 1] then regs(r) else mem;
    if pc >= |p| || p[pc].succ == [] then Exit(stored)
    else Goto(NextOnPath(p, path, pc), Overwrite(p[pc].def, regs), stored)
  }

  ghost function Follower(p: Program, path: seq<nat>, r: Reg): Semantics<int> {
    (pc: nat, regs: RegFile, mem: int) => Follow(p, path, r, pc, regs, mem)
  }

  lemma OnPath(p: Program, path: seq<nat>, r: Reg, j: nat)
    requires LivePath(p, path, r) && j < |path|
    ensures path[j] < |p|
    ensures j + 1 < |path| ==> path[j + 1] in p[path[j]].succ && !Has(p[path[j]].def, r)
    ensures j + 1 == |path| ==> Has(p[path[j]].use, r)
  {
    hide Has;
    LivePathSuffix(p, path, j, r);
  }

  lemma NextIsSuccessor(p: Program, path: seq<nat>, r: Reg, pc: nat)
    requires LivePath(p, path, r) && pc < |p| && p[pc].succ != []
    ensures NextOnPath(p, path, pc) in p[pc].succ
  {
    hide LivePath;
    var j := IndexOf(path, pc);
    if j + 1 < |path| {
      OnPath(p, path, r, j);
    }
  }

  /** The follower keeps to the masks. */
  lemma FollowerObeys(p: Program, path: seq<nat>, r: Reg)
    requires ExitsReadR0(p) && LivePath(p, path, r)
    ensures WritesOnlyDef(p, Follower(p, path, r)) && ReadsOnlyUse(p, Follower(p, path, r))
  {
    hide Has, LivePath, NextOnPath;
    var exec := Follower(p, path, r);
    forall pc, regs, mem: int | 0 <= pc < |p|
      ensures StepWritesDef(p, exec, pc, regs, mem)
    {
      if p[pc].succ != [] {
        NextIsSuccessor(p, path, r, pc);
      }
    }
    PathNotEmpty(p, path, r);
    OnPath(p, path, r, |path| - 1);
    forall pc, a, b, mem: int | 0 <= pc < |p|
      ensures StepReadsUse(p, exec, pc, a, b, mem)
    {
    }
  }

  lemma PathNotEmpty(p: Program, path: seq<nat>, r: Reg)
    requires LivePath(p, path, r)
    ensures path != []
  {
  }

  /** It takes the path, and r keeps its value on the way. */
  lemma {:induction false} FollowerRuns(p: Program, path: seq<nat>, r: Reg, regs: RegFile, mem: int, j: nat)
    requires WellFormed(p) && LivePath(p, path, r) && Distinct(path) && j < |path|
    ensures var c := RunFor(Follower(p, path, r), Running(path[0], regs, mem), j);
            c.Running? && c.pc == path[j] && c.mem == mem && c.regs(r) == regs(r)
  {
    hide Has, LivePath;
    if j > 0 {
      FollowerRuns(p, path, r, regs, mem, j - 1);
      OnPath(p, path, r, j - 1);
      IndexOfAt(path, j - 1);
    }
  }

  lemma FollowerStores(p: Program, path: seq<nat>, r: Reg, regs: RegFile, mem: int)
    requires WellFormed(p) && LivePath(p, path, r) && Distinct(path)
    ensures RunFor(Follower(p, path, r), Running(path[0], regs, mem), |path|).mem == regs(r)
  {
    hide Has, LivePath;
    PathNotEmpty(p, path, r);
    FollowerRuns(p, path, r, regs, mem, |path| - 1);
  }

  // ---------- Live is what behaviour can depend on ----------

  /** The same place and memory, or exits with the same R0 and memory. */
  ghost predicate LooksSame(a: Config<int>, b: Config<int>) {
    match (a, b)
    case (Running(i, _, memA), Running(j, _, memB)) => i == j && memA == memB
    case (Done(x, memA), Done(y, memB)) => x == y && memA == memB
    case _ => false
  }

  ghost predicate AgreeExcept(r: Reg, a: RegFile, b: RegFile) {
    forall x: Reg | x != r :: a(x) == b(x)
  }

  ghost predicate Obeys(p: Program, exec: Semantics<int>) {
    WritesOnlyDef(p, exec) && ReadsOnlyUse(p, exec)
  }

  /** No execution from i can tell two values of r apart. */
  ghost predicate Irrelevant(p: Program, i: nat, r: Reg) {
    forall exec, a, b, mem: int, steps |
      Obeys(p, exec) && AgreeExcept(r, a, b) ::
      LooksSame(RunFor(exec, Running(i, a, mem), steps), RunFor(exec, Running(i, b, mem), steps))
  }

  lemma NotLiveIrrelevant(p: Program, i: nat, r: Reg)
    requires WellFormed(p) && i < |p| && !LiveAt(p, i, r)
    ensures Irrelevant(p, i, r)
  {
    hide Has, LiveAt, WritesOnlyDef, ReadsOnlyUse;
    var ins := Sweeps(p, |p|).ins;
    SweepsExactIns(p, |p|);
    ExactCloses(p, ins);
    assert !Has(ins[i], r);
    forall exec, a, b, mem: int, steps | Obeys(p, exec) && AgreeExcept(r, a, b)
      ensures LooksSame(RunFor(exec, Running(i, a, mem), steps), RunFor(exec, Running(i, b, mem), steps))
    {
      assert AgreeOn(ins[i], a, b);
      LivenessSound(p, ins, exec, Running(i, a, mem), Running(i, b, mem), steps);
    }
  }

  lemma LiveRelevant(p: Program, i: nat, r: Reg)
    requires WellFormed(p) && ExitsReadR0(p) && LiveAt(p, i, r)
    ensures !Irrelevant(p, i, r)
  {
    hide Has, WritesOnlyDef, ReadsOnlyUse, RunFor;
    var path0 :| LivePath(p, path0, r) && path0[0] == i;
    var path := Shorten(p, path0, r);
    var exec := Follower(p, path, r);
    FollowerObeys(p, path, r);
    assert Obeys(p, exec);
    var zeros: RegFile := x => 0;
    var one: RegFile := x => if x == r then 1 else 0;
    FollowerStores(p, path, r, zeros, 0);
    FollowerStores(p, path, r, one, 0);
    assert AgreeExcept(r, zeros, one);
    assert !LooksSame(RunFor(exec, Running(i, zeros, 0), |path|), RunFor(exec, Running(i, one, 0), |path|));
  }

  /** A register is live exactly when some execution that keeps to the masks can tell two of its
      values apart: no sound mask is smaller than the live one. */
  lemma LiveExactlyRelevant(p: Program, i: nat, r: Reg)
    requires WellFormed(p) && ExitsReadR0(p) && i < |p|
    ensures LiveAt(p, i, r) <==> !Irrelevant(p, i, r)
  {
    hide LiveAt, Irrelevant;
    if LiveAt(p, i, r) {
      LiveRelevant(p, i, r);
    } else {
      NotLiveIrrelevant(p, i, r);
    }
  }
}
