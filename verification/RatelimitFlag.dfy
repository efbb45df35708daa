/** The initialised flag under interleaving: only the owner of the lock changes it, it is set before
    the first tokens are stored, and it stays set while the owner decides. */
module RatelimitFlag {
  import opened Ratelimit
  import opened RatelimitInterleaving
  import opened Wrappers

  /** The owner has found the flag clear and not yet set it. */
  predicate BeforeFlag(pc: Pc) {
    pc.InitClock? || pc.InitBegin? || pc.InitFlag?
  }

  /** The owner has found the flag set, or has set it. */
  predicate AfterFlag(pc: Pc) {
    pc.InitBurst? || pc.InitTokens? || pc.ReadBegin? || pc.CheckWindow? || pc.RefillBurst? || pc.RefillTokens? ||
    pc.RefillClock? || pc.RefillBegin? || pc.CheckRelease? || pc.ResetMisses? || pc.SlowRead? || pc.SlowDec?
  }

  predicate FlagFits(pc: Pc, initialized: bool) {
    (BeforeFlag(pc) ==> !initialized) && (AfterFlag(pc) ==> initialized)
  }

  ghost predicate FlagHeld(s: State) {
    forall t | t in s.pcs :: FlagFits(s.pcs[t], s.shared.initialized)
  }

  lemma AccessFlag(sh: Shared, now: int, lockOk: bool, pc: Pc)
    requires FlagFits(pc, sh.initialized)
    ensures var (after, next) := Local(sh, now, lockOk, pc);
            FlagFits(next, after.initialized) && (after.initialized != sh.initialized ==> HoldsLock(pc))
  {
    hide IsBefore;
  }

  lemma OnlyInside(pc: Pc, initialized: bool)
    requires !HoldsLock(pc)
    ensures FlagFits(pc, initialized)
  {
  }

  lemma StepFlag(s: State, t: nat, lockOk: bool)
    requires MutualExclusion(s) && FlagHeld(s) && t in s.pcs
    ensures FlagHeld(Apply(s, Step(t, lockOk)))
  {
    hide Local, Record, NextOwner, HoldsLock, FlagFits;
    var pc := s.pcs[t];
    var (shared, next) := Local(s.shared, s.now, lockOk && s.owner.None?, pc);
    AccessFlag(s.shared, s.now, lockOk && s.owner.None?, pc);
    forall u | u in s.pcs && u != t
      ensures FlagFits(s.pcs[u], shared.initialized)
    {
      if shared.initialized != s.shared.initialized {
        assert s.owner == Some(t);
        OnlyInside(s.pcs[u], shared.initialized);
      }
    }
  }

  /** Under every interleaving the owner's view of the flag stays right. */
  lemma {:induction false} FlagAlwaysHeld(s: State, events: seq<Event>)
    requires Safe(s) && FlagHeld(s)
    ensures FlagHeld(Run(s, events))
    decreases |events|
  {
    hide FlagHeld, Safe, Local, Record;
    if events != [] {
      AlwaysSafe(s, [events[0]]);
      assert Run(s, [events[0]]) == Apply(s, events[0]);
      EventFlag(s, events[0]);
      FlagAlwaysHeld(Apply(s, events[0]), events[1..]);
    }
  }

  lemma EventFlag(s: State, e: Event)
    requires Safe(s) && FlagHeld(s)
    ensures FlagHeld(Apply(s, e))
  {
    hide Local, Record, FlagFits;
    if e.Step? && e.caller in s.pcs {
      StepFlag(s, e.caller, e.lockOk);
    }
  }

  lemma FreshFlag(s: State)
    requires Fresh(s)
    ensures Safe(s) && FlagHeld(s)
  {
  }
}
