/** Interleaved callers of a limiter whose interval is zero throughout: nothing is ever refused. */
module RatelimitOff {
  import opened Ratelimit
  import opened RatelimitInterleaving
  import opened Wrappers

  /** Where callers can be, and that they are going to be granted. */
  predicate Unlimited(pc: Pc) {
    match pc
    case Idle => true
    case ReadBurst(interval) => interval == 0
    case OffFlags(interval, _) => interval == 0
    case OffTrylock(ret) => ret
    case OffClear(ret) => ret
    case Unlock(ret) => ret
    case Finish(ret) => ret
    case _ => false
  }

  ghost predicate AllUnlimited(s: State) {
    s.shared.interval == 0 && s.shared.missed == 0 && s.history.completed == s.history.granted &&
    s.history.harvested == 0 && s.history.spent == 0 &&
    forall t | t in s.pcs :: Unlimited(s.pcs[t])
  }

  predicate IntervalZero(events: seq<Event>) {
    forall i | 0 <= i < |events| && events[i].Configure? :: events[i].interval == 0
  }

  lemma AccessUnlimited(sh: Shared, now: int, lockOk: bool, pc: Pc)
    requires sh.interval == 0 && Unlimited(pc)
    ensures var (after, next) := Local(sh, now, lockOk, pc);
            Unlimited(next) && after == sh.(initialized := after.initialized)
    ensures pc.InitTokens? || pc.RefillTokens? || pc.FastDec? || pc.SlowDec? || pc.ResetMisses? ==> false
    ensures pc.Finish? ==> pc.ret
  {
  }

  lemma EventUnlimited(s: State, e: Event)
    requires AllUnlimited(s) && (e.Configure? ==> e.interval == 0)
    ensures AllUnlimited(Apply(s, e)) && Apply(s, e).shared.nLeft == s.shared.nLeft
    ensures Apply(s, e).shared.begin == s.shared.begin
  {
    hide Local, Unlimited, NextOwner;
    if e.Step? && e.caller in s.pcs {
      AccessUnlimited(s.shared, s.now, e.lockOk && s.owner.None?, s.pcs[e.caller]);
    }
  }

  /** With interval zero, whatever the burst and however the callers interleave, every completed
      call was granted, the miss counter stays zero, and tokens and window are never touched. */
  lemma {:induction false} NothingRefused(s: State, events: seq<Event>)
    requires AllUnlimited(s) && IntervalZero(events)
    ensures var end := Run(s, events);
            AllUnlimited(end) && end.history.completed == end.history.granted && end.shared.missed == 0 &&
            end.shared.nLeft == s.shared.nLeft && end.shared.begin == s.shared.begin
    decreases |events|
  {
    hide Apply;
    if events != [] {
      EventUnlimited(s, events[0]);
      NothingRefused(Apply(s, events[0]), events[1..]);
    }
  }

  lemma FreshUnlimited(s: State)
    requires Fresh(s) && s.shared.interval == 0
    ensures AllUnlimited(s)
  {
  }
}
