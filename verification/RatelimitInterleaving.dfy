/** Any number of callers of the rate limiter, interleaved at every access to the shared
    structure and to the clock, with the clock and the configuration changing at any time. */
module RatelimitInterleaving {
  import opened Ints
  import opened Ratelimit
  import opened Wrappers

  /** Where a caller is, with the locals it still needs. */
  datatype Pc =
    | Idle
    | ReadBurst(interval: int)
    | OffFlags(interval: int, burst: int)
    | OffTrylock(ret: bool)
    | OffClear(ret: bool)
    | Trylock(interval: int)
    | FastFlags
    | FastRead
    | FastDec
    | CheckInit(interval: int)
    | InitClock(interval: int)
    | InitBegin(interval: int, time: int)
    | InitFlag(interval: int)
    | InitBurst(interval: int)
    | InitTokens(interval: int, burst: int)
    | ReadBegin(interval: int)
    | CheckWindow(interval: int, begin: int)
    | RefillBurst
    | RefillTokens(burst: int)
    | RefillClock
    | RefillBegin(time: int)
    | CheckRelease
    | ResetMisses
    | SlowRead
    | SlowDec
    | Unlock(ret: bool)
    | Finish(ret: bool)

  predicate HoldsLock(pc: Pc) {
    pc.OffClear? || pc.CheckInit? || pc.InitClock? || pc.InitBegin? || pc.InitFlag? || pc.InitBurst? ||
    pc.InitTokens? || pc.ReadBegin? || pc.CheckWindow? || pc.RefillBurst? || pc.RefillTokens? ||
    pc.RefillClock? || pc.RefillBegin? || pc.CheckRelease? || pc.ResetMisses? || pc.SlowRead? ||
    pc.SlowDec? || pc.Unlock?
  }

  /** Between seeing a token and decrementing the counter. */
  predicate Pending(pc: Pc) {
    pc.FastDec? || pc.SlowDec?
  }

  /** The refill a caller has read and not yet stored. */
  function Held(pc: Pc, none: int): int {
    match pc
    case InitTokens(_, burst) => burst
    case RefillTokens(burst) => burst
    case _ => none
  }

  /** One access of a caller: a read, a write, or an update of one shared field, or a read of the
      clock. Setting or clearing the flag bit is one update. */
  function Local(sh: Shared, now: int, lockOk: bool, pc: Pc): (Shared, Pc) {
    match pc
    case Idle => (sh, ReadBurst(sh.interval))
    case ReadBurst(interval) =>
      (sh, if interval <= 0 || sh.burst <= 0 then OffFlags(interval, sh.burst) else Trylock(interval))
    case OffFlags(interval, burst) =>
      var ret := interval == 0 || burst > 0;
      (sh, if !sh.initialized || (interval == 0 && burst == 0) then Finish(ret) else OffTrylock(ret))
    case OffTrylock(ret) => (sh, if lockOk then OffClear(ret) else Finish(ret))
    case OffClear(ret) => (sh.(initialized := false), Unlock(ret))
    case Trylock(interval) => (sh, if lockOk then CheckInit(interval) else FastFlags)
    case FastFlags => (sh, if sh.initialized then FastRead else Finish(false))
    case FastRead => (sh, if sh.nLeft > 0 then FastDec else Finish(false))
    case FastDec => (sh.(nLeft := sh.nLeft - 1), Finish(sh.nLeft - 1 >= 0))
    case CheckInit(interval) => (sh, if sh.initialized then ReadBegin(interval) else InitClock(interval))
    case InitClock(interval) => (sh, InitBegin(interval, now))
    case InitBegin(interval, time) => (sh.(begin := time), InitFlag(interval))
    case InitFlag(interval) => (sh.(initialized := true), InitBurst(interval))
    case InitBurst(interval) => (sh, InitTokens(interval, sh.burst))
    case InitTokens(interval, burst) => (sh.(nLeft := burst), ReadBegin(interval))
    case ReadBegin(interval) => (sh, CheckWindow(interval, sh.begin))
    case CheckWindow(interval, begin) => (sh, if IsBefore(begin, interval, now) then RefillBurst else SlowRead)
    case RefillBurst => (sh, RefillTokens(sh.burst))
    case RefillTokens(burst) => (sh.(nLeft := burst), RefillClock)
    case RefillClock => (sh, RefillBegin(now))
    case RefillBegin(time) => (sh.(begin := time), CheckRelease)
    case CheckRelease => (sh, if sh.msgOnRelease then SlowRead else ResetMisses)
    case ResetMisses => (sh.(missed := 0), SlowRead)
    case SlowRead => (sh, if sh.nLeft > 0 then SlowDec else Unlock(false))
    case SlowDec => (sh.(nLeft := sh.nLeft - 1), Unlock(sh.nLeft - 1 >= 0))
    case Unlock(ret) => (sh, Finish(ret))
    case Finish(ret) => (if ret then sh else sh.(missed := sh.missed + 1), Idle)
  }

  // ---------- A caller that is not interrupted makes the call of the sequential model ----------

  function Rank(pc: Pc): nat {
    match pc
    case Finish(_) => 0
    case Unlock(_) => 1
    case SlowDec => 2
    case SlowRead => 3
    case ResetMisses => 4
    case CheckRelease => 5
    case RefillBegin(_) => 6
    case RefillClock => 7
    case RefillTokens(_) => 8
    case RefillBurst => 9
    case CheckWindow(_, _) => 10
    case ReadBegin(_) => 11
    case InitTokens(_, _) => 12
    case InitBurst(_) => 13
    case InitFlag(_) => 14
    case InitBegin(_, _) => 15
    case InitClock(_) => 16
    case CheckInit(_) => 17
    case FastDec => 1
    case FastRead => 2
    case FastFlags => 3
    case Trylock(_) => 18
    case OffClear(_) => 2
    case OffTrylock(_) => 3
    case OffFlags(_, _) => 4
    case ReadBurst(_) => 19
    case Idle => 20
  }

  /** The caller runs on alone to its return. */
  function Alone(sh: Shared, now: int, lockOk: bool, pc: Pc): (Shared, bool)
    decreases Rank(pc)
  {
    var (after, next) := Local(sh, now, lockOk, pc);
    if pc.Finish? then (after, pc.ret) else Alone(after, now, lockOk, next)
  }

  lemma AloneStep(sh: Shared, now: int, lockOk: bool, pc: Pc)
    requires !pc.Finish?
    ensures var (after, next) := Local(sh, now, lockOk, pc);
            Alone(sh, now, lockOk, pc) == Alone(after, now, lockOk, next)
  {
    hide Local;
  }

  lemma AloneReturn(sh: Shared, now: int, lockOk: bool, ret: bool)
    ensures Alone(sh, now, lockOk, Finish(ret)) == Alone(sh, now, lockOk, Unlock(ret)) == Account(sh, ret)
  {
    AloneStep(sh, now, lockOk, Unlock(ret));
  }

  lemma AloneTake(sh: Shared, now: int, lockOk: bool)
    ensures Alone(sh, now, lockOk, SlowRead) == Account(Take(sh).0, Take(sh).1)
    ensures Alone(sh, now, lockOk, FastRead) == Account(Take(sh).0, Take(sh).1)
  {
    hide Alone, Account;
    AloneStep(sh, now, lockOk, SlowRead);
    AloneStep(sh, now, lockOk, FastRead);
    if sh.nLeft > 0 {
      AloneStep(sh, now, lockOk, SlowDec);
      AloneStep(sh, now, lockOk, FastDec);
    }
    AloneReturn(Take(sh).0, now, lockOk, Take(sh).1);
  }

  lemma AloneTokens(sh: Shared, now: int, lockOk: bool)
    ensures Alone(sh, now, lockOk, RefillBurst) == Alone(sh.(nLeft := sh.burst), now, lockOk, RefillClock)
  {
    hide Alone;
    AloneStep(sh, now, lockOk, RefillBurst);
    AloneStep(sh, now, lockOk, RefillTokens(sh.burst));
  }

  lemma AloneBegin(sh: Shared, now: int, lockOk: bool)
    ensures Alone(sh, now, lockOk, RefillClock) == Alone(sh.(begin := now), now, lockOk, CheckRelease)
  {
    hide Alone;
    AloneStep(sh, now, lockOk, RefillClock);
    AloneStep(sh, now, lockOk, RefillBegin(now));
  }

  lemma AloneRelease(sh: Shared, now: int, lockOk: bool)
    ensures Alone(sh, now, lockOk, CheckRelease) ==
            Alone(sh.(missed := if sh.msgOnRelease then sh.missed else 0), now, lockOk, SlowRead)
  {
    hide Alone;
    AloneStep(sh, now, lockOk, CheckRelease);
    if sh.msgOnRelease {
      assert sh.(missed := sh.missed) == sh;
    } else {
      AloneStep(sh, now, lockOk, ResetMisses);
    }
  }

  lemma AloneRefill(sh: Shared, now: int, lockOk: bool)
    ensures Alone(sh, now, lockOk, RefillBurst) == Alone(Refill(sh, now), now, lockOk, SlowRead)
  {
    hide Alone;
    AloneTokens(sh, now, lockOk);
    AloneBegin(sh.(nLeft := sh.burst), now, lockOk);
    AloneRelease(sh.(nLeft := sh.burst, begin := now), now, lockOk);
  }

  lemma AloneWindow(sh: Shared, now: int, lockOk: bool, interval: int)
    ensures Alone(sh, now, lockOk, ReadBegin(interval)) == Alone(Expire(sh, interval, now), now, lockOk, SlowRead)
  {
    hide Alone, IsBefore, Refill;
    AloneStep(sh, now, lockOk, ReadBegin(interval));
    AloneStep(sh, now, lockOk, CheckWindow(interval, sh.begin));
    AloneRefill(sh, now, lockOk);
  }

  lemma AloneInit(sh: Shared, now: int, lockOk: bool, interval: int)
    ensures Alone(sh, now, lockOk, InitClock(interval)) ==
            Alone(sh.(begin := now, initialized := true), now, lockOk, InitBurst(interval))
  {
    hide Alone;
    AloneStep(sh, now, lockOk, InitClock(interval));
    AloneStep(sh, now, lockOk, InitBegin(interval, now));
    AloneStep(sh.(begin := now), now, lockOk, InitFlag(interval));
  }

  lemma AloneFirstTokens(sh: Shared, now: int, lockOk: bool, interval: int)
    ensures Alone(sh, now, lockOk, InitBurst(interval)) ==
            Alone(sh.(nLeft := sh.burst), now, lockOk, ReadBegin(interval))
  {
    hide Alone;
    AloneStep(sh, now, lockOk, InitBurst(interval));
    AloneStep(sh, now, lockOk, InitTokens(interval, sh.burst));
  }

  lemma AloneOpen(sh: Shared, now: int, lockOk: bool, interval: int)
    ensures Alone(sh, now, lockOk, CheckInit(interval)) == Alone(Open(sh, now), now, lockOk, ReadBegin(interval))
  {
    hide Alone;
    AloneStep(sh, now, lockOk, CheckInit(interval));
    if !sh.initialized {
      AloneInit(sh, now, lockOk, interval);
      AloneFirstTokens(sh.(begin := now, initialized := true), now, lockOk, interval);
    }
  }

  lemma AloneOff(sh: Shared, now: int, lockOk: bool)
    requires sh.interval <= 0 || sh.burst <= 0
    ensures Alone(sh, now, lockOk, OffFlags(sh.interval, sh.burst)) == Call(sh, now, lockOk)
  {
    hide Alone, Account;
    var ret := sh.interval == 0 || sh.burst > 0;
    var cleared := sh.(initialized := false);
    AloneStep(sh, now, lockOk, OffFlags(sh.interval, sh.burst));
    AloneStep(sh, now, lockOk, OffTrylock(ret));
    AloneStep(sh, now, lockOk, OffClear(ret));
    AloneReturn(cleared, now, lockOk, ret);
    AloneReturn(sh, now, lockOk, ret);
  }

  lemma AloneLocked(sh: Shared, now: int)
    requires sh.interval > 0 && sh.burst > 0
    ensures Alone(sh, now, true, Trylock(sh.interval)) == Call(sh, now, true)
  {
    hide Alone, Open, Expire, Take, Account;
    AloneStep(sh, now, true, Trylock(sh.interval));
    AloneOpen(sh, now, true, sh.interval);
    AloneWindow(Open(sh, now), now, true, sh.interval);
    AloneTake(Expire(Open(sh, now), sh.interval, now), now, true);
  }

  lemma AloneUnlocked(sh: Shared, now: int)
    requires sh.interval > 0 && sh.burst > 0
    ensures Alone(sh, now, false, Trylock(sh.interval)) == Call(sh, now, false)
  {
    hide Alone, Take, Account;
    AloneStep(sh, now, false, Trylock(sh.interval));
    AloneStep(sh, now, false, FastFlags);
    AloneReturn(sh, now, false, false);
    AloneTake(sh, now, false);
  }

  /** The small steps compose to the sequential call. */
  lemma AloneIsCall(sh: Shared, now: int, lockOk: bool)
    ensures Alone(sh, now, lockOk, Idle) == Call(sh, now, lockOk)
  {
    hide Alone, Call;
    AloneStep(sh, now, lockOk, Idle);
    AloneStep(sh, now, lockOk, ReadBurst(sh.interval));
    if sh.interval <= 0 || sh.burst <= 0 {
      AloneOff(sh, now, lockOk);
    } else if lockOk {
      AloneLocked(sh, now);
    } else {
      AloneUnlocked(sh, now);
    }
  }

  // ---------- The interleaved system ----------

  /** What has happened: the counter value stored by the last refill and the grants since, the
      calls that returned, those that returned true, and the misses taken away at refills. */
  datatype History = History(capacity: int, spent: int, completed: int, granted: int, harvested: int)

  function Record(h: History, sh: Shared, pc: Pc): History {
    match pc
    case InitTokens(_, burst) => h.(capacity := burst, spent := 0)
    case RefillTokens(burst) => h.(capacity := burst, spent := 0)
    case FastDec => if sh.nLeft - 1 >= 0 then h.(spent := h.spent + 1) else h
    case SlowDec => if sh.nLeft - 1 >= 0 then h.(spent := h.spent + 1) else h
    case ResetMisses => h.(harvested := h.harvested + sh.missed)
    case Finish(ret) => h.(completed := h.completed + 1, granted := h.granted + if ret then 1 else 0)
    case _ => h
  }

  datatype State = State(shared: Shared, now: int, owner: Option<nat>, pcs: map<nat, Pc>, history: History)

  datatype Event =
    | Step(caller: nat, lockOk: bool)
    | Clock(now: int)
    | Configure(interval: int, burst: int)

  function NextOwner(owner: Option<nat>, caller: nat, pc: Pc, next: Pc): Option<nat> {
    if pc.Unlock? then None
    else if !HoldsLock(pc) && HoldsLock(next) then Some(caller)
    else owner
  }

  /** A trylock succeeds only on a free lock, and may fail even then. */
  function Apply(s: State, e: Event): State {
    match e
    case Clock(now) => s.(now := now)
    case Configure(interval, burst) => s.(shared := s.shared.(interval := interval, burst := burst))
    case Step(t, lockOk) =>
      if t !in s.pcs then s else
        var pc := s.pcs[t];
        var (shared, next) := Local(s.shared, s.now, lockOk && s.owner.None?, pc);
        State(shared, s.now, NextOwner(s.owner, t, pc, next), s.pcs[t := next], Record(s.history, s.shared, pc))
  }

  function Run(s: State, events: seq<Event>): State
    decreases |events|
  {
    if events == [] then s else Run(Apply(s, events[0]), events[1..])
  }

  /** A freshly initialised structure with every caller idle. */
  predicate Fresh(s: State) {
    s.shared.nLeft == 0 && s.shared.missed == 0 && !s.shared.initialized && s.owner == None &&
    (forall t | t in s.pcs :: s.pcs[t] == Idle) && s.history == History(0, 0, 0, 0, 0)
  }

  function Positive(n: int): int { if n > 0 then n else 0 }

  /** Every token granted since the last refill came out of that refill. */
  predicate TokensBalance(s: State) {
    s.history.spent == Positive(s.history.capacity) - Positive(s.shared.nLeft) && s.history.spent >= 0
  }

  /** Every completed call was granted, is in the miss counter, or was reported at a refill. */
  predicate CallsBalance(s: State) {
    s.history.completed == s.history.granted + s.shared.missed + s.history.harvested
  }

  /** The callers inside the critical section are exactly the lock's owner. */
  ghost predicate MutualExclusion(s: State) {
    forall t | t in s.pcs :: HoldsLock(s.pcs[t]) <==> s.owner == Some(t)
  }

  ghost predicate Safe(s: State) {
    TokensBalance(s) && CallsBalance(s) && MutualExclusion(s) && (s.owner.Some? ==> s.owner.value in s.pcs)
  }

  /** One access keeps both accounts. */
  lemma StepBalances(s: State, t: nat, lockOk: bool)
    requires TokensBalance(s) && CallsBalance(s) && t in s.pcs
    ensures TokensBalance(Apply(s, Step(t, lockOk))) && CallsBalance(Apply(s, Step(t, lockOk)))
  {
    hide IsBefore, NextOwner;
  }

  /** The lock's hand-over: entering takes it, only Unlock gives it back. */
  lemma LockHandOver(sh: Shared, now: int, lockOk: bool, pc: Pc)
    ensures var next := Local(sh, now, lockOk, pc).1;
            (HoldsLock(next) ==> HoldsLock(pc) || lockOk) && (HoldsLock(pc) && !HoldsLock(next) <==> pc.Unlock?)
  {
    hide IsBefore;
  }

  lemma StepExclusive(s: State, t: nat, lockOk: bool)
    requires MutualExclusion(s) && (s.owner.Some? ==> s.owner.value in s.pcs) && t in s.pcs
    ensures var after := Apply(s, Step(t, lockOk));
            MutualExclusion(after) && (after.owner.Some? ==> after.owner.value in after.pcs)
  {
    hide Local, Record;
    var pc := s.pcs[t];
    var (shared, next) := Local(s.shared, s.now, lockOk && s.owner.None?, pc);
    LockHandOver(s.shared, s.now, lockOk && s.owner.None?, pc);
    var after := Apply(s, Step(t, lockOk));
    assert after.pcs[t] == next;
  }

  lemma StepSafe(s: State, t: nat, lockOk: bool)
    requires Safe(s) && t in s.pcs
    ensures Safe(Apply(s, Step(t, lockOk)))
  {
    hide Apply, TokensBalance, CallsBalance, MutualExclusion;
    StepBalances(s, t, lockOk);
    StepExclusive(s, t, lockOk);
  }

  /** Under every interleaving, from a fresh structure: refills are never overspent, no call is
      lost, and the critical section has at most one caller. */
  lemma {:induction false} AlwaysSafe(s: State, events: seq<Event>)
    requires Safe(s)
    ensures Safe(Run(s, events))
    decreases |events|
  {
    if events != [] {
      match events[0] {
        case Step(t, lockOk) =>
          if t in s.pcs {
            StepSafe(s, t, lockOk);
          }
        case _ =>
      }
      AlwaysSafe(Apply(s, events[0]), events[1..]);
    }
  }

  /** With one positive burst throughout, grants since the last refill are burst - max(nLeft, 0). */
  predicate FixedBurst(burst: int, events: seq<Event>) {
    forall e | e in events && e.Configure? :: e.burst == burst
  }

  /** No other refill is stored, or about to be. */
  ghost predicate OneCapacity(s: State, burst: int) {
    s.shared.burst == burst && (s.history.capacity == 0 || s.history.capacity == burst) &&
    forall t | t in s.pcs :: Held(s.pcs[t], burst) == burst
  }

  lemma StepCapacity(s: State, burst: int, t: nat, lockOk: bool)
    requires OneCapacity(s, burst) && t in s.pcs
    ensures OneCapacity(Apply(s, Step(t, lockOk)), burst)
  {
    hide IsBefore, NextOwner;
  }

  lemma {:induction false} CapacityFixed(s: State, burst: int, events: seq<Event>)
    requires OneCapacity(s, burst) && FixedBurst(burst, events)
    ensures OneCapacity(Run(s, events), burst)
    decreases |events|
  {
    hide OneCapacity, Local, Record;
    if events != [] {
      match events[0] {
        case Step(t, lockOk) =>
          if t in s.pcs {
            StepCapacity(s, burst, t, lockOk);
          }
        case Clock(now) => SameCapacity(s, s.(now := now), burst);
        case Configure(interval, size) =>
          assert events[0] in events;
          SameCapacity(s, s.(shared := s.shared.(interval := interval, burst := size)), burst);
      }
      CapacityFixed(Apply(s, events[0]), burst, events[1..]);
    }
  }

  lemma SameCapacity(s: State, after: State, burst: int)
    requires OneCapacity(s, burst)
    requires after.shared == s.shared || after.shared.burst == burst
    requires after.history == s.history && after.pcs == s.pcs
    ensures OneCapacity(after, burst)
  {
  }

  lemma NeverOverspent(s: State, burst: nat, events: seq<Event>)
    requires Fresh(s) && s.shared.burst == burst && FixedBurst(burst, events)
    ensures var end := Run(s, events);
            var granted := end.history.spent;
            (end.history.capacity == 0 || end.history.capacity == burst) &&
            granted == end.history.capacity - Positive(end.shared.nLeft) &&
            0 <= granted <= burst
  {
    AlwaysSafe(s, events);
    CapacityFixed(s, burst, events);
  }

  lemma NoCallLost(s: State, events: seq<Event>)
    requires Fresh(s)
    ensures var end := Run(s, events);
            end.history.completed == end.history.granted + end.shared.missed + end.history.harvested
  {
    AlwaysSafe(s, events);
  }

  // ---------- How far below zero the counter can go ----------

  ghost function PendingCallers(pcs: map<nat, Pc>): set<nat> {
    set t | t in pcs && Pending(pcs[t])
  }

  /** Fewer decrements can be outstanding than there are callers. */
  ghost predicate Floor(s: State) {
    s.shared.burst >= 0 && (forall t | t in s.pcs :: Held(s.pcs[t], 0) >= 0) &&
    (s.pcs.Keys != {} ==> s.shared.nLeft - |PendingCallers(s.pcs)| >= 1 - |s.pcs.Keys|)
  }

  lemma SubsetSize(a: set<nat>, b: set<nat>)
    requires a <= b
    ensures |a| <= |b|
    ensures a != b ==> |a| < |b|
  {
    assert |b| == |a| + |b - a| by { assert b == a + (b - a); }
    if a != b { assert b - a != {}; }
  }

  lemma PendingChange(pcs: map<nat, Pc>, t: nat, next: Pc)
    requires t in pcs
    ensures |PendingCallers(pcs[t := next])| ==
            |PendingCallers(pcs)| + (if Pending(next) then 1 else 0) - (if Pending(pcs[t]) then 1 else 0)
  {
    var before, after := PendingCallers(pcs), PendingCallers(pcs[t := next]);
    assert before - {t} == after - {t};
    assert |before| == |before - {t}| + if Pending(pcs[t]) then 1 else 0;
    assert |after| == |after - {t}| + if Pending(next) then 1 else 0;
  }

  /** One access either pays for a seen token, sees one, stores a refill, or does neither. */
  lemma AccessFloor(sh: Shared, now: int, lockOk: bool, pc: Pc)
    requires sh.burst >= 0 && Held(pc, 0) >= 0
    ensures var (after, next) := Local(sh, now, lockOk, pc);
            after.burst == sh.burst && Held(next, 0) >= 0 &&
            (|| after.nLeft - (if Pending(next) then 1 else 0) == sh.nLeft - (if Pending(pc) then 1 else 0)
             || (!Pending(next) && after.nLeft >= 0)
             || (!Pending(pc) && after.nLeft == sh.nLeft > 0))
  {
    hide IsBefore;
  }

  lemma StepFloor(s: State, t: nat, lockOk: bool)
    requires Floor(s) && t in s.pcs
    ensures Floor(Apply(s, Step(t, lockOk)))
  {
    hide Local, Record, NextOwner, PendingCallers, Held;
    var pc := s.pcs[t];
    var next := Local(s.shared, s.now, lockOk && s.owner.None?, pc).1;
    AccessFloor(s.shared, s.now, lockOk && s.owner.None?, pc);
    assert s.pcs[t := next].Keys == s.pcs.Keys;
    PendingChange(s.pcs, t, next);
    PendingSize(s.pcs[t := next], t);
    PendingSize(s.pcs, t);
  }

  /** Not all callers are pending when one of them is elsewhere. */
  lemma PendingSize(pcs: map<nat, Pc>, t: nat)
    requires t in pcs
    ensures |PendingCallers(pcs)| <= |pcs.Keys|
    ensures !Pending(pcs[t]) ==> |PendingCallers(pcs)| < |pcs.Keys|
  {
    var pending := PendingCallers(pcs);
    SubsetSize(pending, pcs.Keys);
    assert t in pending <==> Pending(pcs[t]);
  }

  lemma {:induction false} FloorKept(s: State, events: seq<Event>)
    requires Floor(s) && forall e | e in events && e.Configure? :: e.burst >= 0
    ensures Floor(Run(s, events)) && Run(s, events).pcs.Keys == s.pcs.Keys
    decreases |events|
  {
    if events != [] {
      match events[0] {
        case Step(t, lockOk) =>
          if t in s.pcs {
            StepFloor(s, t, lockOk);
          }
        case _ =>
      }
      assert Apply(s, events[0]).pcs.Keys == s.pcs.Keys;
      FloorKept(Apply(s, events[0]), events[1..]);
    }
  }

  /** However the callers interleave, the token counter stays above minus the number of callers and
      at or below the last refill: with at most 2^31 callers the 32-bit counter never wraps. */
  lemma CounterNeverWraps(s: State, events: seq<Event>)
    requires Fresh(s) && s.shared.burst >= 0 && forall e | e in events && e.Configure? :: e.burst >= 0
    requires 0 < |s.pcs.Keys| <= INT_LIMIT
    ensures var end := Run(s, events);
            1 - INT_LIMIT <= 1 - |s.pcs.Keys| <= end.shared.nLeft <= Positive(end.history.capacity)
  {
    assert PendingCallers(s.pcs) == {};
    FloorKept(s, events);
    AlwaysSafe(s, events);
    assert s.pcs.Keys != {};
  }
}
