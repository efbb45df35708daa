/** What whole runs of calls are answered, with the lock or without it: when the limiter is
    switched off, and inside one window. */
module RatelimitRuns {
  import opened Ints
  import opened Ratelimit
  import opened RatelimitWindow

  /** One call at a true time, whose trylock succeeds or not. */
  datatype Attempt = Attempt(time: nat, lockOk: bool)

  /** The answers of a run, in order, and the structure after it. */
  function Serve(sh: Shared, calls: seq<Attempt>): (end: (Shared, seq<bool>))
    ensures |end.1| == |calls|
    decreases |calls|
  {
    if calls == [] then (sh, []) else
      var (after, ret) := Call(sh, calls[0].time % WORD, calls[0].lockOk);
      var (last, rets) := Serve(after, calls[1..]);
      (last, [ret] + rets)
  }

  predicate AllAnswered(rets: seq<bool>, ret: bool) {
    forall i | 0 <= i < |rets| :: rets[i] == ret
  }

  /** Some call of the run got the lock. */
  predicate SomeLocked(calls: seq<Attempt>) {
    exists i | 0 <= i < |calls| :: calls[i].lockOk
  }

  function CountGranted(rets: seq<bool>): nat {
    if rets == [] then 0 else (if rets[0] then 1 else 0) + CountGranted(rets[1..])
  }

  // ---------- Switched off ----------

  /** An interval or a burst that is not positive. */
  lemma {:induction false} DisabledRun(sh: Shared, calls: seq<Attempt>, granted: bool)
    requires sh.interval <= 0 || sh.burst <= 0
    requires granted == (sh.interval == 0 || sh.burst > 0)
    ensures var (after, rets) := Serve(sh, calls);
            AllAnswered(rets, granted) &&
            after == sh.(
              missed := sh.missed + (if granted then 0 else |calls|),
              initialized := sh.initialized && (!SomeLocked(calls) || (sh.interval == 0 && sh.burst == 0)))
    decreases |calls|
  {
    if calls != [] {
      var next := Call(sh, calls[0].time % WORD, calls[0].lockOk).0;
      DisabledRun(next, calls[1..], granted);
      SomeLockedSplit(calls);
    }
  }

  lemma SomeLockedSplit(calls: seq<Attempt>)
    requires calls != []
    ensures SomeLocked(calls) <==> calls[0].lockOk || SomeLocked(calls[1..])
  {
    if SomeLocked(calls) {
      var i :| 0 <= i < |calls| && calls[i].lockOk;
      assert i > 0 ==> calls[1..][i - 1] == calls[i];
    }
    if SomeLocked(calls[1..]) {
      var j :| 0 <= j < |calls| - 1 && calls[1..][j].lockOk;
      assert calls[j + 1].lockOk;
    }
  }

  /** With interval zero, or a negative interval and a positive burst, every call of every run is
      granted, and nothing changes but the flag: a call that gets the lock clears it, unless both
      are zero. */
  lemma UnlimitedRun(sh: Shared, calls: seq<Attempt>)
    requires sh.interval == 0 || (sh.interval < 0 && sh.burst > 0)
    ensures var (after, rets) := Serve(sh, calls);
            AllAnswered(rets, true) && after.missed == sh.missed &&
            after == sh.(initialized := after.initialized) &&
            (after.initialized <==> sh.initialized && (!SomeLocked(calls) || (sh.interval == 0 && sh.burst == 0)))
  {
    DisabledRun(sh, calls, true);
  }

  /** With a burst that is not positive and an interval that is not zero, no call of any run is
      granted; each is counted as missed, and one that gets the lock clears the flag. */
  lemma RefusedRun(sh: Shared, calls: seq<Attempt>)
    requires sh.interval != 0 && sh.burst <= 0
    ensures var (after, rets) := Serve(sh, calls);
            AllAnswered(rets, false) && after.missed == sh.missed + |calls| &&
            after == sh.(missed := after.missed, initialized := after.initialized) &&
            (after.initialized <==> sh.initialized && !SomeLocked(calls))
  {
    DisabledRun(sh, calls, false);
  }

  // ---------- Switched on, and no refill ----------

  /** No call of the run both gets the lock and comes after the window that began at `began`. */
  predicate NoRefill(calls: seq<Attempt>, began: nat, interval: int) {
    forall i | 0 <= i < |calls| && calls[i].lockOk :: began <= calls[i].time <= began + interval
  }

  lemma NotExpired(sh: Shared, began: nat, time: nat)
    requires sh.begin == began % WORD && 0 < sh.interval < INT_LIMIT && began <= time <= began + sh.interval
    ensures !IsBefore(sh.begin, sh.interval, time % WORD)
  {
    WrappedDifference(began, sh.interval, time);
    Opposite(began + sh.interval - time);
  }

  /** One call that does not refill takes a token if one is left. */
  lemma CallTakes(sh: Shared, began: nat, call: Attempt)
    requires 0 < sh.interval < INT_LIMIT && sh.burst > 0 && sh.initialized
    requires call.lockOk ==> sh.begin == began % WORD && began <= call.time <= began + sh.interval
    ensures Call(sh, call.time % WORD, call.lockOk) ==
            if sh.nLeft > 0 then (sh.(nLeft := sh.nLeft - 1), true) else (sh.(missed := sh.missed + 1), false)
  {
    hide IsBefore;
    if call.lockOk {
      NotExpired(sh, began, call.time);
    }
  }

  /** In an open window, whether or not they get the lock, the first calls are granted while tokens
      last, and the others are missed. */
  lemma {:induction false} WindowRun(sh: Shared, began: nat, calls: seq<Attempt>)
    requires 0 < sh.interval < INT_LIMIT && sh.burst > 0 && sh.initialized
    requires SomeLocked(calls) ==> sh.begin == began % WORD
    requires NoRefill(calls, began, sh.interval)
    ensures var (after, rets) := Serve(sh, calls);
            var granted := if sh.nLeft <= 0 then 0 else if sh.nLeft < |calls| then sh.nLeft else |calls|;
            (forall i | 0 <= i < |calls| :: rets[i] <==> i < granted) && CountGranted(rets) == granted &&
            after == sh.(nLeft := sh.nLeft - granted, missed := sh.missed + (|calls| - granted))
    decreases |calls|
  {
    hide Call, SomeLocked;
    if calls != [] {
      SomeLockedSplit(calls);
      CallTakes(sh, began, calls[0]);
      WindowRun(Call(sh, calls[0].time % WORD, calls[0].lockOk).0, began, calls[1..]);
    }
  }

  /** Calls that miss the lock on an open window: m of them grant exactly min(m, max(nLeft, 0)). */
  lemma UnlockedRun(sh: Shared, calls: seq<Attempt>)
    requires 0 < sh.interval < INT_LIMIT && sh.burst > 0 && sh.initialized && !SomeLocked(calls)
    ensures CountGranted(Serve(sh, calls).1) ==
            if sh.nLeft <= 0 then 0 else if sh.nLeft < |calls| then sh.nLeft else |calls|
  {
    WindowRun(sh, 0, calls);
  }

  /** Before the first call that gets the lock, none is granted. */
  lemma {:induction false} UnopenedRun(sh: Shared, calls: seq<Attempt>)
    requires 0 < sh.interval && sh.burst > 0 && !sh.initialized && !SomeLocked(calls)
    ensures var (after, rets) := Serve(sh, calls);
            AllAnswered(rets, false) && after == sh.(missed := sh.missed + |calls|)
    decreases |calls|
  {
    if calls != [] {
      SomeLockedSplit(calls);
      UnopenedRun(Call(sh, calls[0].time % WORD, calls[0].lockOk).0, calls[1..]);
    }
  }

  /** The call that opens a window, and all others in it: burst grants, and then misses. */
  lemma FirstWindow(sh: Shared, began: nat, calls: seq<Attempt>)
    requires 0 < sh.interval < INT_LIMIT && sh.burst > 0 && !sh.initialized
    requires calls != [] && calls[0] == Attempt(began, true) && NoRefill(calls, began, sh.interval)
    ensures var (after, rets) := Serve(sh, calls);
            var granted := if sh.burst < |calls| then sh.burst else |calls|;
            (forall i | 0 <= i < |calls| :: rets[i] <==> i < granted) &&
            after == sh.(initialized := true, begin := began % WORD, nLeft := sh.burst - granted,
                         missed := sh.missed + (|calls| - granted))
  {
    hide Call, SomeLocked;
    var next := Call(sh, began % WORD, true).0;
    OpeningCall(sh, began);
    WindowRun(next, began, calls[1..]);
  }

  lemma OpeningCall(sh: Shared, began: nat)
    requires 0 < sh.interval < INT_LIMIT && sh.burst > 0 && !sh.initialized
    ensures Call(sh, began % WORD, true) ==
            (sh.(initialized := true, begin := began % WORD, nLeft := sh.burst - 1), true)
  {
    hide IsBefore;
    NotExpired(sh.(begin := began % WORD), began, began);
  }
}
