/** Bounds over whole runs of calls that all get the lock, under one positive burst and
    interval and a clock that never goes back. Times are true times; the limiter itself only
    sees them modulo 2^64. */
module RatelimitWindow {
  import opened Ints
  import opened Ratelimit

  function CallAt(sh: Shared, time: nat): (Shared, bool) {
    Call(sh, time % WORD, true)
  }

  predicate Sorted(times: seq<nat>) {
    forall i, j | 0 <= i < j < |times| :: times[i] <= times[j]
  }

  predicate NotBefore(times: seq<nat>, start: nat) {
    forall i | 0 <= i < |times| :: start <= times[i]
  }

  /** The granted calls of a run that fall into the closed span [from, from + width]. */
  function Grants(sh: Shared, times: seq<nat>, from: nat, width: nat): nat
    decreases |times|
  {
    if times == [] then 0 else
      var (after, ret) := CallAt(sh, times[0]);
      (if ret && from <= times[0] <= from + width then 1 else 0) + Grants(after, times[1..], from, width)
  }

  predicate Configured(sh: Shared) {
    0 < sh.interval < INT_LIMIT && 0 < sh.burst
  }

  /** An open window that began at true time `began` and whose first call already took a token. */
  predicate InWindow(sh: Shared, began: nat) {
    Configured(sh) && sh.initialized && sh.begin == began % WORD && sh.nLeft < sh.burst
  }

  // ---------- The wrapping clock test ----------

  /** The window of a call: how far past its end the call comes, modulo the clock's period. */
  function Late(sh: Shared, began: nat, time: nat): int {
    (time - began - sh.interval) % WORD
  }

  lemma Opposite(d: int)
    ensures d % WORD >= WORD / 2 <==> 1 <= (-d) % WORD <= WORD / 2
    ensures 0 <= d < WORD ==> d % WORD == d
  {
  }

  /** The test only depends on true times. */
  lemma WrappedDifference(began: nat, interval: int, time: nat)
    ensures (began % WORD + interval - time % WORD) % WORD == (began + interval - time) % WORD
  {
    var m := time / WORD - began / WORD;
    assert began % WORD + interval - time % WORD == (began + interval - time) + WORD * m;
    WrapMultiple(began + interval - time, m);
  }

  lemma ExpiryTest(sh: Shared, began: nat, time: nat)
    requires InWindow(sh, began)
    ensures IsBefore(sh.begin, sh.interval, time % WORD) <==> 1 <= Late(sh, began, time) <= WORD / 2
    ensures began <= time && IsBefore(sh.begin, sh.interval, time % WORD) ==> began + sh.interval < time
  {
    var d := began + sh.interval - time;
    WrappedDifference(began, sh.interval, time);
    Opposite(d);
    assert -d == time - began - sh.interval;
  }

  /** What one locked call does to an open window. */
  lemma CallInWindow(sh: Shared, began: nat, time: nat)
    requires InWindow(sh, began)
    ensures var (after, ret) := CallAt(sh, time);
            var refill := 1 <= Late(sh, began, time) <= WORD / 2;
            (ret <==> sh.nLeft > 0 || refill) &&
            InWindow(after, if refill then time else began) &&
            after.interval == sh.interval && after.burst == sh.burst &&
            after.missed == (if refill && !sh.msgOnRelease then 0 else sh.missed) + (if ret then 0 else 1) &&
            after.msgOnRelease == sh.msgOnRelease &&
            after.nLeft == if refill then sh.burst - 1 else if sh.nLeft > 0 then sh.nLeft - 1 else sh.nLeft
  {
    ExpiryTest(sh, began, time);
  }

  /** A call that comes more than `interval` after the window began is granted whenever the clock
      has not run half its period past the window's end. */
  lemma LateCallGranted(sh: Shared, began: nat, time: nat)
    requires InWindow(sh, began) && began + sh.interval < time <= began + sh.interval + WORD / 2
    ensures CallAt(sh, time).1
  {
    CallInWindow(sh, began, time);
  }

  /** For a call after the window's end, with the window's tokens used up, being granted is exactly
      the clock being in the first half of its period since that end. */
  lemma LateCallExactly(sh: Shared, began: nat, time: nat)
    requires InWindow(sh, began) && sh.nLeft <= 0 && began + sh.interval < time
    ensures CallAt(sh, time).1 <==> 1 <= Late(sh, began, time) <= WORD / 2
  {
    CallInWindow(sh, began, time);
  }

  /** One tick past that half period the late call is refused: the plain claim fails there, in a
      state that one call on an unused structure leaves. */
  lemma LateCallRefused()
    ensures var sh := CallAt(Shared(5, 1, false, false, 0, 0, 0), 0).0;
            sh == Shared(5, 1, true, false, 0, 0, 0) && InWindow(sh, 0) &&
            0 + sh.interval < 6 + WORD / 2 && !CallAt(sh, 6 + WORD / 2).1
  {
    CallInWindow(Shared(5, 1, true, false, 0, 0, 0), 0, 6 + WORD / 2);
  }

  // ---------- At most 2 * burst - 1 grants in any span of one interval ----------

  function Tokens(sh: Shared): nat {
    if sh.nLeft > 0 then sh.nLeft else 0
  }

  /** A window that began inside the span cannot expire inside it. */
  lemma {:induction false} GrantsFromInside(sh: Shared, began: nat, times: seq<nat>, from: nat)
    requires InWindow(sh, began) && Sorted(times) && from <= began
    requires NotBefore(times, began)
    ensures Grants(sh, times, from, sh.interval) <= Tokens(sh)
    decreases |times|
  {
    if times != [] {
      CallInWindow(sh, began, times[0]);
      ExpiryTest(sh, began, times[0]);
      var after := CallAt(sh, times[0]).0;
      if 1 <= Late(sh, began, times[0]) <= WORD / 2 {
        GrantsAfterSpan(after, times[1..], from, sh.interval);
      } else {
        GrantsFromInside(after, began, times[1..], from);
      }
    }
  }

  lemma {:induction false} GrantsAfterSpan(sh: Shared, times: seq<nat>, from: nat, width: nat)
    requires NotBefore(times, from + width + 1)
    ensures Grants(sh, times, from, width) == 0
    decreases |times|
  {
    if times != [] {
      GrantsAfterSpan(CallAt(sh, times[0]).0, times[1..], from, width);
    }
  }

  /** Once the span has begun: the tokens left, and one more refill. */
  lemma {:induction false} GrantsWithinSpan(sh: Shared, began: nat, times: seq<nat>, from: nat)
    requires InWindow(sh, began) && Sorted(times)
    requires NotBefore(times, began) && NotBefore(times, from)
    ensures Grants(sh, times, from, sh.interval) <= Tokens(sh) + sh.burst
    decreases |times|
  {
    if times != [] {
      CallInWindow(sh, began, times[0]);
      var after := CallAt(sh, times[0]).0;
      if 1 <= Late(sh, began, times[0]) <= WORD / 2 {
        GrantsFromInside(after, times[0], times[1..], from);
      } else {
        GrantsWithinSpan(after, began, times[1..], from);
      }
    }
  }

  lemma {:induction false} GrantsInWindow(sh: Shared, began: nat, times: seq<nat>, from: nat)
    requires InWindow(sh, began) && Sorted(times)
    requires NotBefore(times, began)
    ensures Grants(sh, times, from, sh.interval) <= 2 * sh.burst - 1
    decreases |times|
  {
    if times != [] {
      CallInWindow(sh, began, times[0]);
      if from <= times[0] {
        GrantsWithinSpan(sh, began, times, from);
      } else {
        var refill := 1 <= Late(sh, began, times[0]) <= WORD / 2;
        GrantsInWindow(CallAt(sh, times[0]).0, if refill then times[0] else began, times[1..], from);
      }
    }
  }

  lemma FirstCall(sh: Shared, time: nat)
    requires Configured(sh) && !sh.initialized
    ensures var (after, ret) := CallAt(sh, time);
            ret && InWindow(after, time) && after.nLeft == sh.burst - 1 &&
            after.interval == sh.interval && after.burst == sh.burst
  {
  }

  /** Any run from an unused structure, over any closed span of length `interval`. */
  lemma SpanBound(sh: Shared, times: seq<nat>, from: nat)
    requires Configured(sh) && !sh.initialized && Sorted(times)
    ensures Grants(sh, times, from, sh.interval) <= 2 * sh.burst - 1
  {
    if times != [] {
      FirstCall(sh, times[0]);
      var after := CallAt(sh, times[0]).0;
      if from <= times[0] {
        GrantsFromInside(after, times[0], times[1..], from);
      } else {
        GrantsInWindow(after, times[0], times[1..], from);
      }
    }
  }

  // ---------- The bound is reached for every burst and interval ----------

  function Repeat(time: nat, n: nat): seq<nat> {
    if n == 0 then [] else [time] + Repeat(time, n - 1)
  }

  lemma {:induction false} GrantsRepeat(sh: Shared, began: nat, time: nat, n: nat, rest: seq<nat>, from: nat)
    requires InWindow(sh, began) && began <= time <= began + sh.interval && from <= time <= from + sh.interval
    requires n == sh.nLeft
    ensures Grants(sh, Repeat(time, n) + rest, from, sh.interval) == n + Grants(Drained(sh), rest, from, sh.interval)
    decreases n
  {
    var times := Repeat(time, n) + rest;
    if n == 0 {
      assert times == rest && Drained(sh) == sh;
    } else {
      CallInWindow(sh, began, time);
      ExpiryTest(sh, began, time);
      var after := CallAt(sh, time).0;
      assert times[0] == time && times[1..] == Repeat(time, n - 1) + rest;
      GrantsRepeat(after, began, time, n - 1, rest, from);
      assert Drained(after) == Drained(sh);
    }
  }

  function Drained(sh: Shared): Shared { sh.(nLeft := 0) }

  /** One call at time 0, the rest of the burst at the window's last tick, a burst right after. */
  function WorstRun(burst: nat, interval: nat): seq<nat>
    requires burst > 0
  {
    [0] + (Repeat(interval, burst - 1) + ([interval + 1] + Repeat(interval + 1, burst - 1)))
  }

  lemma RepeatAt(time: nat, n: nat)
    ensures |Repeat(time, n)| == n && forall i | 0 <= i < n :: Repeat(time, n)[i] == time
  {
  }

  lemma WorstRunSorted(burst: nat, interval: nat)
    requires burst > 0
    ensures Sorted(WorstRun(burst, interval))
  {
    hide Repeat;
    RepeatAt(interval, burst - 1);
    RepeatAt(interval + 1, burst - 1);
  }

  /** The run after its first call. */
  lemma WorstRest(first: Shared, burst: nat)
    requires InWindow(first, 0) && first.burst == burst && first.nLeft == burst - 1
    ensures Grants(first, WorstRun(burst, first.interval)[1..], 1, first.interval) == 2 * burst - 1
  {
    hide CallAt, Repeat, Late;
    var n, i := burst - 1, first.interval;
    var tail := [i + 1] + Repeat(i + 1, n);
    GrantsRepeat(first, 0, i, n, tail, 1);
    assert WorstRun(burst, i)[1..] == Repeat(i, n) + tail;
    WorstTail(Drained(first));
  }

  lemma WorstTail(drained: Shared)
    requires InWindow(drained, 0) && drained.nLeft == 0
    ensures var i, n := drained.interval, drained.burst - 1;
            Grants(drained, [i + 1] + Repeat(i + 1, n), 1, i) == n + 1
  {
    hide Repeat, CallAt, Grants;
    var n, i := drained.burst - 1, drained.interval;
    var tail := [i + 1] + Repeat(i + 1, n);
    CallInWindow(drained, 0, i + 1);
    var refilled := CallAt(drained, i + 1).0;
    GrantsRepeat(refilled, i + 1, i + 1, n, [], 1);
    assert tail[0] == i + 1 && tail[1..] == Repeat(i + 1, n) + [];
    GrantsStep(drained, tail, 1, i);
    GrantsNone(Drained(refilled), 1, i);
  }

  lemma GrantsStep(sh: Shared, times: seq<nat>, from: nat, width: nat)
    requires times != []
    ensures var (after, ret) := CallAt(sh, times[0]);
            Grants(sh, times, from, width) ==
            (if ret && from <= times[0] <= from + width then 1 else 0) + Grants(after, times[1..], from, width)
  {
    hide CallAt;
  }

  lemma GrantsNone(sh: Shared, from: nat, width: nat)
    ensures Grants(sh, [], from, width) == 0
  {
  }

  /** The run has a clock that never goes back, and meets the bound. */
  lemma SpanBoundReached(sh: Shared)
    requires Configured(sh) && !sh.initialized
    ensures Sorted(WorstRun(sh.burst, sh.interval))
    ensures Grants(sh, WorstRun(sh.burst, sh.interval), 1, sh.interval) == 2 * sh.burst - 1
  {
    hide CallAt, Repeat, InWindow;
    WorstRunSorted(sh.burst, sh.interval);
    FirstCall(sh, 0);
    WorstRest(CallAt(sh, 0).0, sh.burst);
  }
}
