/** The rate limiter: one call taken as a whole, on a shared struct updated in place. */
module Ratelimit {
  import opened Ints

  /** The fields of the shared structure. The two flag bits are separate booleans. */
  datatype Shared = Shared(
    interval: int,
    burst: int,
    initialized: bool,
    msgOnRelease: bool,
    begin: int,
    nLeft: int,
    missed: int)

  /** The wrapping clock test: begin + interval lies before now as a signed 64-bit difference. */
  predicate IsBefore(begin: int, interval: int, now: int) {
    (begin + interval - now) % WORD >= WORD / 2
  }

  /** Take a token if one is left. */
  function Take(sh: Shared): (Shared, bool) {
    if sh.nLeft > 0 then (sh.(nLeft := sh.nLeft - 1), sh.nLeft - 1 >= 0) else (sh, false)
  }

  /** The window start: first use, then expiry. */
  function Open(sh: Shared, now: int): Shared {
    if sh.initialized then sh else sh.(begin := now, initialized := true, nLeft := sh.burst)
  }

  function Refill(sh: Shared, now: int): Shared {
    sh.(nLeft := sh.burst, begin := now, missed := if sh.msgOnRelease then sh.missed else 0)
  }

  function Expire(sh: Shared, interval: int, now: int): Shared {
    if IsBefore(sh.begin, interval, now) then Refill(sh, now) else sh
  }

  /** A refused call is counted. */
  function Account(sh: Shared, ret: bool): (Shared, bool) {
    (if ret then sh else sh.(missed := sh.missed + 1), ret)
  }

  /** One call, at clock value now, whose trylock succeeds or not. */
  function Call(sh: Shared, now: int, lockOk: bool): (Shared, bool) {
    if sh.interval <= 0 || sh.burst <= 0 then
      var ret := sh.interval == 0 || sh.burst > 0;
      if !sh.initialized || (sh.interval == 0 && sh.burst == 0) || !lockOk then
        Account(sh, ret)
      else
        Account(sh.(initialized := false), ret)
    else if !lockOk then
      var (after, ret) := if sh.initialized then Take(sh) else (sh, false);
      Account(after, ret)
    else
      var (after, ret) := Take(Expire(Open(sh, now), sh.interval, now));
      Account(after, ret)
  }

  class RatelimitState {
    var interval: int
    var burst: int
    var initialized: bool
    var msgOnRelease: bool
    var begin: int
    var nLeft: int
    var missed: int

    function View(): Shared
      reads this
    {
      Shared(interval, burst, initialized, msgOnRelease, begin, nLeft, missed)
    }

    constructor (interval: int, burst: int)
      ensures View() == Shared(interval, burst, false, false, 0, 0, 0)
    {
      this.interval, this.burst := interval, burst;
      initialized, msgOnRelease := false, false;
      begin, nLeft, missed := 0, 0, 0;
    }

    /** Atomically read, then decrement; the decrement decides. */
    method TakeToken() returns (ret: bool)
      modifies this`nLeft
      ensures (View(), ret) == Take(old(View()))
    {
      ret := false;
      if nLeft > 0 {
        nLeft := nLeft - 1;
        ret := nLeft >= 0;
      }
    }

    method Limit(jiffies: int, trylock: bool) returns (ret: bool)
      modifies this
      ensures (View(), ret) == Call(old(View()), jiffies, trylock)
    {
      var interval, burst := this.interval, this.burst;
      ret := false;
      if interval <= 0 || burst <= 0 {
        ret := interval == 0 || burst > 0;
        if initialized && !(interval == 0 && burst == 0) && trylock {
          initialized := false;
        }
      } else if !trylock {
        if initialized {
          ret := TakeToken();
        }
      } else {
        if !initialized {
          begin := jiffies;
          initialized := true;
          nLeft := this.burst;
        }
        if IsBefore(begin, interval, jiffies) {
          nLeft := this.burst;
          begin := jiffies;
          if !msgOnRelease {
            missed := 0;
          }
        }
        ret := TakeToken();
      }
      if !ret {
        missed := missed + 1;
      }
    }
  }
}
