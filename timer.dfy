/** The countdown `Timer` of the game.

    The browser's `setInterval`/`clearInterval` are modelled by two fields:
    `running` says whether the interval whose handle the timer currently holds
    is live, and `orphans` counts intervals that are still live but whose
    handle was overwritten by a later `setInterval`, so that no `clearInterval`
    can ever reach them. One call of `RunTimer` is one firing of a live
    interval. The expiry callback (`action`) is not stored: `RunTimer` reports
    whether it would have been invoked and the owner invokes it. */
module Timers {

  datatype TimerState = TimerState(secondsLimit: int, secondsLeft: int, running: bool, orphans: nat)

  /** What every reachable timer satisfies: the limit is never negative, the
      countdown never exceeds it, and a positive limit keeps the countdown
      positive (a zero limit lets it run below zero, see `ZeroLimitNeverFires`). */
  predicate Inv(t: TimerState)
  {
    t.secondsLimit >= 0 && t.secondsLeft <= t.secondsLimit &&
    (t.secondsLimit > 0 ==> t.secondsLeft > 0)
  }

  /** Some interval is live, so `runTimer` will be called again. */
  predicate Live(t: TimerState)
  {
    t.running || t.orphans > 0
  }

  /** `this.interval = window.setInterval(...)`: a new live interval replaces
      the stored handle; a handle that was still live is lost, not cleared. */
  function Armed(t: TimerState): (r: TimerState)
    ensures r.running && Live(r)
    ensures r.orphans == if t.running then t.orphans + 1 else t.orphans
    ensures r.secondsLimit == t.secondsLimit && r.secondsLeft == t.secondsLeft
  {
    t.(running := true, orphans := if t.running then t.orphans + 1 else t.orphans)
  }

  /** `pauseTimer`: clears the stored interval only. */
  function Paused(t: TimerState): (r: TimerState)
    ensures !r.running && r.orphans == t.orphans
    ensures r.secondsLimit == t.secondsLimit && r.secondsLeft == t.secondsLeft
  {
    t.(running := false)
  }

  /** `setSeconds(seconds)`. A negative value is rejected by stopping the
      timer, which in turn sets the seconds back to the (non-negative) limit. */
  function WithSeconds(t: TimerState, seconds: int): (r: TimerState)
    requires t.secondsLimit >= 0
    decreases if seconds < 0 then 2 else 0
    ensures seconds >= 0 ==> r == t.(secondsLimit := seconds, secondsLeft := seconds)
    ensures seconds < 0 ==> r == t.(running := false, secondsLeft := t.secondsLimit)
  {
    if seconds < 0 then Stopped(t)
    else t.(secondsLimit := seconds, secondsLeft := seconds)
  }

  /** `stopTimer`: pause, then `setSeconds(secondsLimit)`. */
  function Stopped(t: TimerState): (r: TimerState)
    requires t.secondsLimit >= 0
    decreases 1
    ensures !r.running && r.orphans == t.orphans
    ensures r.secondsLimit == t.secondsLimit && r.secondsLeft == t.secondsLimit
  {
    WithSeconds(Paused(t), t.secondsLimit)
  }

  /** `startTimer(seconds)`: `setSeconds` and then a new interval, even when
      `setSeconds` rejected the value. */
  function Started(t: TimerState, seconds: int): (r: TimerState)
    requires t.secondsLimit >= 0
    ensures r.running
    ensures seconds >= 0 ==> r.secondsLimit == seconds && r.secondsLeft == seconds
    ensures seconds < 0 ==> r.secondsLimit == t.secondsLimit && r.secondsLeft == t.secondsLimit
    ensures r.orphans == if seconds >= 0 && t.running then t.orphans + 1 else t.orphans
  {
    Armed(WithSeconds(t, seconds))
  }

  /** `continueTimer`: a new interval, without looking at whether one runs. */
  function Continued(t: TimerState): (r: TimerState)
    ensures r.running && r.orphans == if t.running then t.orphans + 1 else t.orphans
    ensures r.secondsLimit == t.secondsLimit && r.secondsLeft == t.secondsLeft
  {
    Armed(t)
  }

  /** `runTimer`: one tick. The second component says whether the tick
      reached exactly zero, stopped the timer and invoked the callback. */
  function Ticked(t: TimerState): (r: (TimerState, bool))
    requires t.secondsLimit >= 0
    ensures r.1 <==> t.secondsLeft == 1
    ensures r.1 ==> r.0 == Stopped(t)
    ensures !r.1 ==> r.0 == t.(secondsLeft := t.secondsLeft - 1)
    ensures Inv(t) ==> Inv(r.0)
  {
    var d := t.(secondsLeft := t.secondsLeft - 1);
    if d.secondsLeft == 0 then (Stopped(d), true) else (d, false)
  }

  /** `k` ticks in a row: the final state and how often the callback fired. */
  function Ticks(t: TimerState, k: nat): (r: (TimerState, nat))
    requires t.secondsLimit >= 0
    decreases k
    ensures r.0.secondsLimit == t.secondsLimit
  {
    if k == 0 then (t, 0)
    else
      var (t1, fired) := Ticked(t);
      var (tk, n) := Ticks(t1, k - 1);
      (tk, n + if fired then 1 else 0)
  }

  lemma PausePreservesCountdown(t: TimerState)
    ensures !Paused(t).running
    ensures Paused(t).secondsLeft == t.secondsLeft && Paused(t).secondsLimit == t.secondsLimit
    ensures Paused(Paused(t)) == Paused(t)
  {
  }

  /** Every operation keeps the timer invariant. */
  lemma InvPreserved(t: TimerState, seconds: int)
    requires Inv(t)
    ensures Inv(Paused(t)) && Inv(Stopped(t)) && Inv(Continued(t))
    ensures Inv(WithSeconds(t, seconds)) && Inv(Started(t, seconds)) && Inv(Ticked(t).0)
  {
  }

  /** From a positive countdown, the first `secondsLeft - 1` ticks only count
      down and the next one fires the callback, once, and stops the timer. */
  lemma {:induction false} CountdownFiresOnce(t: TimerState, k: nat)
    requires Inv(t) && t.secondsLeft > 0 && k <= t.secondsLeft
    ensures k < t.secondsLeft ==> Ticks(t, k) == (t.(secondsLeft := t.secondsLeft - k), 0)
    ensures k == t.secondsLeft ==> Ticks(t, k) == (Stopped(t), 1)
    decreases k
  {
    if k > 0 {
      var t1 := Ticked(t).0;
      if t.secondsLeft == 1 {
        assert Ticks(t1, 0) == (t1, 0);
      } else {
        CountdownFiresOnce(t1, k - 1);
        assert t1 == t.(secondsLeft := t.secondsLeft - 1);
      }
    }
  }

  /** `startTimer(n)` with `n > 0` followed by `n` ticks: the callback fires
      exactly once, on the last tick, and never before it. */
  lemma StartThenCountdown(t: TimerState, n: nat, k: nat)
    requires Inv(t) && n > 0 && k <= n
    ensures Ticks(Started(t, n), k).1 == if k == n then 1 else 0
    ensures k < n ==> Ticks(Started(t, n), k).0.secondsLeft == n - k
    ensures k == n ==> !Ticks(Started(t, n), k).0.running
  {
    CountdownFiresOnce(Started(t, n), k);
  }

  /** `setSeconds(0)` is accepted, but a tick from zero or below goes further
      below zero, never equals zero again, and so the callback never fires. */
  lemma {:induction false} ZeroLimitNeverFires(t: TimerState, k: nat)
    requires t.secondsLimit >= 0 && t.secondsLeft <= 0
    ensures Ticks(t, k).1 == 0
    ensures Ticks(t, k).0.secondsLeft == t.secondsLeft - k
    decreases k
  {
    if k > 0 {
      ZeroLimitNeverFires(Ticked(t).0, k - 1);
    }
  }

  /** `continueTimer` while already running loses the running interval: a
      pause afterwards still leaves an interval ticking. */
  lemma ContinueWhileRunningLeaks(t: TimerState)
    requires t.running
    ensures Live(Paused(Continued(t)))
    ensures Paused(Continued(t)).orphans == t.orphans + 1
  {
  }

  class Timer {
    var secondsLimit: int
    var secondsLeft: int
    var running: bool
    var orphans: nat

    function State(): TimerState
      reads this
    {
      TimerState(secondsLimit, secondsLeft, running, orphans)
    }

    ghost predicate Valid()
      reads this
    {
      Inv(State())
    }

    /** `new Timer(secondsLimit, action)`; the only caller passes the
        configured limit, which is not negative. */
    constructor (seconds: int)
      requires seconds >= 0
      ensures Valid() && State() == TimerState(seconds, seconds, false, 0)
    {
      secondsLimit, secondsLeft, running, orphans := 0, 0, false, 0;
      new;
      SetSeconds(seconds);
    }

    method RunTimer() returns (fired: bool)
      requires Valid()
      modifies this
      ensures Valid()
      ensures (State(), fired) == Ticked(old(State()))
    {
      secondsLeft := secondsLeft - 1;
      fired := secondsLeft == 0;
      if fired {
        StopTimer();
      }
    }

    method StartTimer(seconds: int)
      requires Valid()
      modifies this
      ensures Valid() && State() == Started(old(State()), seconds)
    {
      SetSeconds(seconds);
      if running {
        orphans := orphans + 1;
      }
      running := true;
    }

    method ContinueTimer()
      requires Valid()
      modifies this
      ensures Valid() && State() == Continued(old(State()))
    {
      if running {
        orphans := orphans + 1;
      }
      running := true;
    }

    method PauseTimer()
      modifies this
      ensures State() == Paused(old(State()))
    {
      running := false;
    }

    method StopTimer()
      requires secondsLimit >= 0
      modifies this
      decreases 1
      ensures Valid() && State() == Stopped(old(State()))
    {
      PauseTimer();
      SetSeconds(secondsLimit);
    }

    method SetSeconds(seconds: int)
      requires secondsLimit >= 0
      modifies this
      decreases if seconds < 0 then 2 else 0
      ensures Valid() && State() == WithSeconds(old(State()), seconds)
    {
      if seconds < 0 {
        StopTimer();
        return;
      }
      secondsLimit := seconds;
      secondsLeft := seconds;
    }
  }
}
