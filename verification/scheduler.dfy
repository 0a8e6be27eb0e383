/** The periodic timer of app.js `start`: the handle held in `timerId` and the
    set of intervals the browser keeps running. Handles come from a counter
    that starts at 1, as browsers hand out positive integers. */
module Scheduler {
  import opened Options

  datatype Timers = Timers(timerId: Option<int>, active: set<int>, next: int)

  /** No timer yet, as on page load. */
  const NoTimers: Timers := Timers(None, {}, 1)

  /** The invariant `start` keeps: the only running interval is the one whose
      handle is remembered, and every handle handed out is positive and below
      the counter. */
  predicate Consistent(t: Timers) {
    && t.next >= 1
    && t.active == (if t.timerId.Some? then {t.timerId.value} else {})
    && (t.timerId.Some? ==> 1 <= t.timerId.value < t.next)
  }

  /** `clearInterval(h)`: the interval stops; an unknown handle is ignored. */
  function ClearInterval(t: Timers, h: int): (t': Timers)
    ensures t'.active == t.active - {h}
    ensures t'.timerId == t.timerId && t'.next == t.next
  {
    t.(active := t.active - {h})
  }

  /** `setInterval`: a fresh handle, now running. */
  function SetInterval(t: Timers): (r: (Timers, int))
    ensures r.1 == t.next && r.0.next == t.next + 1
    ensures r.0.active == t.active + {r.1}
    ensures r.0.timerId == t.timerId
  {
    (t.(active := t.active + {t.next}, next := t.next + 1), t.next)
  }

  /** The timer part of `start`: clear the remembered interval if the handle
      is truthy (non-zero), then install a new one and remember it. */
  function Restart(t: Timers): (t': Timers)
    ensures t'.timerId == Some(t.next) && t'.next == t.next + 1
    ensures t.timerId.Some? && t.timerId.value != 0 ==>
              t'.active == t.active - {t.timerId.value} + {t.next}
    ensures t.timerId.None? || t.timerId.value == 0 ==> t'.active == t.active + {t.next}
  {
    var cleared := if t.timerId.Some? && t.timerId.value != 0
                   then ClearInterval(t, t.timerId.value) else t;
    var (installed, h) := SetInterval(cleared);
    installed.(timerId := Some(h))
  }

  /** From a consistent state, exactly one interval runs after a restart, it
      is the new one, and the earlier one has been stopped. */
  lemma RestartSingle(t: Timers)
    requires Consistent(t)
    ensures Consistent(Restart(t))
    ensures Restart(t).active == {t.next}
    ensures |Restart(t).active| == 1
    ensures t.timerId.Some? ==> t.timerId.value !in Restart(t).active
  {
  }

  /** Restarting twice in a row still leaves a single interval: the second
      restart stops the first one's timer. */
  lemma RestartTwiceSingle(t: Timers)
    requires Consistent(t)
    ensures |Restart(Restart(t)).active| == 1
    ensures Restart(Restart(t)).active == {t.next + 1}
  {
    RestartSingle(t);
    RestartSingle(Restart(t));
  }

  /** Consistency is what the handle counter is for: a handle of 0 would not
      be cleared, and two intervals would then run at once. */
  lemma ZeroHandleLeaks()
    ensures |Restart(Timers(Some(0), {0}, 1)).active| == 2
  {
    assert Restart(Timers(Some(0), {0}, 1)).active == {0, 1};
  }
}
