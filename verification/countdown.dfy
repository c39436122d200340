/**
 The countdown held in script.js's module-level variables: `timeLeft` (seconds), `isRunning`, and
 the `setInterval` handle `timer`.

 The specification is a pure state machine over `TimerState`: `Step` gives the effect of one
 event (a click on start, one firing of the interval callback, a click on reset) and `Run` the
 effect of a sequence of them. The class `Timer` holds the same state in fields and its methods
 are proved to perform exactly `Step`. The interval handle is modelled by a count of interval
 loops that are scheduled; real timing is not modelled, a tick is one firing of the callback.
 */
module Countdown {
  import Clock
  import opened Optional

  /** 25 minutes: the initial value of `timeLeft` and the value reset restores. */
  const SessionSeconds: int := 25 * 60

  /** `intervals` counts the `setInterval` loops currently scheduled. */
  datatype TimerState = TimerState(timeLeft: int, isRunning: bool, intervals: nat)

  datatype Event = Start | Tick | Reset

  /** The state when the page loads. */
  const Initial := TimerState(SessionSeconds, false, 0)

  /** What holds of every state the timer can reach: the time is within one session, and exactly one loop is scheduled while running and none otherwise. */
  predicate Inv(s: TimerState) {
    && 0 <= s.timeLeft <= SessionSeconds
    && s.intervals == if s.isRunning then 1 else 0
  }

  /**
   One event. Start is guarded by `isRunning` and otherwise schedules a loop. A tick is one firing
   of a scheduled loop's callback (with no loop scheduled nothing fires): it decrements a positive
   `timeLeft`, and at zero clears the loop held in `timer` and stops. Reset clears that loop (a
   no-op when none is scheduled), stops and restores a full session.
   */
  function Step(s: TimerState, e: Event): TimerState {
    match e
    case Start =>
      if s.isRunning then s else s.(isRunning := true, intervals := s.intervals + 1)
    case Tick =>
      if s.intervals == 0 then s
      else if s.timeLeft > 0 then s.(timeLeft := s.timeLeft - 1)
      else s.(isRunning := false, intervals := s.intervals - 1)
    case Reset =>
      TimerState(SessionSeconds, false, if s.intervals > 0 then s.intervals - 1 else 0)
  }

  /** A sequence of events, in order. Every reachable state satisfies the invariant. */
  function Run(s: TimerState, events: seq<Event>): (r: TimerState)
    ensures Inv(s) ==> Inv(r)
    decreases |events|
  {
    if events == [] then s else Run(Step(s, events[0]), events[1..])
  }

  /** `k` consecutive firings of the interval callback. */
  function Ticks(k: nat): seq<Event> {
    seq(k, _ => Tick)
  }

  /** Start while running changes nothing: no second loop, same time. */
  lemma StartGuard(s: TimerState)
    requires s.isRunning
    ensures Step(s, Start) == s
  {
  }

  /** Starting twice in a row is the same as starting once. */
  lemma StartIdempotent(s: TimerState)
    ensures Step(Step(s, Start), Start) == Step(s, Start)
  {
  }

  /** Start from a stopped reachable state runs the timer with one loop and the time unchanged. */
  lemma StartFromStopped(s: TimerState)
    requires Inv(s) && !s.isRunning
    ensures Step(s, Start) == TimerState(s.timeLeft, true, 1)
  {
  }

  /** A tick of a running timer: one second less while time remains, otherwise stopped at zero with no loop left. */
  lemma TickRunning(s: TimerState)
    requires Inv(s) && s.isRunning
    ensures var t := Step(s, Tick);
      && (s.timeLeft > 0 ==> t == TimerState(s.timeLeft - 1, true, 1))
      && (s.timeLeft == 0 ==> t == TimerState(0, false, 0))
      && t.timeLeft >= 0
  {
  }

  /** Reset from any reachable state gives the state the page loads with. */
  lemma ResetFromAny(s: TimerState)
    requires Inv(s)
    ensures Step(s, Reset) == Initial
  {
  }

  /** Running events one list after another is running their concatenation. */
  lemma {:induction false} RunAppend(s: TimerState, a: seq<Event>, b: seq<Event>)
    ensures Run(s, a + b) == Run(Run(s, a), b)
    decreases |a|
  {
    if a != [] {
      assert (a + b)[0] == a[0];
      assert (a + b)[1..] == a[1..] + b;
      RunAppend(Step(s, a[0]), a[1..], b);
    } else {
      assert a + b == b;
    }
  }

  /** From any reachable state, `timeLeft` stays within [0, 1500] whatever the events. */
  lemma Bounded(s: TimerState, events: seq<Event>)
    requires Inv(s)
    ensures 0 <= Run(s, events).timeLeft <= SessionSeconds
  {
  }

  /** A running timer with `n` seconds left counts down one second per tick for `k <= n` ticks. */
  lemma {:induction false} CountDown(n: int, k: nat)
    requires k <= n
    ensures Run(TimerState(n, true, 1), Ticks(k)) == TimerState(n - k, true, 1)
    decreases k
  {
    if k > 0 {
      assert Ticks(k)[0] == Tick;
      assert Ticks(k)[1..] == Ticks(k - 1);
      CountDown(n - 1, k - 1);
    }
  }

  /** From page load, start and 1500 ticks reach zero still running; the next tick stops the timer. */
  lemma FullSession()
    ensures Run(Initial, [Start] + Ticks(SessionSeconds)) == TimerState(0, true, 1)
    ensures Run(Initial, [Start] + Ticks(SessionSeconds + 1)) == TimerState(0, false, 0)
  {
    RunAppend(Initial, [Start], Ticks(SessionSeconds));
    CountDown(SessionSeconds, SessionSeconds);
    assert [Start] + Ticks(SessionSeconds + 1) == [Start] + Ticks(SessionSeconds) + [Tick];
    RunAppend(Initial, [Start] + Ticks(SessionSeconds), [Tick]);
    assert [Tick][1..] == [];
  }

  /** Without a reset, `timeLeft` never grows. */
  lemma {:induction false} NoIncreaseWithoutReset(s: TimerState, events: seq<Event>)
    requires Reset !in events
    ensures Run(s, events).timeLeft <= s.timeLeft
    decreases |events|
  {
    if events != [] {
      assert events[0] in events;
      assert forall e :: e in events[1..] ==> e in events;
      NoIncreaseWithoutReset(Step(s, events[0]), events[1..]);
    }
  }

  /** After a reset no callback fires until start is clicked: ticks leave the reset state alone. */
  lemma {:induction false} TicksAfterReset(s: TimerState, k: nat)
    requires Inv(s)
    ensures Run(Step(s, Reset), Ticks(k)) == Initial
    decreases k
  {
    if k > 0 {
      assert Ticks(k)[1..] == Ticks(k - 1);
      TicksAfterReset(Initial, k - 1);
    }
  }

  /** Starting a timer that has run out stops it again at the first tick (and alerts again). */
  lemma RestartExpired()
    ensures Run(TimerState(0, false, 0), [Start, Tick]) == TimerState(0, false, 0)
  {
    assert [Start, Tick][1..] == [Tick];
  }

  /** The countdown state, held in fields as script.js holds it in module-level variables. */
  class Timer {
    var timeLeft: int
    var isRunning: bool
    /** The `setInterval` loops scheduled; `timer` holds the handle of the latest. */
    ghost var intervals: nat

    ghost function State(): TimerState
      reads this
    {
      TimerState(timeLeft, isRunning, intervals)
    }

    ghost predicate Valid()
      reads this
    {
      Inv(State())
    }

    /** The state at page load: 25 minutes, stopped, no loop. */
    constructor ()
      ensures Valid() && State() == Initial
    {
      timeLeft := SessionSeconds;
      isRunning := false;
      intervals := 0;
    }

    /** startTimer: does nothing while running; otherwise marks the timer running and schedules the tick loop. */
    method Start()
      requires Valid()
      modifies this
      ensures Valid() && State() == Step(old(State()), Event.Start)
      ensures old(isRunning) ==> unchanged(this)
      ensures !old(isRunning) ==> isRunning && timeLeft == old(timeLeft) && intervals == 1
    {
      if isRunning {
        return;
      }
      isRunning := true;
      intervals := intervals + 1;
    }

    /** The interval callback, fired once per second while the loop is scheduled. */
    method Tick()
      requires Valid() && isRunning
      modifies this
      ensures Valid() && State() == Step(old(State()), Event.Tick)
      ensures old(timeLeft) > 0 ==> timeLeft == old(timeLeft) - 1 && isRunning
      ensures old(timeLeft) == 0 ==> timeLeft == 0 && !isRunning && intervals == 0
    {
      if timeLeft > 0 {
        timeLeft := timeLeft - 1;
      } else {
        intervals := intervals - 1;
        isRunning := false;
      }
    }

    /** resetTimer: clears the loop, stops, and restores 25 minutes. */
    method Reset()
      requires Valid()
      modifies this
      ensures Valid() && State() == Step(old(State()), Event.Reset)
      ensures State() == Initial
    {
      if intervals > 0 {
        intervals := intervals - 1;
      }
      isRunning := false;
      timeLeft := SessionSeconds;
    }

    /** updateTimerDisplay's text: five characters `MM:SS` that read back as `timeLeft`. */
    method Display() returns (text: string)
      requires Valid()
      ensures text == Clock.Format(timeLeft)
      ensures |text| == 5 && Clock.ParseClock(text) == Some(timeLeft)
    {
      text := Clock.Format(timeLeft);
      Clock.FormatLength(timeLeft);
      Clock.FormatRoundTrip(timeLeft);
    }
  }
}
