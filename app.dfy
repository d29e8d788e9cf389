// The timer screen of App.tsx: the session state machine (four states, two
// second counters and the last finished session) driven by the button
// handlers and the once-per-second interval, and the `hh:mm:ss` formatter.

module App {
  import opened Types
  import opened Text

  // ---------------------------------------------------------------------
  // Session state and events
  // ---------------------------------------------------------------------

  /** The four state cells of the component, as one value. */
  datatype SessionState = SessionState(
    appState: AppState,
    totalSeconds: nat,
    slackSeconds: nat,
    lastSession: Option<WorkSession>)

  /** What can change the session: the five button handlers and one firing of the interval.
      `Finish` carries the locale date string the handler reads from the clock. */
  datatype Event = Start | Slack | Resume | Finish(date: string) | Reset | Tick

  /** The state on first render: idle, both counters zero, no finished session. */
  const Initial: SessionState := SessionState(Idle, 0, 0, None)

  /** The interval is scheduled exactly in these two states; in the others it is cleared. */
  predicate TimerRunning(st: AppState) {
    st == Working || st == Slacking
  }

  /** The effect of one event. The handlers are unconditional setters; the tick
      reads the state current at the time it fires (the interval is re-created
      on every state change). */
  function Step(s: SessionState, e: Event): SessionState {
    match e
    case Start => s.(appState := Working)
    case Slack => s.(appState := Slacking)
    case Resume => s.(appState := Working)
    case Finish(date) =>
      s.(appState := Finished, lastSession := Some(WorkSession(s.totalSeconds, s.slackSeconds, date)))
    case Reset => SessionState(Idle, 0, 0, None)
    case Tick =>
      s.(totalSeconds := s.totalSeconds + 1,
         slackSeconds := if s.appState == Slacking then s.slackSeconds + 1 else s.slackSeconds)
  }

  /** Whether the event can happen in this state: the button is rendered there
      (start when idle; slack and finish when working; resume and finish when
      slacking; reset only on the report view, which needs a finished session),
      or, for a tick, the interval is scheduled. */
  predicate Enabled(s: SessionState, e: Event) {
    match e
    case Start => s.appState == Idle
    case Slack => s.appState == Working
    case Resume => s.appState == Slacking
    case Finish(_) => s.appState == Working || s.appState == Slacking
    case Reset => s.appState == Finished && s.lastSession.Some?
    case Tick => TimerRunning(s.appState)
  }

  /** The state after the events `es`, one after the other. */
  function Run(s: SessionState, es: seq<Event>): SessionState
    decreases |es|
  {
    if es == [] then s else Run(Step(s, es[0]), es[1..])
  }

  /** Every event of `es` is enabled in the state it is applied to. */
  predicate EnabledRun(s: SessionState, es: seq<Event>)
    decreases |es|
  {
    es == [] || (Enabled(s, es[0]) && EnabledRun(Step(s, es[0]), es[1..]))
  }

  /** `n` firings of the interval in a row. */
  function Ticks(n: nat): (es: seq<Event>)
    ensures |es| == n && forall i :: 0 <= i < n ==> es[i] == Tick
  {
    seq(n, _ => Tick)
  }

  /** The invariant of every state reachable by enabled events: slack time is part
      of total time; an idle session has not counted anything; a finished session
      is on record exactly in the FINISHED state, and it records the counters. */
  predicate Consistent(s: SessionState) {
    && s.slackSeconds <= s.totalSeconds
    && (s.appState == Idle ==> s.totalSeconds == 0 && s.slackSeconds == 0)
    && (s.lastSession.Some? <==> s.appState == Finished)
    && (s.appState == Finished ==>
          s.lastSession.value.totalSeconds == s.totalSeconds &&
          s.lastSession.value.slackSeconds == s.slackSeconds)
  }

  // ---------------------------------------------------------------------
  // The component's state cells, updated in place
  // ---------------------------------------------------------------------

  class Session {
    var appState: AppState
    var totalSeconds: nat
    var slackSeconds: nat
    var lastSession: Option<WorkSession>

    function State(): SessionState
      reads this
    {
      SessionState(appState, totalSeconds, slackSeconds, lastSession)
    }

    /** The counter part of `Consistent`, kept on the object itself: slack seconds
        are counted only on ticks that also count total seconds. Every event keeps
        it (`StepKeepsSlackWithinTotal`), so it is a class-level view of that
        lemma; the rest of `Consistent` depends on the buttons' guard and is
        proved over runs of enabled events. */
    ghost predicate Valid()
      reads this
    {
      slackSeconds <= totalSeconds
    }

    constructor ()
      ensures Valid() && State() == Initial
    {
      appState := Idle;
      totalSeconds := 0;
      slackSeconds := 0;
      lastSession := None;
    }

    method HandleStart()
      requires Valid()
      modifies this
      ensures Valid() && State() == Step(old(State()), Start)
    {
      appState := Working;
    }

    method HandleSlack()
      requires Valid()
      modifies this
      ensures Valid() && State() == Step(old(State()), Slack)
    {
      appState := Slacking;
    }

    method HandleResume()
      requires Valid()
      modifies this
      ensures Valid() && State() == Step(old(State()), Resume)
    {
      appState := Working;
    }

    method HandleFinish(date: string)
      requires Valid()
      modifies this
      ensures Valid() && State() == Step(old(State()), Finish(date))
    {
      lastSession := Some(WorkSession(totalSeconds, slackSeconds, date));
      appState := Finished;
    }

    method HandleReset()
      requires Valid()
      modifies this
      ensures Valid() && State() == Step(old(State()), Reset)
    {
      totalSeconds := 0;
      slackSeconds := 0;
      appState := Idle;
      lastSession := None;
    }

    /** One firing of the interval callback, which exists only while the timer runs. */
    method Tick()
      requires Valid() && TimerRunning(appState)
      modifies this
      ensures Valid() && State() == Step(old(State()), Event.Tick)
    {
      totalSeconds := totalSeconds + 1;
      if appState == Slacking {
        slackSeconds := slackSeconds + 1;
      }
    }
  }

  // ---------------------------------------------------------------------
  // Properties of single events
  // ---------------------------------------------------------------------

  /** A tick adds one second to the total, and one to slack exactly when slacking;
      it does not change the state or the finished session. */
  lemma TickCounts(s: SessionState)
    ensures var t := Step(s, Tick);
      && t.totalSeconds == s.totalSeconds + 1
      && (s.appState == Slacking ==> t.slackSeconds == s.slackSeconds + 1)
      && (s.appState == Working ==> t.slackSeconds == s.slackSeconds)
      && t.appState == s.appState && t.lastSession == s.lastSession
  {
  }

  /** No event that can happen while idle or finished touches the counters, except
      reset; in particular no tick can happen there. */
  lemma CountersFrozenWhenStopped(s: SessionState, e: Event)
    requires s.appState == Idle || s.appState == Finished
    requires Enabled(s, e) && e != Reset
    ensures e != Tick
    ensures Step(s, e).totalSeconds == s.totalSeconds && Step(s, e).slackSeconds == s.slackSeconds
  {
  }

  /** Slack never exceeds total across any event, enabled or not. */
  lemma StepKeepsSlackWithinTotal(s: SessionState, e: Event)
    requires s.slackSeconds <= s.totalSeconds
    ensures Step(s, e).slackSeconds <= Step(s, e).totalSeconds
  {
  }

  /** Start, slack and resume set the state and nothing else. */
  lemma SettersChangeOnlyState(s: SessionState, e: Event)
    requires e == Start || e == Slack || e == Resume
    ensures var t := Step(s, e);
      && t.totalSeconds == s.totalSeconds && t.slackSeconds == s.slackSeconds
      && t.lastSession == s.lastSession
      && t.appState == (if e == Slack then Slacking else Working)
  {
  }

  /** The setters do not look at the current state: a slack request while idle
      is not ignored. */
  lemma SlackWhileIdleIsNotIgnored(s: SessionState)
    requires s.appState == Idle
    ensures Step(s, Slack).appState == Slacking
  {
  }

  /** Starting again while working changes nothing. */
  lemma StartWhileWorkingChangesNothing(s: SessionState)
    requires s.appState == Working
    ensures Step(s, Start) == s
  {
  }

  /** Finishing records exactly the current counters and keeps them. */
  lemma FinishSnapshotsCounters(s: SessionState, date: string)
    ensures var t := Step(s, Finish(date));
      && t.appState == Finished
      && t.lastSession == Some(WorkSession(s.totalSeconds, s.slackSeconds, date))
      && t.totalSeconds == s.totalSeconds && t.slackSeconds == s.slackSeconds
  {
  }

  /** Reset forgets everything, so resetting twice is resetting once. */
  lemma ResetForgets(s: SessionState)
    ensures Step(s, Reset) == Initial
    ensures Step(Step(s, Reset), Reset) == Step(s, Reset)
  {
  }

  /** While a session runs, no enabled event other than reset decreases a counter. */
  lemma CountersNeverDecrease(s: SessionState, e: Event)
    requires Enabled(s, e) && e != Reset
    ensures Step(s, e).totalSeconds >= s.totalSeconds
    ensures Step(s, e).slackSeconds >= s.slackSeconds
  {
  }

  /** Every enabled event keeps the invariant. */
  lemma StepKeepsConsistent(s: SessionState, e: Event)
    requires Consistent(s) && Enabled(s, e)
    ensures Consistent(Step(s, e))
  {
  }

  /** The invariant needs the buttons' guard: a start issued on the report view
      would leave a finished session on record in the WORKING state. */
  lemma StartWhileFinishedBreaksConsistent(s: SessionState)
    requires Consistent(s) && s.appState == Finished
    ensures !Consistent(Step(s, Start))
  {
  }

  // ---------------------------------------------------------------------
  // Properties of runs
  // ---------------------------------------------------------------------

  lemma {:induction false} RunKeepsConsistent(s: SessionState, es: seq<Event>)
    requires Consistent(s) && EnabledRun(s, es)
    ensures Consistent(Run(s, es))
    decreases |es|
  {
    if es != [] {
      StepKeepsConsistent(s, es[0]);
      RunKeepsConsistent(Step(s, es[0]), es[1..]);
    }
  }

  /** From the first render, whatever buttons are pressed and however many seconds
      pass: slack stays within total, the report's session exists exactly in the
      FINISHED state, and it holds the counters as they stood at finish. */
  lemma {:induction false} ReachableStatesConsistent(es: seq<Event>)
    requires EnabledRun(Initial, es)
    ensures var t := Run(Initial, es);
      && t.slackSeconds <= t.totalSeconds
      && (t.lastSession.Some? <==> t.appState == Finished)
      && (t.appState == Finished ==>
            t.lastSession.value.totalSeconds == t.totalSeconds &&
            t.lastSession.value.slackSeconds == t.slackSeconds)
  {
    RunKeepsConsistent(Initial, es);
  }

  /** Slack never exceeds total along any sequence of events, enabled or not. */
  lemma {:induction false} RunKeepsSlackWithinTotal(s: SessionState, es: seq<Event>)
    requires s.slackSeconds <= s.totalSeconds
    ensures Run(s, es).slackSeconds <= Run(s, es).totalSeconds
    decreases |es|
  {
    if es != [] {
      StepKeepsSlackWithinTotal(s, es[0]);
      RunKeepsSlackWithinTotal(Step(s, es[0]), es[1..]);
    }
  }

  /** `n` seconds of working add `n` to the total and nothing to slack. */
  lemma {:induction false} TicksWhileWorking(s: SessionState, n: nat)
    requires s.appState == Working
    ensures EnabledRun(s, Ticks(n))
    ensures Run(s, Ticks(n)) == s.(totalSeconds := s.totalSeconds + n)
    decreases n
  {
    if n > 0 {
      assert Ticks(n)[1..] == Ticks(n - 1);
      TicksWhileWorking(Step(s, Tick), n - 1);
    }
  }

  /** `n` seconds of slacking add `n` to both counters. */
  lemma {:induction false} TicksWhileSlacking(s: SessionState, n: nat)
    requires s.appState == Slacking
    ensures EnabledRun(s, Ticks(n))
    ensures Run(s, Ticks(n)) ==
      s.(totalSeconds := s.totalSeconds + n, slackSeconds := s.slackSeconds + n)
    decreases n
  {
    if n > 0 {
      assert Ticks(n)[1..] == Ticks(n - 1);
      TicksWhileSlacking(Step(s, Tick), n - 1);
    }
  }

  // ---------------------------------------------------------------------
  // The `hh:mm:ss` display
  // ---------------------------------------------------------------------

  /** One field of the display: below ten it gets a leading zero. */
  function ClockField(v: nat): (r: string)
    ensures |r| >= 2 && AllDigits(r) && Value(r) == v
    ensures v >= 10 ==> r == Show(v)
    ensures v < 100 ==> |r| == 2
  {
    if v < 10 then
      ValueLeadingZero(Show(v));
      "0" + Show(v)
    else
      Show(v)
  }

  /** The running time as hours, minutes and seconds joined by colons. */
  function FormatClock(seconds: nat): string {
    var h := seconds / 3600;
    var m := (seconds % 3600) / 60;
    var s := seconds % 60;
    ClockField(h) + ":" + ClockField(m) + ":" + ClockField(s)
  }

  /** Reads a colon-separated clock display back into seconds. */
  function ParseClock(t: string): Option<nat> {
    var p := Split(t, ':');
    if |p| == 3 && p[0] != [] && p[1] != [] && p[2] != []
       && AllDigits(p[0]) && AllDigits(p[1]) && AllDigits(p[2])
    then Some(Value(p[0]) * 3600 + Value(p[1]) * 60 + Value(p[2]))
    else None
  }

  lemma ClockFieldHasNoColon(v: nat)
    ensures ':' !in ClockField(v)
  {
    NonDigitNotInShow(v, ':');
    if v < 10 {
      assert ClockField(v) == "0" + Show(v);
    }
  }

  /** The display has exactly two colons; its three fields are digit strings of at
      least two characters (exactly two for minutes and seconds) whose values are
      hours, minutes below 60 and seconds below 60 making up `n`. */
  lemma FormatClockFields(n: nat)
    ensures Count(FormatClock(n), ':') == 2
    ensures var p := Split(FormatClock(n), ':');
      && |p| == 3
      && |p[0]| >= 2 && |p[1]| == 2 && |p[2]| == 2
      && AllDigits(p[0]) && AllDigits(p[1]) && AllDigits(p[2])
      && Value(p[0]) * 3600 + Value(p[1]) * 60 + Value(p[2]) == n
      && Value(p[1]) < 60 && Value(p[2]) < 60
  {
    var h, m, s := n / 3600, (n % 3600) / 60, n % 60;
    HoursMinutesSeconds(n);
    ClockFieldHasNoColon(h);
    ClockFieldHasNoColon(m);
    ClockFieldHasNoColon(s);
    SplitThree(ClockField(h), ClockField(m), ClockField(s), ':');
    SplitCount(FormatClock(n), ':');
  }

  /** Reading the display back gives the seconds it was made from. */
  lemma FormatClockRoundTrip(n: nat)
    ensures ParseClock(FormatClock(n)) == Some(n)
  {
    FormatClockFields(n);
  }

  /** Different second counts are displayed differently. */
  lemma FormatClockInjective(a: nat, b: nat)
    requires FormatClock(a) == FormatClock(b)
    ensures a == b
  {
    FormatClockRoundTrip(a);
    FormatClockRoundTrip(b);
  }
}
