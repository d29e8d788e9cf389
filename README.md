# Workday slacking timer — Dafny model

A model of the core of a small browser timer that counts the seconds of a
workday, separates the seconds spent "slacking" from those spent working, and
at the end shows a satirical settlement: how much the slack time was worth and
what the effective hourly wage came to.

The model has four modules:

- `Types` (`types.dfy`): the four screens `AppState` (IDLE, WORKING, SLACKING,
  FINISHED), the configuration `UserConfig` (monthly salary, standard daily
  hours) and the finished-day snapshot `WorkSession`.
- `App` (`app.dfy`): the timer component. Its four state cells (`appState`,
  `totalSeconds`, `slackSeconds`, `lastSession`) are the fields of the class
  `Session`, whose methods are the button handlers and one firing of the
  once-per-second interval (`Tick`). Each method is specified by the pure
  function `Step` on a `SessionState` value; `Enabled` says which events can
  happen in a state (which buttons are rendered there, and whether the interval
  is scheduled), and `Consistent` is the invariant every state reachable through
  enabled events keeps. The `hh:mm:ss` display is `FormatClock`, with the parser
  `ParseClock` as its inverse.
- `Report` (`report.dfy`): the settlement figures (daily wage, standard seconds,
  actual work seconds, slack value, effective hourly rate, the "fully slacked"
  flag) over `real`, and the unpadded `Hh Mm Ss` display `FormatDuration` with
  its inverse `ParseDuration`.
- `Text` (`text.dfy`): decimal rendering of whole numbers as JavaScript's
  number-to-string conversion gives it below 10^21 (`Show`), its inverse (`Value`), and
  splitting a string at a separator (`Split`).

Notes on how the code behaves, which the model follows:

- The handlers never ignore an out-of-state request: they are unconditional
  setters that do not look at the current state (App.tsx:44-61). Only the
  rendered buttons (App.tsx:137-178, and the report view at App.tsx:78-84 for
  reset) keep such events from happening. `Step` therefore applies every event
  as the code does (`App.SlackWhileIdleIsNotIgnored`), and the guard is the
  separate predicate `Enabled`; `App.StartWhileFinishedBreaksConsistent` shows
  that the guard is what the invariant depends on.
- The division by `standardSeconds` at components/Report.tsx:24 is unguarded,
  and the settings form requires both fields to be numbers but has no range
  check, so zero or negative hours get through. `Report.SlackValue` therefore
  requires `standardHours > 0`.
- `JSON.parse` errors on the stored configuration are not caught
  (App.tsx:11-14); loading is not part of this model.
- The effective hourly rate is not monotone in the slack time at the point where
  work time runs out: with a positive salary it grows without bound as work time shrinks, then falls
  back to the daily wage once none is left (`Report.RateDropsWhenWorkRunsOut`).

## Model

| member | source | states |
|---|---|---|
| `App.Session.constructor` | App.tsx:10-18 | the session starts IDLE with both counters at 0 and no finished session, and slack is within total |
| `App.Session.HandleStart` | App.tsx:44 | sets the state to WORKING and leaves the counters and the finished session as they were; keeps slack within total |
| `App.Session.HandleSlack` | App.tsx:45 | sets the state to SLACKING and changes nothing else; keeps slack within total |
| `App.Session.HandleResume` | App.tsx:46 | sets the state to WORKING and changes nothing else; keeps slack within total |
| `App.Session.HandleFinish` | App.tsx:47-54 | records the current counters and the given date as the finished session and moves to FINISHED, counters unchanged |
| `App.Session.HandleReset` | App.tsx:56-61 | zeroes both counters, drops the finished session and returns to IDLE |
| `App.Session.Tick` | App.tsx:29-35 | callable only while WORKING or SLACKING; adds one second to the total, and one to slack when the state it reads is SLACKING |
| `App.TickCounts` | App.tsx:29-35 | a tick adds exactly 1 to the total; slack grows by exactly 1 when slacking and is unchanged when working; state and finished session are untouched |
| `App.CountersFrozenWhenStopped` | App.tsx:28-38 | in IDLE or FINISHED no tick can happen, and every event that can happen there other than reset leaves both counters unchanged |
| `App.StepKeepsSlackWithinTotal` | App.tsx:31-33 | every event, enabled or not, keeps slack seconds at most total seconds |
| `App.RunKeepsSlackWithinTotal` | App.tsx:28-61 | slack stays within total along any sequence of events |
| `App.SettersChangeOnlyState` | App.tsx:44-46 | start, slack and resume change only the state (to WORKING, SLACKING, WORKING); counters and finished session are untouched |
| `App.SlackWhileIdleIsNotIgnored` | App.tsx:45 | the slack handler does not check the state: requested while IDLE it still moves to SLACKING |
| `App.StartWhileWorkingChangesNothing` | App.tsx:44 | starting while already WORKING leaves the whole state as it was |
| `App.FinishSnapshotsCounters` | App.tsx:47-54 | finishing moves to FINISHED and records exactly the current total and slack seconds, without changing the counters |
| `App.ResetForgets` | App.tsx:56-61 | reset yields IDLE, zero counters and no finished session from any state, so resetting twice equals resetting once |
| `App.CountersNeverDecrease` | App.tsx:28-54 | no enabled event except reset lowers either counter |
| `App.StepKeepsConsistent` | App.tsx:137-178 | every event whose button is rendered (or a tick while the interval runs) keeps the reachable-state invariant |
| `App.StartWhileFinishedBreaksConsistent` | App.tsx:78-84 | a start issued on the report view, where no start button exists, would leave a stale finished session in the WORKING state |
| `App.RunKeepsConsistent` | App.tsx:137-178 | any run of enabled events keeps the reachable-state invariant |
| `App.ReachableStatesConsistent` | App.tsx:78-81 | from the first render, through any enabled events and ticks, slack stays within total, a finished session exists exactly in FINISHED, and it holds the counters as they stood at finish |
| `App.TicksWhileWorking` | App.tsx:29-35 | n seconds while WORKING are n enabled ticks that add n to the total and nothing to slack |
| `App.TicksWhileSlacking` | App.tsx:29-35 | n seconds while SLACKING are n enabled ticks that add n to both counters |
| `App.ClockField` | App.tsx:67 | a display field is a digit string of at least two characters (exactly two below 100) denoting the value, padded with a zero only below ten |
| `App.FormatClockFields` | App.tsx:63-68 | the display has exactly two colons; its fields are digit strings of at least two characters (exactly two for minutes and seconds) for hours, minutes below 60 and seconds below 60 that add up to the input |
| `App.FormatClockRoundTrip` | App.tsx:63-68 | reading the `hh:mm:ss` display back gives the seconds it was made from |
| `App.FormatClockInjective` | App.tsx:63-68 | different second counts are displayed differently |
| `Text.Show` | components/Report.tsx:17 | a number's decimal form is a non-empty digit string denoting it, without a leading zero, one character long exactly below ten |
| `Text.HoursMinutesSeconds` | App.tsx:64-66 | whole hours, leftover minutes and leftover seconds add up to the input, minutes and seconds below 60 |
| `Report.DailyWage` | components/Report.tsx:20 | thirty daily wages make the monthly salary |
| `Report.StandardSeconds` | components/Report.tsx:21 | the standard seconds are the standard hours in seconds |
| `Report.ActualWorkSeconds` | components/Report.tsx:23 | never negative; the standard seconds minus the slack when slack fits in the standard day, 0 otherwise |
| `Report.SlackValue` | components/Report.tsx:24 | requires positive standard hours; slack value is to the daily wage as slack seconds are to the standard seconds |
| `Report.EffectiveHourlyRate` | components/Report.tsx:26-28 | with work time left, the rate times the hours worked is the daily wage; with none left, the rate is the daily wage |
| `Report.WhiteLabelIffSlackCoversStandard` | components/Report.tsx:34 | the "fully slacked" flag holds exactly when slack seconds reach the standard seconds |
| `Report.WorkAndSlackCoverStandard` | components/Report.tsx:21-23 | for non-negative standard hours, work time plus slack time covers the standard day, and work time never exceeds it |
| `Report.WorkSecondsWholeForHalfHours` | components/Report.tsx:21-23 | when the standard hours are a multiple of 0.5, the granularity the form's step marks, the work time is the whole number 1800k minus the slack, or 0 once slack covers the day |
| `Report.SlackValueLandmarks` | components/Report.tsx:24 | for positive standard hours, no slack is worth 0 and a standard day of slack is worth the daily wage; with a positive salary too, because the value is not clamped, more slack is worth more than a day |
| `Report.SlackAndWorkShareDailyWage` | components/Report.tsx:20-24 | within the standard day, the slack's value and the work's share of the daily wage add up to the daily wage |
| `Report.ZeroSlackRateIsStandard` | components/Report.tsx:20-28 | for positive standard hours and no slack, the effective rate equals the standard rate, daily wage over standard hours, shown at components/Report.tsx:65 |
| `Report.RateGrowsWithSlack` | components/Report.tsx:23-28 | for a non-negative salary and while work time is left, more slack never lowers the effective rate |
| `Report.RateDropsWhenWorkRunsOut` | components/Report.tsx:26-28 | with a positive salary, a rate computed from under one hour of work exceeds the rate once no work time is left, so the rate falls where work time runs out |
| `Report.RateDropExample` | components/Report.tsx:20-28 | salary 3000 and 1 standard hour: 1800 seconds of slack give a rate of 200, 3600 seconds give 100 |
| `Report.RateAtLeastStandard` | components/Report.tsx:20-28 | for a non-negative salary, positive standard hours and some work time left, the effective rate is at least the standard rate |
| `Report.ScenarioFullSlack` | components/Report.tsx:20-34 | salary 3000 and 10 standard hours, all slacked: no work time, fully slacked, slack worth 100 |
| `Report.ScenarioNoSlack` | components/Report.tsx:20-34 | salary 9000 and 8 standard hours, no slack: rate 37.5 an hour, slack worth 0, not fully slacked |
| `Report.FormatDurationFields` | components/Report.tsx:13-18 | the display splits at its two spaces into `<h>h`, `<m>m`, `<s>s` whose numbers add up to the input, minutes and seconds below 60, none padded |
| `Report.FormatDurationRoundTrip` | components/Report.tsx:13-18 | reading the `Hh Mm Ss` display back gives the seconds it was made from |

## Left out

- Loading and saving the configuration in local storage and parsing it with `JSON.parse` (App.tsx:11-14, App.tsx:22-26): storage I/O.
- Scheduling and clearing the interval, and effect cleanup (App.tsx:28-42): timer plumbing. One firing is the method `Tick`, allowed exactly while the interval is scheduled. Each state change re-creates the interval, so the fraction of a second before a change is never counted; the model counts whole firings only.
- The settings view (`setConfig(null)`, App.tsx:70-76 and App.tsx:188): it hides the buttons but does not touch the session state, and the interval keeps running behind it. `Enabled` does not model that the buttons are absent while no configuration is set.
- components/Settings.tsx: a form whose two `required` number fields are read with `parseFloat`, with no range check (no `min`), so zero and negative values are accepted; the hours field carries `step="0.5"` (components/Settings.tsx:43), which marks the intended granularity but does not stop other values such as 7.1234 from being submitted. Positive standard hours appear as a precondition of `Report.SlackValue` instead; the `Infinity`/`NaN` results of dividing by zero are not modelled.
- components/CoinAnimation.tsx, the random quote (components/Report.tsx:30-32), `toFixed(2)` rounding and all markup: visual, random or display-only.
- `toLocaleDateString` (App.tsx:51): a clock and locale read; the date string is a parameter of `HandleFinish`.
- Report.FormatDuration: takes whole seconds only. The report also formats `actualWorkSeconds`, which is a whole number of seconds when the standard hours are a multiple of 0.5 (`Report.WorkSecondsWholeForHalfHours`) but fractional for other hours the form lets through; formatting a fractional number of seconds is not modelled.
- Numbers: the counters are JavaScript numbers, exact far beyond any workday, and are modelled as unbounded `nat`, and `Text.Show` renders every number in plain digits, whereas JavaScript switches to exponent form from 10^21; the wage figures are modelled as exact `real` values, without floating-point rounding.
