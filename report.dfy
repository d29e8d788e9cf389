// The report view of components/Report.tsx: the settlement figures derived
// from the finished session and the configuration, and the `Hh Mm Ss`
// duration formatter.

module Report {
  import opened Types
  import opened Text

  // ---------------------------------------------------------------------
  // Settlement figures
  // ---------------------------------------------------------------------

  /** A month's pay is spread over thirty days. */
  function DailyWage(c: UserConfig): (r: real)
    ensures r * 30.0 == c.monthlySalary
  {
    c.monthlySalary / 30.0
  }

  /** The standard workday in seconds. */
  function StandardSeconds(c: UserConfig): (r: real)
    ensures r / 3600.0 == c.standardHours
  {
    c.standardHours * 3600.0
  }

  /** The part of the standard day not spent slacking, never below zero. */
  function ActualWorkSeconds(c: UserConfig, s: WorkSession): (r: real)
    ensures r >= 0.0
    ensures s.slackSeconds as real <= StandardSeconds(c) ==> r == StandardSeconds(c) - s.slackSeconds as real
    ensures s.slackSeconds as real >= StandardSeconds(c) ==> r == 0.0
  {
    var left := StandardSeconds(c) - s.slackSeconds as real;
    if 0.0 >= left then 0.0 else left
  }

  /** What the slack time was worth: its share of the standard day, times the daily wage. */
  function SlackValue(c: UserConfig, s: WorkSession): (r: real)
    requires c.standardHours > 0.0
    ensures r * StandardSeconds(c) == s.slackSeconds as real * DailyWage(c)
  {
    (s.slackSeconds as real / StandardSeconds(c)) * DailyWage(c)
  }

  /** The daily wage per hour actually worked; when no work time is left, the daily wage itself. */
  function EffectiveHourlyRate(c: UserConfig, s: WorkSession): (r: real)
    ensures ActualWorkSeconds(c, s) > 0.0 ==> r * (ActualWorkSeconds(c, s) / 3600.0) == DailyWage(c)
    ensures ActualWorkSeconds(c, s) == 0.0 ==> r == DailyWage(c)
  {
    var work := ActualWorkSeconds(c, s);
    if work > 0.0 then DailyWage(c) / (work / 3600.0) else DailyWage(c)
  }

  /** The "fully slacked" headline: no work time is left. */
  predicate IsWhiteLabel(c: UserConfig, s: WorkSession) {
    ActualWorkSeconds(c, s) <= 0.0
  }

  /** The report states a full slack exactly when slack time covers the standard day. */
  lemma WhiteLabelIffSlackCoversStandard(c: UserConfig, s: WorkSession)
    ensures IsWhiteLabel(c, s) <==> s.slackSeconds as real >= StandardSeconds(c)
  {
  }

  /** Work time and slack time together cover the standard day, and work time never exceeds it. */
  lemma WorkAndSlackCoverStandard(c: UserConfig, s: WorkSession)
    requires c.standardHours >= 0.0
    ensures ActualWorkSeconds(c, s) + s.slackSeconds as real >= StandardSeconds(c)
    ensures ActualWorkSeconds(c, s) <= StandardSeconds(c)
  {
  }

  /** For standard hours that are a multiple of 0.5 (`k` half hours) the standard
      day is `1800 * k` seconds, and the work time is a whole number of seconds. */
  lemma WorkSecondsWholeForHalfHours(c: UserConfig, s: WorkSession, k: nat)
    requires c.standardHours == k as real / 2.0
    ensures ActualWorkSeconds(c, s) ==
      (if s.slackSeconds <= 1800 * k then 1800 * k - s.slackSeconds else 0) as real
  {
    assert StandardSeconds(c) == (1800 * k) as real;
  }

  /** No slack is worth nothing, a full standard day of slack is worth the daily wage,
      and since the value is not clamped, more slack than that is worth more than a day. */
  lemma SlackValueLandmarks(c: UserConfig, s: WorkSession)
    requires c.standardHours > 0.0
    ensures s.slackSeconds == 0 ==> SlackValue(c, s) == 0.0
    ensures s.slackSeconds as real == StandardSeconds(c) ==> SlackValue(c, s) == DailyWage(c)
    ensures s.slackSeconds as real > StandardSeconds(c) && c.monthlySalary > 0.0 ==>
      SlackValue(c, s) > DailyWage(c)
  {
    var std, dw := StandardSeconds(c), DailyWage(c);
    var v := SlackValue(c, s);
    if s.slackSeconds as real > std && c.monthlySalary > 0.0 {
      var slack := s.slackSeconds as real;
      assert v * std == slack * dw;
      PositiveProduct(slack - std, dw);
      assert (v - dw) * std == (slack - std) * dw;
      PositiveFactor(v - dw, std);
    }
  }

  /** Within the standard day, the value of the slack and the value of the work split the daily wage. */
  lemma SlackAndWorkShareDailyWage(c: UserConfig, s: WorkSession)
    requires c.standardHours > 0.0
    requires s.slackSeconds as real <= StandardSeconds(c)
    ensures SlackValue(c, s) + (ActualWorkSeconds(c, s) / StandardSeconds(c)) * DailyWage(c) == DailyWage(c)
  {
    var std := StandardSeconds(c);
    var slack := s.slackSeconds as real;
    assert ActualWorkSeconds(c, s) == std - slack;
    assert (slack / std) + (std - slack) / std == 1.0;
  }

  /** Without slack the effective rate is the standard rate shown struck through. */
  lemma ZeroSlackRateIsStandard(c: UserConfig, s: WorkSession)
    requires c.standardHours > 0.0
    requires s.slackSeconds == 0
    ensures EffectiveHourlyRate(c, s) == DailyWage(c) / c.standardHours
  {
  }

  lemma PositiveProduct(a: real, b: real)
    requires a > 0.0 && b > 0.0
    ensures a * b > 0.0
  {
  }

  /** A product with a positive factor is positive only if the other factor is. */
  lemma PositiveFactor(a: real, b: real)
    requires b > 0.0 && a * b > 0.0
    ensures a > 0.0
  {
  }

  /** For a fixed amount `p >= 0`, dividing by a larger positive number gives less. */
  lemma DivideByLarger(p: real, x: real, y: real)
    requires p >= 0.0 && 0.0 < x <= y
    ensures p / y <= p / x
  {
  }

  /** More slack never lowers the effective rate while some work time is left. */
  lemma RateGrowsWithSlack(c: UserConfig, s1: WorkSession, s2: WorkSession)
    requires c.monthlySalary >= 0.0
    requires s1.slackSeconds <= s2.slackSeconds
    requires ActualWorkSeconds(c, s2) > 0.0
    ensures EffectiveHourlyRate(c, s1) <= EffectiveHourlyRate(c, s2)
  {
    var w1, w2 := ActualWorkSeconds(c, s1), ActualWorkSeconds(c, s2);
    assert w2 <= w1;
    DivideByLarger(DailyWage(c), w2 / 3600.0, w1 / 3600.0);
  }

  /** The rate is not monotone where work time runs out: under an hour of work
      gives more than the daily wage per hour, but no work at all gives exactly
      the daily wage. */
  lemma RateDropsWhenWorkRunsOut(c: UserConfig, s1: WorkSession, s2: WorkSession)
    requires c.monthlySalary > 0.0
    requires 0.0 < ActualWorkSeconds(c, s1) < 3600.0
    requires ActualWorkSeconds(c, s2) == 0.0
    ensures EffectiveHourlyRate(c, s1) > EffectiveHourlyRate(c, s2)
  {
    var w := ActualWorkSeconds(c, s1) / 3600.0;
    var r, dw := EffectiveHourlyRate(c, s1), DailyWage(c);
    assert r * w == dw;
    assert 0.0 < w < 1.0;
    PositiveProduct(dw, 1.0 - w);
    assert (r - dw) * w == dw * (1.0 - w);
    assert (r - dw) * w > 0.0;
    PositiveFactor(r - dw, w);
  }

  /** Salary 3000 and one standard hour: half an hour of slack gives 200 an hour,
      a full hour of slack only 100. */
  lemma RateDropExample()
    ensures var c := UserConfig(3000.0, 1.0);
      && EffectiveHourlyRate(c, WorkSession(1800, 1800, "")) == 200.0
      && EffectiveHourlyRate(c, WorkSession(3600, 3600, "")) == 100.0
  {
  }

  /** While some work time is left, the effective rate is at least the standard rate. */
  lemma RateAtLeastStandard(c: UserConfig, s: WorkSession)
    requires c.monthlySalary >= 0.0 && c.standardHours > 0.0
    requires ActualWorkSeconds(c, s) > 0.0
    ensures EffectiveHourlyRate(c, s) >= DailyWage(c) / c.standardHours
  {
  }

  /** Ten standard hours all slacked on a monthly pay of 3000: no work, full slack, worth 100. */
  lemma ScenarioFullSlack()
    ensures var c, s := UserConfig(3000.0, 10.0), WorkSession(36000, 36000, "");
      && ActualWorkSeconds(c, s) == 0.0
      && IsWhiteLabel(c, s)
      && SlackValue(c, s) == 100.0
  {
  }

  /** Eight standard hours without slack on a monthly pay of 9000: 37.50 an hour, slack worth 0. */
  lemma ScenarioNoSlack()
    ensures var c, s := UserConfig(9000.0, 8.0), WorkSession(28800, 0, "");
      && EffectiveHourlyRate(c, s) == 37.5
      && SlackValue(c, s) == 0.0
      && !IsWhiteLabel(c, s)
  {
  }

  // ---------------------------------------------------------------------
  // The `Hh Mm Ss` display
  // ---------------------------------------------------------------------

  /** A duration as unpadded hours, minutes and seconds with unit letters. */
  function FormatDuration(seconds: nat): string {
    var h := seconds / 3600;
    var m := (seconds % 3600) / 60;
    var s := seconds % 60;
    Show(h) + "h " + Show(m) + "m " + Show(s) + "s"
  }

  /** The number in a field "<digits><unit>", if it has that form. */
  function UnitField(f: string, unit: char): Option<nat> {
    if |f| >= 2 && f[|f| - 1] == unit && AllDigits(f[..|f| - 1])
    then Some(Value(f[..|f| - 1]))
    else None
  }

  /** Reads a duration display back into seconds. */
  function ParseDuration(t: string): Option<nat> {
    var p := Split(t, ' ');
    if |p| != 3 then None
    else
      match (UnitField(p[0], 'h'), UnitField(p[1], 'm'), UnitField(p[2], 's'))
      case (Some(h), Some(m), Some(s)) => Some(h * 3600 + m * 60 + s)
      case _ => None
  }

  lemma UnitFieldOfShow(v: nat, unit: char)
    requires !IsDigit(unit) && unit != ' '
    ensures ' ' !in Show(v) + [unit]
    ensures UnitField(Show(v) + [unit], unit) == Some(v)
  {
    var f := Show(v) + [unit];
    assert f[..|f| - 1] == Show(v);
    NonDigitNotInShow(v, ' ');
  }

  /** The display splits at its two spaces into three fields "<h>h", "<m>m" and
      "<s>s" whose numbers make up `n`, with minutes and seconds below 60, each
      written without padding (no leading zero, so single digits below ten). */
  lemma FormatDurationFields(n: nat)
    ensures var p := Split(FormatDuration(n), ' ');
      && |p| == 3
      && UnitField(p[0], 'h').Some? && UnitField(p[1], 'm').Some? && UnitField(p[2], 's').Some?
      && var h, m, s := UnitField(p[0], 'h').value, UnitField(p[1], 'm').value, UnitField(p[2], 's').value;
      && h * 3600 + m * 60 + s == n
      && m < 60 && s < 60
      && (p[0][0] != '0' || h == 0) && (p[1][0] != '0' || m == 0) && (p[2][0] != '0' || s == 0)
      && (m < 10 ==> |p[1]| == 2) && (s < 10 ==> |p[2]| == 2)
  {
    var h, m, s := n / 3600, (n % 3600) / 60, n % 60;
    HoursMinutesSeconds(n);
    UnitFieldOfShow(h, 'h');
    UnitFieldOfShow(m, 'm');
    UnitFieldOfShow(s, 's');
    var a, b, c := Show(h) + "h", Show(m) + "m", Show(s) + "s";
    assert FormatDuration(n) == a + [' '] + b + [' '] + c;
    SplitThree(a, b, c, ' ');
  }

  /** Reading the display back gives the seconds it was made from. */
  lemma FormatDurationRoundTrip(n: nat)
    ensures ParseDuration(FormatDuration(n)) == Some(n)
  {
    FormatDurationFields(n);
  }
}
