/** Residual active insulin and the recommended dose (insulinUtils). The
    clock is the parameter `now`; a date that `parseDate` cannot split
    makes the call throw, modelled as `Failure`, and a date whose fields
    do not read as numbers gives `NaN`. */
module InsulinUtils {
  import opened Wrappers
  import JsMath
  import opened JsValue
  import DateUtils
  import Records

  /** How long a dose keeps acting. */
  const ActiveMinutes := 120
  const ActiveHours := 2

  /** `getTime()` of what `parseDate` built: seconds and milliseconds are 0. */
  function ParsedInstant(c: DateUtils.Civil): int {
    DateUtils.InstantMs(DateUtils.Moment(c, 0, 0))
  }

  /** `getMinutesDiff(now, parseDate(date))`. */
  function ElapsedMinutes(date: string, now: DateUtils.Moment): (r: Result<Num, string>)
    ensures r.Failure? <==> DateUtils.ParseDate(date).Throws?
    ensures r.Success? && r.value.NaN? <==> DateUtils.ParseDate(date).Invalid?
    ensures DateUtils.ParseDate(date).Valid? ==>
      var delta := (DateUtils.InstantMs(now) - ParsedInstant(DateUtils.ParseDate(date).civil)) as real;
      && r.Success? && r.value.Finite?
      && r.value.v == r.value.v.Floor as real
      && r.value.v * 60000.0 <= delta < r.value.v * 60000.0 + 60000.0
  {
    match DateUtils.ParseDate(date)
    case Throws => Failure("TypeError")
    case Invalid => Success(NaN)
    case Valid(c) => Success(Finite(DateUtils.MinutesDiff(DateUtils.InstantMs(now), ParsedInstant(c)) as real))
  }

  /** The residual of a dose `value` after `elapsed` whole minutes, while
      still inside the window: the dose decays linearly to 0 over 120
      minutes, rounded to one decimal. */
  function Residual(value: real, elapsed: int): (r: real)
    requires elapsed < ActiveMinutes
    ensures var exact := value / 120.0 * (120 - elapsed) as real;
      exact - 0.05 < r <= exact + 0.05
    ensures (r * 10.0).Floor as real == r * 10.0
  {
    JsMath.Round1(value / 120.0 * (ActiveMinutes - elapsed) as real)
  }

  /** `calculateActiveInsulin`. */
  function CalculateActiveInsulin(rec: Option<Records.ActiveInsulin>, now: DateUtils.Moment): (r: Result<Num, string>)
    ensures rec.None? ==> r == Success(Finite(0.0))
    ensures rec.Some? ==> (r.Failure? <==> DateUtils.ParseDate(rec.value.date).Throws?)
    ensures rec.Some? && DateUtils.ParseDate(rec.value.date).Invalid? ==> r == Success(NaN)
    ensures rec.Some? && ElapsedMinutes(rec.value.date, now).Success? ==>
      var e := ElapsedMinutes(rec.value.date, now).value;
      && (e.Finite? && e.v >= 120.0 ==> r == Success(Finite(0.0)))
      && (e.Finite? && e.v < 120.0 ==> r == Success(Finite(Residual(rec.value.value, e.v.Floor))))
  {
    match rec
    case None => Success(Finite(0.0))
    case Some(a) =>
      match ElapsedMinutes(a.date, now)
      case Failure(e) => Failure(e)
      case Success(NaN) => Success(NaN)
      case Success(Finite(d)) =>
        if d >= ActiveMinutes as real then Success(Finite(0.0))
        else Success(Finite(Residual(a.value, d.Floor)))
      case Success(_) => Success(NaN)
  }

  /** `getPassedTime`. */
  function PassedTime(rec: Option<Records.ActiveInsulin>, now: DateUtils.Moment): (r: Result<Num, string>)
    ensures rec.None? ==> r == Success(Finite(0.0))
    ensures rec.Some? ==> r == ElapsedMinutes(rec.value.date, now)
  {
    match rec
    case None => Success(Finite(0.0))
    case Some(a) => ElapsedMinutes(a.date, now)
  }

  /** `isInsulinActive`: less than two hours, measured in exact
      milliseconds. */
  function IsInsulinActive(rec: Option<Records.ActiveInsulin>, now: DateUtils.Moment): (r: Result<bool, string>)
    ensures rec.None? ==> r == Success(false)
    ensures rec.Some? ==> (r.Failure? <==> DateUtils.ParseDate(rec.value.date).Throws?)
    ensures rec.Some? && DateUtils.ParseDate(rec.value.date).Invalid? ==> r == Success(false)
    ensures rec.Some? && DateUtils.ParseDate(rec.value.date).Valid? ==>
      r == Success(DateUtils.InstantMs(now) - ParsedInstant(DateUtils.ParseDate(rec.value.date).civil) < 7200000)
  {
    match rec
    case None => Success(false)
    case Some(a) =>
      match DateUtils.ParseDate(a.date)
      case Throws => Failure("TypeError")
      case Invalid => Success(false)
      case Valid(c) =>
        var diffHours := (DateUtils.InstantMs(now) - ParsedInstant(c)) as real / (1000.0 * 60.0 * 60.0);
        Success(diffHours < ActiveHours as real)
  }

  /** The record is active exactly when the elapsed whole minutes are under
      the 120-minute cut-off of `calculateActiveInsulin`. */
  lemma ActiveIffBeforeCutoff(rec: Option<Records.ActiveInsulin>, now: DateUtils.Moment)
    requires rec.Some? && PassedTime(rec, now).Success?
    ensures IsInsulinActive(rec, now).Success?
    ensures IsInsulinActive(rec, now).value <==> PassedTime(rec, now).value.Less(120.0)
  {
    var a := rec.value;
    match DateUtils.ParseDate(a.date)
    case Throws =>
    case Invalid =>
    case Valid(c) =>
      var delta := DateUtils.InstantMs(now) - ParsedInstant(c);
      var m := DateUtils.MinutesDiff(DateUtils.InstantMs(now), ParsedInstant(c));
      assert m * 60000 <= delta < m * 60000 + 60000;
      assert m < 120 <==> delta < 7200000;
  }

  /** For a non-negative dose, the residual never grows as time passes. */
  lemma ResidualNonIncreasing(value: real, e1: int, e2: int)
    requires value >= 0.0 && e1 <= e2 < ActiveMinutes
    ensures 0.0 <= Residual(value, e2) <= Residual(value, e1)
  {
    var x1 := value / 120.0 * (ActiveMinutes - e1) as real;
    var x2 := value / 120.0 * (ActiveMinutes - e2) as real;
    assert 0.0 <= x2 <= x1 by {
      assert (ActiveMinutes - e2) as real <= (ActiveMinutes - e1) as real;
      assert 0.0 <= value / 120.0;
    }
    JsMath.Round1Monotone(x2, x1);
    JsMath.Round1Monotone(0.0, x2);
    assert JsMath.Round1(0.0) == 0.0;
  }

  /** Over all elapsed times: the residual of a non-negative dose is
      non-increasing, reaching 0 at the cut-off. */
  lemma ActiveInsulinNonIncreasing(a: Records.ActiveInsulin, e1: real, e2: real, now1: DateUtils.Moment, now2: DateUtils.Moment)
    requires a.value >= 0.0
    requires ElapsedMinutes(a.date, now1) == Success(Finite(e1))
    requires ElapsedMinutes(a.date, now2) == Success(Finite(e2))
    requires e1 <= e2
    ensures CalculateActiveInsulin(Some(a), now1).Success? && CalculateActiveInsulin(Some(a), now1).value.Finite?
    ensures CalculateActiveInsulin(Some(a), now2).Success? && CalculateActiveInsulin(Some(a), now2).value.Finite?
    ensures 0.0 <= CalculateActiveInsulin(Some(a), now2).value.v <= CalculateActiveInsulin(Some(a), now1).value.v
  {
    if e2 < 120.0 {
      ResidualNonIncreasing(a.value, e1.Floor, e2.Floor);
    } else if e1 < 120.0 {
      ResidualNonIncreasing(a.value, e1.Floor, e1.Floor);
    }
  }

  /** `(glucose - 7) / 3` above 7, else nothing. */
  function GlucoseCorrection(glucose: real): (r: real)
    ensures r >= 0.0
    ensures glucose <= 7.0 ==> r == 0.0
    ensures glucose > 7.0 ==> r * 3.0 + 7.0 == glucose
  {
    if glucose > 7.0 then (glucose - 7.0) / 3.0 else 0.0
  }

  /** `calculateInsulinDose`: the smallest whole number of units covering
      the carbohydrates and the glucose correction, less the residual
      insulin once more than 30 minutes have passed. The result is never
      clamped. */
  function CalculateInsulinDose(totalXE: real, glucose: real, ratio: real, active: Num, passed: Num): (r: Num)
    ensures var need := totalXE * ratio + GlucoseCorrection(glucose);
      !passed.Greater(30.0) ==> r.Finite? && r.v - 1.0 < need <= r.v && r.v == r.v.Floor as real
    ensures var need := totalXE * ratio + GlucoseCorrection(glucose);
      passed.Greater(30.0) && active.Finite? ==>
        r.Finite? && r.v - 1.0 < need - active.v <= r.v && r.v == r.v.Floor as real
    ensures passed.Greater(30.0) && active.NaN? ==> r.NaN?
  {
    var productsValue := totalXE * ratio;
    var glucoseCorrection := GlucoseCorrection(glucose);
    var activeInsulinCorrection := if passed.Greater(30.0) then active else Finite(0.0);
    CeilNum(SubFrom(productsValue + glucoseCorrection, activeInsulinCorrection))
  }

  /** More XE never lowers the dose when the ratio is not negative. */
  lemma DoseMonotoneInXE(xe1: real, xe2: real, glucose: real, ratio: real, active: real, passed: Num)
    requires xe1 <= xe2 && ratio >= 0.0
    ensures CalculateInsulinDose(xe1, glucose, ratio, Finite(active), passed).v
      <= CalculateInsulinDose(xe2, glucose, ratio, Finite(active), passed).v
  {
    var c := if passed.Greater(30.0) then active else 0.0;
    var p1, p2 := xe1 * ratio, xe2 * ratio;
    assert p1 <= p2 by { assert p2 - p1 == (xe2 - xe1) * ratio; }
    var lo, hi := p1 + GlucoseCorrection(glucose) - c, p2 + GlucoseCorrection(glucose) - c;
    JsMath.CeilMonotone(lo, hi);
  }

  /** Higher glucose never lowers the dose. */
  lemma DoseMonotoneInGlucose(xe: real, g1: real, g2: real, ratio: real, active: real, passed: Num)
    requires g1 <= g2
    ensures CalculateInsulinDose(xe, g1, ratio, Finite(active), passed).v
      <= CalculateInsulinDose(xe, g2, ratio, Finite(active), passed).v
  {
    var c := if passed.Greater(30.0) then active else 0.0;
    assert GlucoseCorrection(g1) <= GlucoseCorrection(g2);
    var lo, hi := xe * ratio + GlucoseCorrection(g1) - c, xe * ratio + GlucoseCorrection(g2) - c;
    JsMath.CeilMonotone(lo, hi);
  }

  /** Residual insulin is subtracted after 60 minutes but not at exactly
      30: 3 XE at ratio 2 with glucose 10 and a residual of 3 units. */
  lemma DoseExamples()
    ensures CalculateInsulinDose(3.0, 10.0, 2.0, Finite(3.0), Finite(60.0)) == Finite(4.0)
    ensures CalculateInsulinDose(3.0, 10.0, 2.0, Finite(3.0), Finite(30.0)) == Finite(7.0)
  {
    assert GlucoseCorrection(10.0) == 1.0;
    assert JsMath.Ceil(4.0) == 4;
    assert JsMath.Ceil(7.0) == 7;
  }

  /** A residual larger than the need gives a negative dose, returned as is. */
  lemma DoseNotClamped()
    ensures CalculateInsulinDose(0.0, 5.0, 1.0, Finite(2.0), Finite(45.0)) == Finite(-2.0)
  {
    assert GlucoseCorrection(5.0) == 0.0;
    assert JsMath.Ceil(-2.0) == -2;
  }

  /** A 6-unit dose after 60 minutes has 3.0 units left. */
  lemma ResidualExample()
    ensures Residual(6.0, 60) == 3.0
  {
    assert 6.0 / 120.0 * 60.0 == 3.0;
    assert JsMath.Round(30.0) == 30;
  }
}
