/** Wall-clock timestamps in the fixed `DD.MM.YY HH:mm` format. A `Date` is
    modelled by its broken-down local fields (`Civil`, `Moment`) and by a
    linear count of minutes or milliseconds since 1970-01-01 00:00 local
    time; time zones and daylight saving are not modelled. */
module DateUtils {
  import opened Wrappers
  import Text
  import Numbers
  import JsMath

  /** The arguments of `new Date(year, month - 1, day, hours, minutes)`,
      with a 1-based month. Out-of-range fields are allowed, as the `Date`
      constructor allows them. */
  datatype Civil = Civil(year: int, month: int, day: int, hour: int, minute: int)

  /** A clock reading: what `new Date()` reports through its getters. */
  datatype Moment = Moment(civil: Civil, second: int, millis: int)

  predicate IsLeapYear(y: int) {
    y % 4 == 0 && (y % 100 != 0 || y % 400 == 0)
  }

  function DaysInMonth(y: int, m: int): (n: int)
    requires 1 <= m <= 12
    ensures 28 <= n <= 31
  {
    if m == 2 then (if IsLeapYear(y) then 29 else 28)
    else if m == 4 || m == 6 || m == 9 || m == 11 then 30
    else 31
  }

  /** Fields as a `Date`'s getters report them. */
  predicate WellFormed(c: Civil) {
    && 1 <= c.month <= 12
    && 1 <= c.day <= DaysInMonth(c.year, c.month)
    && 0 <= c.hour < 24
    && 0 <= c.minute < 60
  }

  /** Each field within its widest range, whatever the month. */
  predicate InRanges(c: Civil) {
    && 1 <= c.month <= 12
    && 1 <= c.day <= 31
    && 0 <= c.hour < 24
    && 0 <= c.minute < 60
  }

  predicate WellFormedMoment(m: Moment) {
    WellFormed(m.civil) && 0 <= m.second < 60 && 0 <= m.millis < 1000
  }

  /** Days from 1970-01-01 to the proleptic Gregorian date `y-m-d`, with
      years counted from March so that the leap day ends a year. */
  function DaysFromCivil(y: int, m: int, d: int): int
    requires 1 <= m <= 12
  {
    var y' := if m <= 2 then y - 1 else y;
    var era := y' / 400;
    var yoe := y' - era * 400;
    var mp := if m > 2 then m - 3 else m + 9;
    var doy := (153 * mp + 2) / 5 + d - 1;
    var doe := yoe * 365 + yoe / 4 - yoe / 100 + doy;
    era * 146097 + doe - 719468
  }

  /** The `Date` constructor reads a year between 0 and 99 as 19xx. */
  function FullYear(y: int): int {
    if 0 <= y <= 99 then 1900 + y else y
  }

  /** Minutes since the epoch of `new Date(year, month - 1, day, hours,
      minutes)`; months outside 1..12 carry into the year, and days, hours
      and minutes outside their ranges carry linearly, as MakeDay and
      MakeTime do (section 21.4.1 of ECMA-262). */
  function EpochMinutes(c: Civil): int {
    var m0 := c.month - 1;
    var days := DaysFromCivil(FullYear(c.year) + m0 / 12, m0 % 12 + 1, 1) + c.day - 1;
    days * 1440 + c.hour * 60 + c.minute
  }

  /** `date.getTime()` of a clock reading. */
  function InstantMs(m: Moment): int {
    EpochMinutes(m.civil) * 60000 + m.second * 1000 + m.millis
  }

  /** `getMinutesDiff(a, b)`: whole minutes from `b` to `a`, rounded down. */
  function MinutesDiff(aMs: int, bMs: int): (r: int)
    ensures r * 60000 <= aMs - bMs < r * 60000 + 60000
  {
    (aMs - bMs) / 60000
  }

  lemma MinutesDiffSame(t: int)
    ensures MinutesDiff(t, t) == 0
  {
  }

  /** Minute-aligned instants differ by an exact number of minutes. */
  lemma MinutesDiffAligned(a: int, b: int)
    ensures MinutesDiff(a * 60000, b * 60000) == a - b
  {
    var r := MinutesDiff(a * 60000, b * 60000);
    assert (r - (a - b)) * 60000 <= 0 < (r - (a - b)) * 60000 + 60000;
  }

  /** What `parseDate` yields: a `TypeError` when there is no space (the
      time part is `undefined`), an invalid date when a field is not a
      number, else the constructor arguments. */
  datatype ParsedDate = Throws | Invalid | Valid(civil: Civil)

  /** `parseInt(parts[i])`, where a missing part is `undefined` and reads
      as `NaN`. */
  function FieldAt(parts: seq<string>, i: nat): Option<int> {
    if i < |parts| then Numbers.ParseInt(parts[i]) else None
  }

  /** The constructor arguments read from the `.`-separated date parts
      and the `:`-separated time parts. */
  function FromParts(dateParts: seq<string>, timeParts: seq<string>): ParsedDate {
    var d := FieldAt(dateParts, 0);
    var mo := FieldAt(dateParts, 1);
    var y := FieldAt(dateParts, 2);
    var h := FieldAt(timeParts, 0);
    var mi := FieldAt(timeParts, 1);
    if d.Some? && mo.Some? && y.Some? && h.Some? && mi.Some? then
      Valid(Civil(2000 + y.value, mo.value, d.value, h.value, mi.value))
    else Invalid
  }

  /** `parseDate` (dateUtils) and the identical local `parseDate` of the
      store: split on spaces, then the first part on `.` and the second on
      `:`. */
  function ParseDate(s: string): (r: ParsedDate)
    ensures r.Throws? <==> ' ' !in s
  {
    var halves := Text.Split(s, ' ');
    if |halves| < 2 then
      assert ' ' !in s by {
        assert Text.Join(halves, " ") == halves[0];
      }
      Throws
    else
      assert ' ' in s by { JoinHasSeparator(halves, ' '); }
      FromParts(Text.Split(halves[0], '.'), Text.Split(halves[1], ':'))
  }

  lemma JoinHasSeparator(parts: seq<string>, sep: char)
    requires |parts| >= 2
    ensures sep in Text.Join(parts, [sep])
  {
    var j := Text.Join(parts, [sep]);
    assert j == parts[0] + [sep] + Text.Join(parts[1..], [sep]);
    assert j[|parts[0]|] == sep;
  }

  /** Two-digit text of a clock field, `String(n).padStart(2, '0')`. */
  function Pad2(n: int): string {
    Text.PadStart2(Numbers.IntToString(n))
  }

  /** The `DD.MM.YY` half of `formatDate`. */
  function DatePart(c: Civil): string {
    Pad2(c.day) + "." + Pad2(c.month) + "." + Text.LastTwo(Numbers.IntToString(c.year))
  }

  /** The `HH:mm` half of `formatDate`. */
  function TimePart(c: Civil): string {
    Pad2(c.hour) + ":" + Pad2(c.minute)
  }

  /** `formatDate`: day, month, hour and minute padded to two digits, the
      year cut to its last two digits; seconds are dropped. */
  function FormatDate(m: Moment): string
    requires WellFormedMoment(m)
  {
    DatePart(m.civil) + " " + TimePart(m.civil)
  }

  /** `formatDuration`: whole hours and the remaining minutes when there is
      at least one hour, else the minutes alone, as `%` leaves them. */
  function FormatDuration(minutes: int): (r: string)
    ensures minutes >= 60 ==> exists h: int, mm: int ::
      && h >= 1 && 0 <= mm < 60 && h * 60 + mm == minutes
      && r == Numbers.IntToString(h) + " ч " + Numbers.IntToString(mm) + " мин"
    ensures 0 <= minutes < 60 ==> r == Numbers.IntToString(minutes) + " мин"
    ensures minutes < 0 ==> exists mm: int ::
      -60 < mm <= 0 && (minutes - mm) % 60 == 0 && r == Numbers.IntToString(mm) + " мин"
  {
    var hours := minutes / 60;
    var mins := JsMath.TruncRem(minutes, 60);
    if hours > 0 then
      assert mins == minutes % 60;
      Numbers.IntToString(hours) + " ч " + Numbers.IntToString(mins) + " мин"
    else
      assert 0 <= minutes < 60 ==> mins == minutes;
      assert minutes < 0 ==> (minutes - mins) % 60 == 0;
      Numbers.IntToString(mins) + " мин"
  }

  lemma TwoDigits(n: int)
    requires 0 <= n < 100
    ensures var s := Pad2(n);
      |s| == 2 && Numbers.AllDigits(s) && Numbers.DigitsValue(s) == n
  {
    var s := Pad2(n);
    Numbers.NatToStringRoundTrip(n);
    if n < 10 {
      assert s == "0" + Numbers.NatToString(n);
      assert s[..1] == "0";
    }
  }

  lemma YearDigits(y: int)
    requires 1000 <= y <= 9999
    ensures var s := Text.LastTwo(Numbers.IntToString(y));
      |s| == 2 && Numbers.AllDigits(s) && Numbers.DigitsValue(s) == y % 100
  {
    var full := Numbers.NatToString(y);
    var s := Text.LastTwo(full);
    assert full == Numbers.NatToString(y / 10) + [Numbers.DigitChar(y % 10)];
    var tens := Numbers.NatToString(y / 10);
    assert tens == Numbers.NatToString(y / 100) + [Numbers.DigitChar((y / 10) % 10)];
    assert s == [Numbers.DigitChar((y / 10) % 10), Numbers.DigitChar(y % 10)];
    DigitsValueTwo(s);
  }

  lemma SplitWithout(a: string, sep: char)
    requires sep !in a
    ensures Text.Split(a, sep) == [a]
  {
  }

  lemma SplitAfter(a: string, b: string, sep: char)
    requires sep !in a
    ensures Text.Split(a + [sep] + b, sep) == [a] + Text.Split(b, sep)
  {
    var s := a + [sep] + b;
    var r := Text.IndexOfChar(s, sep);
    assert s[|a|] == sep;
    assert s[..|a| + 1][|a|] == sep;
    assert s[..|a|] == a;
    assert s[|a| + 1..] == b;
  }

  lemma DigitsValueTwo(s: string)
    requires |s| == 2 && Numbers.AllDigits(s)
    ensures Numbers.DigitsValue(s) == Numbers.DigitValue(s[0]) * 10 + Numbers.DigitValue(s[1])
  {
    var p := s[..1];
    assert s[..|s| - 1] == p;
    assert p[..|p| - 1] == [];
    assert Numbers.DigitsValue(p) == Numbers.DigitValue(s[0]);
  }

  /** For years of four digits the text is exactly `DD.MM.YY HH:mm`: 14
      characters, digits around the separators. */
  lemma FormatDateShape(m: Moment)
    requires WellFormedMoment(m) && 1000 <= m.civil.year <= 9999
    ensures var s := FormatDate(m);
      && |s| == 14
      && s[2] == '.' && s[5] == '.' && s[8] == ' ' && s[11] == ':'
      && forall i :: 0 <= i < 14 && i != 2 && i != 5 && i != 8 && i != 11 ==> Numbers.IsDigit(s[i])
  {
    var c := m.civil;
    TwoDigits(c.day);
    TwoDigits(c.month);
    YearDigits(c.year);
    TwoDigits(c.hour);
    TwoDigits(c.minute);
    FieldsShape(Pad2(c.day), Pad2(c.month), Text.LastTwo(Numbers.IntToString(c.year)), Pad2(c.hour), Pad2(c.minute));
  }

  /** Five two-digit fields joined as `a.b.c d:e`. */
  lemma FieldsShape(a: string, b: string, c: string, d: string, e: string)
    requires |a| == 2 && |b| == 2 && |c| == 2 && |d| == 2 && |e| == 2
    requires Numbers.AllDigits(a) && Numbers.AllDigits(b) && Numbers.AllDigits(c)
    requires Numbers.AllDigits(d) && Numbers.AllDigits(e)
    ensures var s := a + "." + b + "." + c + " " + (d + ":" + e);
      && |s| == 14
      && s[2] == '.' && s[5] == '.' && s[8] == ' ' && s[11] == ':'
      && forall i :: 0 <= i < 14 && i != 2 && i != 5 && i != 8 && i != 11 ==> Numbers.IsDigit(s[i])
  {
    var s := a + "." + b + "." + c + " " + (d + ":" + e);
    assert s == [a[0], a[1], '.', b[0], b[1], '.', c[0], c[1], ' ', d[0], d[1], ':', e[0], e[1]];
  }

  /** Splitting `a<sep>b<sep>c` when the pieces are two digits each. */
  lemma SplitThree(a: string, b: string, c: string, sep: char)
    requires |a| == 2 && |b| == 2 && |c| == 2
    requires Numbers.AllDigits(a) && Numbers.AllDigits(b) && Numbers.AllDigits(c)
    requires !Numbers.IsDigit(sep)
    ensures Text.Split(a + [sep] + b + [sep] + c, sep) == [a, b, c]
  {
    assert sep !in a && sep !in b && sep !in c;
    assert a + [sep] + b + [sep] + c == a + [sep] + (b + [sep] + c);
    SplitAfter(a, b + [sep] + c, sep);
    SplitAfter(b, c, sep);
  }

  lemma SplitDate(c: Civil)
    requires InRanges(c) && 1000 <= c.year <= 9999
    ensures Text.Split(DatePart(c), '.') == [Pad2(c.day), Pad2(c.month), Text.LastTwo(Numbers.IntToString(c.year))]
  {
    TwoDigits(c.day);
    TwoDigits(c.month);
    YearDigits(c.year);
    SplitThree(Pad2(c.day), Pad2(c.month), Text.LastTwo(Numbers.IntToString(c.year)), '.');
  }

  lemma SplitTime(c: Civil)
    requires InRanges(c)
    ensures Text.Split(TimePart(c), ':') == [Pad2(c.hour), Pad2(c.minute)]
  {
    TwoDigits(c.hour);
    TwoDigits(c.minute);
    assert ':' !in Pad2(c.hour) && ':' !in Pad2(c.minute);
    SplitAfter(Pad2(c.hour), Pad2(c.minute), ':');
  }

  /** A digit string holds no separator. */
  lemma NoSeparator(s: string, sep: char)
    requires Numbers.AllDigits(s) && !Numbers.IsDigit(sep)
    ensures sep !in s
  {
  }

  lemma SplitHalves(c: Civil)
    requires InRanges(c) && 1000 <= c.year <= 9999
    ensures Text.Split(DatePart(c) + " " + TimePart(c), ' ') == [DatePart(c), TimePart(c)]
  {
    TwoDigits(c.day);
    TwoDigits(c.month);
    YearDigits(c.year);
    TwoDigits(c.hour);
    TwoDigits(c.minute);
    NoSeparator(Pad2(c.day), ' ');
    NoSeparator(Pad2(c.month), ' ');
    NoSeparator(Text.LastTwo(Numbers.IntToString(c.year)), ' ');
    NoSeparator(Pad2(c.hour), ' ');
    NoSeparator(Pad2(c.minute), ' ');
    SplitAfter(DatePart(c), TimePart(c), ' ');
    SplitWithout(TimePart(c), ' ');
  }


  /** A padded clock field reads back as its value. */
  lemma ParsePad(n: int)
    requires 0 <= n < 100
    ensures Numbers.ParseInt(Pad2(n)) == Some(n)
  {
    TwoDigits(n);
    Numbers.ParseIntDigits(Pad2(n), n);
  }

  /** The two-digit year of this century reads back as the years since
      2000. */
  lemma ParseYear(y: int)
    requires 2000 <= y <= 2099
    ensures Numbers.ParseInt(Text.LastTwo(Numbers.IntToString(y))) == Some(y - 2000)
  {
    var s := Text.LastTwo(Numbers.IntToString(y));
    CenturyDigits(y);
    Numbers.ParseIntDigits(s, y - 2000);
  }

  /** The last two digits of a year of this century are the years since
      2000. */
  lemma CenturyDigits(y: int)
    requires 2000 <= y <= 2099
    ensures var s := Text.LastTwo(Numbers.IntToString(y));
      |s| == 2 && Numbers.AllDigits(s) && Numbers.DigitsValue(s) == y - 2000
  {
    YearDigits(y);
    CenturyYear(y);
  }

  /** Five readable fields make a valid date. */
  lemma FromReadableParts(dd: string, mo: string, yy: string, hh: string, mi: string, c: Civil)
    requires Numbers.ParseInt(dd) == Some(c.day) && Numbers.ParseInt(mo) == Some(c.month)
    requires Numbers.ParseInt(yy) == Some(c.year - 2000)
    requires Numbers.ParseInt(hh) == Some(c.hour) && Numbers.ParseInt(mi) == Some(c.minute)
    ensures FromParts([dd, mo, yy], [hh, mi]) == Valid(c)
  {
  }

  lemma ParseFormatted(c: Civil)
    requires InRanges(c) && 1000 <= c.year <= 9999
    ensures ParseDate(DatePart(c) + " " + TimePart(c))
      == FromParts([Pad2(c.day), Pad2(c.month), Text.LastTwo(Numbers.IntToString(c.year))], [Pad2(c.hour), Pad2(c.minute)])
  {
    SplitHalves(c);
    SplitDate(c);
    SplitTime(c);
  }

  lemma CenturyYear(y: int)
    requires 2000 <= y <= 2099
    ensures y % 100 == y - 2000
  {
    assert y == 2000 + (y - 2000) && 0 <= y - 2000 < 100;
  }

  /** The day and month of a clock reading read back. */
  lemma DayMonthParse(c: Civil)
    requires InRanges(c)
    ensures Numbers.ParseInt(Pad2(c.day)) == Some(c.day)
    ensures Numbers.ParseInt(Pad2(c.month)) == Some(c.month)
  {
    ParsePad(c.day);
    ParsePad(c.month);
  }

  /** The time fields of a clock reading read back. */
  lemma TimeFieldsParse(c: Civil)
    requires InRanges(c)
    ensures Numbers.ParseInt(Pad2(c.hour)) == Some(c.hour)
    ensures Numbers.ParseInt(Pad2(c.minute)) == Some(c.minute)
  {
    ParsePad(c.hour);
    ParsePad(c.minute);
  }

  lemma PartsOfCivil(c: Civil)
    requires InRanges(c) && 2000 <= c.year <= 2099
    ensures FromParts([Pad2(c.day), Pad2(c.month), Text.LastTwo(Numbers.IntToString(c.year))], [Pad2(c.hour), Pad2(c.minute)]) == Valid(c)
  {
    DayMonthParse(c);
    ParseYear(c.year);
    TimeFieldsParse(c);
    FromReadableParts(Pad2(c.day), Pad2(c.month), Text.LastTwo(Numbers.IntToString(c.year)), Pad2(c.hour), Pad2(c.minute), c);
  }

  lemma ParseCivilText(c: Civil)
    requires InRanges(c) && 2000 <= c.year <= 2099
    ensures ParseDate(DatePart(c) + " " + TimePart(c)) == Valid(c)
  {
    ParseFormatted(c);
    PartsOfCivil(c);
  }

  /** Reading back a formatted clock reading of this century gives its
      fields, truncated to the minute. */
  lemma FormatParseRoundTrip(m: Moment)
    requires WellFormedMoment(m) && 2000 <= m.civil.year <= 2099
    ensures ParseDate(FormatDate(m)) == Valid(m.civil)
  {
    ParseCivilText(m.civil);
  }

  /** On the same day, the instant moves with the hour. */
  lemma SameDayLater(c: Civil, h: int)
    ensures EpochMinutes(c.(hour := h)) == EpochMinutes(c) + (h - c.hour) * 60
  {
  }

  /** Two stored timestamps an hour apart read back as their fields. */
  lemma ParseDateExamples()
    ensures ParseDate("02.01.25 10:00") == Valid(Civil(2025, 1, 2, 10, 0))
    ensures ParseDate("02.01.25 09:00") == Valid(Civil(2025, 1, 2, 9, 0))
  {
    TenOClock();
    NineOClock();
  }

  lemma TenOClock()
    ensures ParseDate("02.01.25 10:00") == Valid(Civil(2025, 1, 2, 10, 0))
  {
    var c := Civil(2025, 1, 2, 10, 0);
    SecondOfJanuary(c);
    assert Pad2(10) == "10";
    assert Pad2(0) == "00";
    assert DatePart(c) + " " + TimePart(c) == "02.01.25 10:00";
    ParseCivilText(c);
  }

  lemma NineOClock()
    ensures ParseDate("02.01.25 09:00") == Valid(Civil(2025, 1, 2, 9, 0))
  {
    var c := Civil(2025, 1, 2, 9, 0);
    SecondOfJanuary(c);
    assert Pad2(9) == "09";
    assert Pad2(0) == "00";
    assert DatePart(c) + " " + TimePart(c) == "02.01.25 09:00";
    ParseCivilText(c);
  }

  /** 2 January 2025 is written `02.01.25`. */
  lemma SecondOfJanuary(c: Civil)
    requires c.year == 2025 && c.month == 1 && c.day == 2
    ensures DatePart(c) == "02.01.25"
  {
    assert Numbers.NatToString(2025) == "2025";
    assert Text.LastTwo(Numbers.IntToString(2025)) == "25";
    assert Pad2(2) == "02";
    assert Pad2(1) == "01";
  }
}
