/** The reminder timer: hours and minutes set with four buttons, then
    handed to the system timer as a number of seconds. */
module Timer {
  import JsMath

  datatype Clock = Clock(hours: int, minutes: int)

  /** Which of the two counters `adjustTime` changes. */
  datatype Unit = Hours | Minutes

  /** The four buttons: one hour or a quarter of an hour up or down. */
  datatype Button = HourUp | HourDown | QuarterUp | QuarterDown

  /** The timer starts at 1 h 30 min. */
  const Start := Clock(1, 30)

  predicate Valid(c: Clock) {
    0 <= c.hours <= 23 && 0 <= c.minutes <= 59
  }

  /** `adjustTime`: hours move within 0..23; minutes that pass 59 wrap to 0
      and carry one hour up (never past 23), minutes that drop below 0 wrap
      to 45 and borrow one hour (never below 0). */
  function Adjust(c: Clock, unit: Unit, delta: int): (r: Clock)
    ensures unit == Hours ==> r.minutes == c.minutes && r.hours == JsMath.Clamp(0, 23, c.hours + delta)
    ensures unit == Minutes && c.minutes + delta >= 60 ==> r == Clock(if c.hours + 1 < 23 then c.hours + 1 else 23, 0)
    ensures unit == Minutes && c.minutes + delta < 0 ==> r == Clock(if c.hours - 1 > 0 then c.hours - 1 else 0, 45)
    ensures unit == Minutes && 0 <= c.minutes + delta < 60 ==> r == c.(minutes := c.minutes + delta)
    ensures Valid(c) ==> Valid(r)
  {
    match unit
    case Hours => c.(hours := JsMath.Clamp(0, 23, c.hours + delta))
    case Minutes =>
      var m := c.minutes + delta;
      if m >= 60 then Clock(if c.hours + 1 < 23 then c.hours + 1 else 23, 0)
      else if m < 0 then Clock(if c.hours - 1 > 0 then c.hours - 1 else 0, 45)
      else c.(minutes := m)
  }

  /** What each button passes to `adjustTime`. */
  function Press(c: Clock, b: Button): Clock {
    match b
    case HourUp => Adjust(c, Hours, 1)
    case HourDown => Adjust(c, Hours, -1)
    case QuarterUp => Adjust(c, Minutes, 15)
    case QuarterDown => Adjust(c, Minutes, -15)
  }

  /** The clock after a sequence of presses. */
  function Run(c: Clock, presses: seq<Button>): Clock
    decreases |presses|
  {
    if presses == [] then c else Run(Press(c, presses[0]), presses[1..])
  }

  /** A valid clock on the quarter hour. */
  predicate OnQuarter(c: Clock) {
    Valid(c) && c.minutes % 15 == 0
  }

  /** Every press keeps a clock valid and on the quarter hour. */
  lemma PressKeepsQuarter(c: Clock, b: Button)
    requires OnQuarter(c)
    ensures OnQuarter(Press(c, b))
  {
  }

  /** From the start, any sequence of presses leaves minutes at 0, 15, 30
      or 45 and hours within 0..23. */
  lemma {:induction false} RunKeepsQuarter(c: Clock, presses: seq<Button>)
    requires OnQuarter(c)
    ensures OnQuarter(Run(c, presses))
    ensures Run(c, presses).minutes in {0, 15, 30, 45}
    decreases |presses|
  {
    if presses != [] {
      PressKeepsQuarter(c, presses[0]);
      RunKeepsQuarter(Press(c, presses[0]), presses[1..]);
    }
  }

  lemma ReachableFromStart(presses: seq<Button>)
    ensures OnQuarter(Run(Start, presses))
  {
    RunKeepsQuarter(Start, presses);
  }

  /** `totalSeconds`, the duration handed to the system timer. */
  function TotalSeconds(c: Clock): (r: int)
    ensures Valid(c) ==> 0 <= r < 24 * 3600
    ensures r / 60 == c.hours * 60 + c.minutes
    ensures r % 60 == 0
  {
    c.hours * 3600 + c.minutes * 60
  }

  /** A quarter up then a quarter down restores the clock, except at
      23:45, where the carry is lost. */
  lemma QuarterUpDown(c: Clock)
    requires OnQuarter(c)
    ensures Press(Press(c, QuarterUp), QuarterDown) == c <==> c != Clock(23, 45)
  {
  }

  /** A quarter down then a quarter up restores the clock, except at 0:00,
      where nothing can be borrowed. */
  lemma QuarterDownUp(c: Clock)
    requires OnQuarter(c)
    ensures Press(Press(c, QuarterDown), QuarterUp) == c <==> c != Clock(0, 0)
  {
  }

  /** A quarter up adds 15 minutes to the timer everywhere but at 23:45,
      where it takes 45 minutes off. */
  lemma QuarterUpSeconds(c: Clock)
    requires OnQuarter(c)
    ensures c != Clock(23, 45) ==> TotalSeconds(Press(c, QuarterUp)) == TotalSeconds(c) + 900
    ensures c == Clock(23, 45) ==> TotalSeconds(Press(c, QuarterUp)) == TotalSeconds(c) - 2700
  {
  }
}
