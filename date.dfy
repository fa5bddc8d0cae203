/**
 * `selectUnit` (src/utils/date.ts): the unit and signed amount in which a
 * commit's relative time is shown. The clock and date-fns's
 * `intervalToDuration` are outside the model: the duration between now and
 * the date, and whether the date lies in the future, are the inputs.
 */
module Date {

  /**
   * What `intervalToDuration` returns: whole, non-negative components. A
   * component the library leaves out is 0 here; both are falsy to the
   * cascade and `seconds || 0` treats them alike.
   */
  datatype Duration = Duration(years: nat, months: nat, days: nat, hours: nat, minutes: nat, seconds: nat)

  /** The declared `Unit` type, `quarter` included. */
  datatype Unit = Year | Quarter | Month | Week | Day | Hour | Minute | Second

  datatype Relative = Relative(value: int, unit: Unit)

  /** `Math.ceil(n / 7)` for a non-negative `n`. */
  function WeeksUp(n: nat): (w: nat)
    ensures 7 * (w - 1) < n <= 7 * w || (n == 0 && w == 0)
  {
    (n + 6) / 7
  }

  /** `isInFuture ? n : -n`. */
  function Signed(n: nat, isInFuture: bool): int {
    if isInFuture then n else -(n as int)
  }

  /** `selectUnit`: the first non-zero component picks the unit; more than six days count in weeks. */
  function SelectUnit(d: Duration, isInFuture: bool): (r: Relative)
    ensures r.unit != Quarter
    ensures isInFuture ==> r.value >= 0
    ensures !isInFuture ==> r.value <= 0
  {
    if d.years != 0 then Relative(Signed(d.years, isInFuture), Year)
    else if d.months != 0 then Relative(Signed(d.months, isInFuture), Month)
    else if d.days != 0 then
      if d.days > 6 then
        // Math.floor(-days / 7) on the past side: Dafny's `/` floors for a positive divisor
        Relative(if isInFuture then WeeksUp(d.days) as int else -(d.days as int) / 7, Week)
      else Relative(Signed(d.days, isInFuture), Day)
    else if d.hours != 0 then Relative(Signed(d.hours, isInFuture), Hour)
    else if d.minutes != 0 then Relative(Signed(d.minutes, isInFuture), Minute)
    else Relative(Signed(d.seconds, isInFuture), Second)
  }

  /** The components in the order the cascade reads them. */
  function Leading(d: Duration): seq<nat> {
    [d.years, d.months, d.days, d.hours, d.minutes]
  }

  /** The index of the first non-zero entry of `cs`, or `|cs|` when all are zero. */
  function FirstNonZero(cs: seq<nat>): (i: nat)
    ensures i <= |cs| && (i < |cs| ==> cs[i] != 0) && forall j :: 0 <= j < i ==> cs[j] == 0
  {
    if cs == [] then 0 else if cs[0] != 0 then 0 else 1 + FirstNonZero(cs[1..])
  }

  /** The unit named by position in `Leading`, with the week rule for days; `second` when all are zero. */
  function UnitAt(i: nat, d: Duration): Unit {
    if i == 0 then Year
    else if i == 1 then Month
    else if i == 2 then (if d.days > 6 then Week else Day)
    else if i == 3 then Hour
    else if i == 4 then Minute
    else Second
  }

  /** The unit is that of the first non-zero component among years, months, days, hours and minutes, else `second`. */
  lemma UnitIsFirstNonZero(d: Duration, isInFuture: bool)
    ensures SelectUnit(d, isInFuture).unit == UnitAt(FirstNonZero(Leading(d)), d)
  {
    LeadingIndex(d);
  }

  /** Where the first non-zero component sits, case by case. */
  lemma LeadingIndex(d: Duration)
    ensures FirstNonZero(Leading(d)) ==
      if d.years != 0 then 0
      else if d.months != 0 then 1
      else if d.days != 0 then 2
      else if d.hours != 0 then 3
      else if d.minutes != 0 then 4
      else 5
  {
    var cs := Leading(d);
    var i := FirstNonZero(cs);
    assert cs[0] == d.years && cs[1] == d.months && cs[2] == d.days && cs[3] == d.hours && cs[4] == d.minutes;
    if i < 5 {
      assert cs[i] != 0;
    }
    assert i > 0 ==> cs[0] == 0;
    assert i > 1 ==> cs[1] == 0;
    assert i > 2 ==> cs[2] == 0;
    assert i > 3 ==> cs[3] == 0;
    assert i > 4 ==> cs[4] == 0;
  }

  /** How many of the unit the value counts: the component itself, or whole weeks rounded up. */
  function Amount(d: Duration): nat {
    var i := FirstNonZero(Leading(d));
    if i == 2 && d.days > 6 then WeeksUp(d.days)
    else if i < 5 then Leading(d)[i]
    else d.seconds
  }

  /** The value is the amount, positive for a future date and negated for a past one. */
  lemma ValueIsSignedAmount(d: Duration, isInFuture: bool)
    ensures SelectUnit(d, isInFuture).value == Signed(Amount(d), isInFuture)
  {
    LeadingIndex(d);
    if FirstNonZero(Leading(d)) == 2 && d.days > 6 && !isInFuture {
      FloorOfNegated(d.days);
    }
  }

  /** `Math.floor(-n / 7) == -Math.ceil(n / 7)`. */
  lemma FloorOfNegated(n: nat)
    ensures -(n as int) / 7 == -(WeeksUp(n) as int)
  {
    var q: int := (n + 6) / 7;
    var r: int := (n + 6) % 7;
    assert n + 6 == 7 * q + r && 0 <= r < 7;
    assert -(n as int) == 7 * (-q) + (6 - r);
  }

  /** A date the same distance ahead or behind gets the same unit and the opposite value. */
  lemma Symmetric(d: Duration)
    ensures SelectUnit(d, true).unit == SelectUnit(d, false).unit
    ensures SelectUnit(d, true).value == -SelectUnit(d, false).value
  {
    ValueIsSignedAmount(d, true);
    ValueIsSignedAmount(d, false);
  }

  /** More than six days, and no years or months, shows weeks: ⌈days / 7⌉ ahead or -⌈days / 7⌉ behind. */
  lemma Weeks(d: Duration, isInFuture: bool)
    requires d.years == 0 && d.months == 0 && d.days > 6
    ensures SelectUnit(d, isInFuture) == Relative(Signed(WeeksUp(d.days), isInFuture), Week)
  {
    if !isInFuture {
      FloorOfNegated(d.days);
    }
  }

  /** A zero duration is shown as 0 seconds. */
  lemma Now(isInFuture: bool)
    ensures SelectUnit(Duration(0, 0, 0, 0, 0, 0), isInFuture) == Relative(0, Second)
  {
  }
}
