/** The UTC calendar year of a Unix timestamp, as Python's
    `datetime.utcfromtimestamp(ts).year` gives it. Time follows the POSIX
    definition of "Seconds Since the Epoch" (IEEE Std 1003.1-2017, Base
    Definitions, section 4.16): the proleptic Gregorian calendar, exactly
    86400 seconds per day, no leap seconds. */
module UtcCalendar {

  predicate IsLeapYear(y: int) {
    y % 4 == 0 && (y % 100 != 0 || y % 400 == 0)
  }

  /** Days from 1970-01-01 to 1 January of year `y`: the section 4.16 formula
      with tm_yday = 0 and tm_year = y - 1900. Dafny's division rounds down,
      which carries the formula to years before 1970 proleptically. */
  function DaysBeforeYear(y: int): int {
    var ty := y - 1900;
    365 * (ty - 70) + (ty - 69) / 4 - (ty - 1) / 100 + (ty + 299) / 400
  }

  /** The timestamp of 1 January of year `y`, 00:00:00 UTC (86400 seconds a
      day). */
  function YearStart(y: int): int {
    86400 * DaysBeforeYear(y)
  }

  /** Each term of the formula grows by one from year `y` to year `y + 1`
      exactly when `y` is a multiple of its divisor. */
  lemma FourStep(y: int)
    ensures (y - 1968) / 4 - (y - 1969) / 4 == if y % 4 == 0 then 1 else 0
  {
  }

  lemma HundredStep(y: int)
    ensures (y - 1900) / 100 - (y - 1901) / 100 == if y % 100 == 0 then 1 else 0
  {
  }

  lemma FourHundredStep(y: int)
    ensures (y - 1600) / 400 - (y - 1601) / 400 == if y % 400 == 0 then 1 else 0
  {
  }

  lemma LeapNesting(y: int)
    ensures y % 400 == 0 ==> y % 100 == 0
    ensures y % 100 == 0 ==> y % 4 == 0
  {
  }

  /** The day count from one 1 January to the next, term by term. */
  lemma YearTerms(y: int)
    ensures DaysBeforeYear(y + 1) - DaysBeforeYear(y) ==
            365 + ((y - 1968) / 4 - (y - 1969) / 4)
                - ((y - 1900) / 100 - (y - 1901) / 100)
                + ((y - 1600) / 400 - (y - 1601) / 400)
  {
  }

  /** A year has 366 days exactly when it is a Gregorian leap year. */
  lemma YearLength(y: int)
    ensures DaysBeforeYear(y + 1) - DaysBeforeYear(y) == if IsLeapYear(y) then 366 else 365
  {
    YearTerms(y);
    FourStep(y);
    HundredStep(y);
    FourHundredStep(y);
    LeapNesting(y);
  }

  lemma DivisorShifts(n: int)
    ensures (n + 400) / 4 == n / 4 + 100
    ensures (n + 400) / 100 == n / 100 + 4
    ensures (n + 400) / 400 == n / 400 + 1
  {
  }

  /** The calendar repeats every 400 years, which hold 146097 days. */
  lemma Cycle(y: int)
    ensures DaysBeforeYear(y + 400) == DaysBeforeYear(y) + 146097
  {
    var ty := y - 1900;
    DivisorShifts(ty - 69);
    DivisorShifts(ty - 1);
    DivisorShifts(ty + 299);
  }

  lemma {:induction false} DaysBeforeYearIncreasing(a: int, b: int)
    requires a < b
    ensures DaysBeforeYear(a) < DaysBeforeYear(b)
    decreases b - a
  {
    YearLength(b - 1);
    if a < b - 1 {
      DaysBeforeYearIncreasing(a, b - 1);
    }
  }

  /** The year, from `y` on within 1970..2369, whose days contain day `d`. */
  function YearInCycle(d: int, y: int): (r: int)
    requires 1970 <= y < 2370
    requires DaysBeforeYear(y) <= d < 146097
    ensures DaysBeforeYear(r) <= d < DaysBeforeYear(r + 1)
    decreases 2370 - y
  {
    if d < DaysBeforeYear(y + 1) then y else YearInCycle(d, y + 1)
  }

  /** `n` whole cycles later, `n` times as many days later. */
  lemma {:induction false} CyclesForward(y: int, n: nat)
    ensures DaysBeforeYear(y + 400 * n) == DaysBeforeYear(y) + 146097 * n
  {
    if n > 0 {
      CyclesForward(y, n - 1);
      Cycle(y + 400 * (n - 1));
    }
  }

  lemma Cycles(y: int, q: int)
    ensures DaysBeforeYear(y + 400 * q) == DaysBeforeYear(y) + 146097 * q
  {
    if q >= 0 {
      CyclesForward(y, q);
    } else {
      CyclesForward(y + 400 * q, -q);
    }
  }

  /** A day inside year `y` moved by `q` cycles lies inside year `y + 400 * q`. */
  lemma ShiftByCycles(y: int, q: int, r: int, shifted: int)
    requires shifted == y + 400 * q
    requires DaysBeforeYear(y) <= r < DaysBeforeYear(y + 1)
    ensures DaysBeforeYear(shifted) <= r + 146097 * q < DaysBeforeYear(shifted + 1)
  {
    Cycles(y, q);
    Cycles(y + 1, q);
    assert y + 1 + 400 * q == shifted + 1;
  }

  /** The year containing day `r` of the cycle that starts `q` cycles after
      1970. */
  function YearOfCycleDay(q: int, r: int): (y: int)
    requires 0 <= r < 146097
    ensures DaysBeforeYear(y) <= r + 146097 * q < DaysBeforeYear(y + 1)
  {
    var inCycle := YearInCycle(r, 1970);
    var y := inCycle + 400 * q;
    ShiftByCycles(inCycle, q, r, y);
    y
  }

  /** The year containing day `d` (day 0 is 1970-01-01): whole 400-year
      cycles are counted off first, then the year is found within one cycle. */
  function YearOfDay(d: int): (y: int)
    ensures DaysBeforeYear(y) <= d < DaysBeforeYear(y + 1)
  {
    YearOfCycleDay(d / 146097, d % 146097)
  }

  /** `datetime.utcfromtimestamp(ts).year`: the year whose first second is at
      or before `ts` and whose successor's first second is after it. */
  function UtcYear(ts: int): (y: int)
    ensures YearStart(y) <= ts < YearStart(y + 1)
  {
    YearOfDay(ts / 86400)
  }

  /** A timestamp has only one year: any year whose span holds `ts` is the
      one `UtcYear` gives. */
  lemma UtcYearUnique(ts: int, y: int)
    requires YearStart(y) <= ts < YearStart(y + 1)
    ensures UtcYear(ts) == y
  {
    var u := UtcYear(ts);
    if u < y {
      if u + 1 < y {
        DaysBeforeYearIncreasing(u + 1, y);
      }
    } else if y < u {
      if y + 1 < u {
        DaysBeforeYearIncreasing(y + 1, u);
      }
    }
  }

  /** Later timestamps never fall in earlier years. */
  lemma UtcYearMonotone(t1: int, t2: int)
    requires t1 <= t2
    ensures UtcYear(t1) <= UtcYear(t2)
  {
    var y1, y2 := UtcYear(t1), UtcYear(t2);
    if y2 < y1 {
      if y2 + 1 < y1 {
        DaysBeforeYearIncreasing(y2 + 1, y1);
      }
    }
  }

  /** Known year starts: 1969, 1970, 1971, 2000, 2001 and 2002. */
  lemma YearStarts()
    ensures YearStart(1969) == -31536000 && YearStart(1970) == 0 && YearStart(1971) == 31536000
    ensures YearStart(2000) == 946684800 && YearStart(2001) == 978307200
    ensures YearStart(2002) == 1009843200
  {
  }

  lemma YearSpan(t: int, y: int)
    ensures UtcYear(t) == y <==> YearStart(y) <= t < YearStart(y + 1)
  {
    if YearStart(y) <= t < YearStart(y + 1) {
      UtcYearUnique(t, y);
    }
  }

  /** The seconds of 1969, 1970, 2000 and 2001. */
  lemma KnownYears(t: int)
    ensures UtcYear(t) == 1969 <==> -31536000 <= t < 0
    ensures UtcYear(t) == 1970 <==> 0 <= t < 31536000
    ensures UtcYear(t) == 2000 <==> 946684800 <= t < 978307200
    ensures UtcYear(t) == 2001 <==> 978307200 <= t < 1009843200
  {
    YearStarts();
    YearSpan(t, 1969);
    YearSpan(t, 1970);
    YearSpan(t, 2000);
    YearSpan(t, 2001);
  }
}
