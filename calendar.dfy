/**
 * Instants on the browser's local clock, as integer milliseconds since
 * 1970-01-01T00:00:00 local time, and the proleptic Gregorian calendar that
 * `new Date('YYYY-MM-DDT00:00:00')` and `getFullYear()` read them with.
 * Daylight-saving shifts are not part of this timeline.
 */
module Calendar {
  const MsPerMinute: int := 1000 * 60
  const MsPerHour: int := 1000 * 60 * 60
  const MsPerDay: int := 1000 * 60 * 60 * 24

  predicate LeapYear(y: int) {
    y % 4 == 0 && (y % 100 != 0 || y % 400 == 0)
  }

  /** Days from 1970-01-01 to January 1 of year `y`: 365 per year plus one per leap year passed. */
  function YearDay(y: int): int {
    365 * (y - 1970) + (y - 1969) / 4 - (y - 1901) / 100 + (y - 1601) / 400
  }

  /** A year is 366 days long when it is a leap year and 365 days otherwise. */
  lemma YearLength(y: int)
    ensures YearDay(y + 1) - YearDay(y) == if LeapYear(y) then 366 else 365
  {
    FourYearStep(y);
    CenturyStep(y);
    QuadCenturyStep(y);
    DivisibilityChain(y);
    var four := if y % 4 == 0 then 1 else 0;
    var century := if y % 100 == 0 then 1 else 0;
    var quad := if y % 400 == 0 then 1 else 0;
    assert YearDay(y + 1) - YearDay(y) == 365 + four - century + quad;
  }

  /** A multiple of 400 is a multiple of 100, and a multiple of 100 one of 4. */
  lemma DivisibilityChain(y: int)
    ensures y % 400 == 0 ==> y % 100 == 0
    ensures y % 100 == 0 ==> y % 4 == 0
  {
  }

  // Each of the three leap-year counts in YearDay steps by one exactly at a multiple of its period.

  lemma FourYearStep(y: int)
    ensures (y - 1968) / 4 - (y - 1969) / 4 == if y % 4 == 0 then 1 else 0
  {
  }

  lemma CenturyStep(y: int)
    ensures (y - 1900) / 100 - (y - 1901) / 100 == if y % 100 == 0 then 1 else 0
  {
  }

  lemma QuadCenturyStep(y: int)
    ensures (y - 1600) / 400 - (y - 1601) / 400 == if y % 400 == 0 then 1 else 0
  {
  }

  /** Days from January 1 to the first of month `m` (1 = January) of year `y`. */
  function MonthDay(y: int, m: int): (d: nat)
    requires 1 <= m <= 12
    ensures d <= 335 && (!LeapYear(y) ==> d <= 334)
  {
    [0, 31, 59, 90, 120, 151, 181, 212, 243, 273, 304, 334][m - 1] + if m > 2 && LeapYear(y) then 1 else 0
  }

  /**
   * The instant of local midnight starting day `d` of month `m` of year `y`:
   * a whole number of days, and inside year `y` for every day 1 to 31.
   */
  function LocalMidnight(y: int, m: int, d: int): (r: int)
    requires 1 <= m <= 12
    ensures r % MsPerDay == 0
    ensures 1 <= d <= 31 ==> IsLocalYear(r, y)
  {
    var days := YearDay(y) + MonthDay(y, m) + d - 1;
    YearLength(y);
    DaysToMs(days);
    DaysToMsOrder(YearDay(y), days);
    DaysToMsOrder(days + 1, YearDay(y + 1));
    days * MsPerDay
  }

  lemma DaysToMs(days: int)
    ensures (days * MsPerDay) % MsPerDay == 0
  {
  }

  lemma DaysToMsOrder(a: int, b: int)
    ensures a <= b ==> a * MsPerDay <= b * MsPerDay
  {
  }

  /** The first instant of year `y`. */
  function YearStart(y: int): int {
    YearDay(y) * MsPerDay
  }

  /** `y` is `now.getFullYear()`: `now` lies in year `y`. */
  predicate IsLocalYear(now: int, y: int) {
    YearStart(y) <= now < YearStart(y + 1)
  }

  /** Later years start later. */
  lemma {:induction false} YearStartIncreasing(a: int, b: int)
    requires a < b
    ensures YearStart(a) < YearStart(b)
    decreases b - a
  {
    YearLength(b - 1);
    if a < b - 1 {
      YearStartIncreasing(a, b - 1);
    }
  }

  /** Comparing the starts of two years compares the years. */
  lemma YearStartReflectsOrder(a: int, b: int)
    ensures YearStart(a) < YearStart(b) ==> a < b
  {
    if b < a {
      YearStartIncreasing(b, a);
    }
  }

  /** Every instant lies in some year... */
  lemma LocalYearExists(now: int)
    ensures exists y :: IsLocalYear(now, y)
  {
    if 0 <= now {
      YearAtOrAfter(now, 1970);
    } else {
      YearBefore(now, 1970);
    }
  }

  /** ...found by counting years up from one that starts no later than `now`... */
  lemma {:induction false} YearAtOrAfter(now: int, y: int)
    requires YearStart(y) <= now
    ensures exists z :: IsLocalYear(now, z)
    decreases now - YearStart(y)
  {
    if !IsLocalYear(now, y) {
      YearStartIncreasing(y, y + 1);
      YearAtOrAfter(now, y + 1);
    }
  }

  /** ...or down from one that starts after it... */
  lemma {:induction false} YearBefore(now: int, y: int)
    requires now < YearStart(y)
    ensures exists z :: IsLocalYear(now, z)
    decreases YearStart(y) - now
  {
    if IsLocalYear(now, y - 1) {
    } else {
      YearStartIncreasing(y - 1, y);
      YearBefore(now, y - 1);
    }
  }

  /** ...and in no more than one. */
  lemma LocalYearUnique(now: int, a: int, b: int)
    requires IsLocalYear(now, a) && IsLocalYear(now, b)
    ensures a == b
  {
    if a < b {
      YearStartIncreasing(a, b);
      if a + 1 < b { YearStartIncreasing(a + 1, b); }
    } else if b < a {
      YearStartIncreasing(b, a);
      if b + 1 < a { YearStartIncreasing(b + 1, a); }
    }
  }
}
