/**
 * The countdown: splitting a millisecond delta into days, hours and minutes
 * (`getTimeDifference`), rendering each field in a cell (`updateDisplay`), and
 * choosing between the Ramadan and the Eid panel (`updateCountdowns`).
 */
module Countdown {
  import opened Wrappers
  import opened Text
  import opened Calendar
  import opened Ramadan

  /** The object `getTimeDifference` returns. */
  datatype TimeDiff = TimeDiff(total: int, days: int, hours: int, minutes: int)

  /** JavaScript's `a % b`: the remainder of division truncated toward zero, with the sign of `a`. */
  function JsRem(a: int, b: int): (r: int)
    requires b > 0
    ensures a >= 0 ==> 0 <= r < b
    ensures a <= 0 ==> -b < r <= 0
  {
    if a >= 0 then a % b else -((-a) % b)
  }

  /** The quotient of division truncated toward zero, which JavaScript's `%` is the remainder of. */
  function TruncDiv(a: int, b: int): int
    requires b > 0
  {
    if a >= 0 then a / b else -((-a) / b)
  }

  /** `a % b` is what remains of `a` after taking away `b` times its truncated quotient. */
  lemma JsRemIsTruncatedRemainder(a: int, b: int)
    requires b > 0
    ensures a == b * TruncDiv(a, b) + JsRem(a, b)
  {
    if a < 0 {
      var q := (-a) / b;
      assert -a == b * q + (-a) % b;
      assert b * -q == -(b * q);
    }
  }

  /** `Math.floor(a / b)` for a positive `b`; Dafny's `/` by a positive divisor rounds down already. */
  function FloorDiv(a: int, b: int): (q: int)
    requires b > 0
    ensures b * q <= a < b * q + b
  {
    a / b
  }

  /**
   * `getTimeDifference(target)` evaluated at instant `now`. For a target not
   * in the past the fields are at least zero, with hours below 24 and minutes
   * below 60; for a target in the past the truncating `%` makes every field
   * negative or zero, and the days at most -1.
   */
  function TimeDifference(target: int, now: int): (r: TimeDiff)
    ensures r.total == target - now
    ensures now <= target ==> r.days >= 0 && 0 <= r.hours <= 23 && 0 <= r.minutes <= 59
    ensures target < now ==> r.days <= -1 && -24 <= r.hours <= 0 && -60 <= r.minutes <= 0
  {
    var diff := target - now;
    TimeDiff(diff,
             FloorDiv(diff, MsPerDay),
             FloorDiv(JsRem(diff, MsPerDay), MsPerHour),
             FloorDiv(JsRem(diff, MsPerHour), MsPerMinute))
  }

  /**
   * For a target not in the past the three fields are the whole days, the
   * remaining whole hours and the remaining whole minutes of the delta.
   */
  lemma TimeSplitNonNegative(target: int, now: int)
    requires now <= target
    ensures var t := TimeDifference(target, now);
      && t.total == target - now
      && t.days == (target - now) / MsPerDay
      && 0 <= t.hours <= 23 && 0 <= t.minutes <= 59
      && t.days * MsPerDay + t.hours * MsPerHour + t.minutes * MsPerMinute <= target - now
      && target - now < t.days * MsPerDay + t.hours * MsPerHour + t.minutes * MsPerMinute + MsPerMinute
  {
    var diff := target - now;
    var t := TimeDifference(target, now);
    var dayRest := diff % MsPerDay;
    assert diff == MsPerDay * t.days + dayRest;
    assert dayRest == MsPerHour * t.hours + dayRest % MsPerHour;
    assert 0 <= t.hours < 24;
    // the hours remainder of the whole delta is the hours remainder of the day remainder
    HourRemainder(diff, t.days, t.hours, dayRest % MsPerHour);
    assert JsRem(diff, MsPerHour) == MsPerMinute * t.minutes + JsRem(diff, MsPerHour) % MsPerMinute;
  }

  lemma HourRemainder(diff: int, days: int, hours: int, rest: int)
    requires 0 <= rest < MsPerHour
    requires diff == MsPerDay * days + MsPerHour * hours + rest
    ensures diff % MsPerHour == rest
  {
    assert diff == MsPerHour * (24 * days + hours) + rest;
  }

  /** The text of one countdown cell: the field clamped at zero and padded to two digits. */
  function CellText(n: int): (r: string)
    ensures |r| >= 2 && AllDigits(r)
  {
    PadStart(NatToString(if n < 0 then 0 else n), 2, '0')
  }

  /**
   * A cell shows only digits, at least two of them, whose value is the field
   * clamped at zero; it has a leading zero only for a value below ten and
   * more than two digits only from 100 on.
   */
  lemma CellTextMeaning(n: int)
    ensures var shown := if n < 0 then 0 else n;
      && |CellText(n)| >= 2 && AllDigits(CellText(n))
      && DecimalValue(CellText(n)) == shown
      && (CellText(n)[0] == '0' <==> shown < 10)
      && (|CellText(n)| == 2 <==> shown < 100)
  {
    var shown := if n < 0 then 0 else n;
    var s := NatToString(shown);
    DecimalRoundTrip(shown);
    if |s| < 2 {
      LeadingZeros(2 - |s|, s);
    }
  }

  /** A field of zero or less is shown as "00". */
  lemma CellTextClamps(n: int)
    requires n <= 0
    ensures CellText(n) == "00"
  {
  }

  /** The element ids of one countdown's day, hour and minute cells. */
  datatype CellIds = CellIds(days: string, hours: string, minutes: string)

  /** The ids `updateDisplay(id, …)` writes: `days` for an empty id, `${id}-days` otherwise. */
  function CountdownCells(id: string): (r: CellIds)
    ensures r.days != r.hours && r.days != r.minutes && r.hours != r.minutes
  {
    if id == "" then CellIds("days", "hours", "minutes")
    else CellIds(id + "-days", id + "-hours", id + "-minutes")
  }

  /** The kind of cell an id names, read from its second-to-last character. */
  function KindMark(s: string): char
    requires |s| >= 2
  {
    s[|s| - 2]
  }

  /**
   * Two countdowns with different ids never share a cell, and the three cells
   * of one countdown are different elements.
   */
  lemma CountdownCellsDisjoint(a: string, b: string)
    ensures var ca, cb := CountdownCells(a), CountdownCells(b);
      && ca.days != ca.hours && ca.days != ca.minutes && ca.hours != ca.minutes
      && (a != b ==> {ca.days, ca.hours, ca.minutes} !! {cb.days, cb.hours, cb.minutes})
  {
    var ca, cb := CountdownCells(a), CountdownCells(b);
    assert KindMark(ca.days) == 'y' && KindMark(ca.hours) == 'r' && KindMark(ca.minutes) == 'e';
    assert KindMark(cb.days) == 'y' && KindMark(cb.hours) == 'r' && KindMark(cb.minutes) == 'e';
    if a != b {
      SameSuffix(a, b, "-days");
      SameSuffix(a, b, "-hours");
      SameSuffix(a, b, "-minutes");
    }
  }

  /** Ids of one kind that differ come from different countdown ids. */
  lemma SameSuffix(a: string, b: string, suffix: string)
    requires a != b && |suffix| >= 5
    ensures (if a == "" then suffix[1..] else a + suffix) != (if b == "" then suffix[1..] else b + suffix)
  {
  }

  /** The two panels `updateCountdowns` chooses between. */
  datatype View = RamadanCountdown | EidCountdown

  /** Inside a window the Eid countdown is shown, otherwise the Ramadan countdown. */
  function ChosenView(now: int, year: int): View {
    if InRamadan(now, year) then EidCountdown else RamadanCountdown
  }

  /**
   * The instant the shown countdown counts down to: always after `now`; it
   * can fail only outside Ramadan, where `getNextRamadanDate` throws.
   */
  function CountdownTarget(now: int, year: int): (r: Result<int, CountdownError>)
    ensures r.Ok? ==> now < r.value
    ensures r.Err? ==> !InRamadan(now, year)
  {
    if InRamadan(now, year) then Ok(RamadanDates(year).value.end) else NextStart(now, year)
  }

  /**
   * The Eid countdown targets the end of the current year's window; the
   * Ramadan countdown targets the next start, or fails; either target lies
   * after `now`, so the countdown's fields are never clamped.
   */
  lemma CountdownTargetAhead(now: int, year: int)
    ensures ChosenView(now, year) == EidCountdown ==>
      RamadanDates(year).Some? && CountdownTarget(now, year) == Ok(RamadanDates(year).value.end)
    ensures ChosenView(now, year) == RamadanCountdown ==> CountdownTarget(now, year) == NextStart(now, year)
    ensures CountdownTarget(now, year).Ok? ==>
      var t := TimeDifference(CountdownTarget(now, year).value, now);
      t.total > 0 && t.days >= 0 && t.hours >= 0 && t.minutes >= 0
  {
    NextStartFirstUpcoming(now, year);
    if CountdownTarget(now, year).Ok? {
      TimeSplitNonNegative(CountdownTarget(now, year).value, now);
    }
  }

  /**
   * Three instants: New Year 2025 counts down to the start of Ramadan 2025;
   * 10 March 2025 lies inside it and counts down to Eid; 14 October 2026 lies
   * after the last window of the table, where the countdown fails.
   */
  lemma CountdownExamples()
    ensures ChosenView(LocalMidnight(2025, 1, 1), 2025) == RamadanCountdown
    ensures CountdownTarget(LocalMidnight(2025, 1, 1), 2025) == Ok(LocalMidnight(2025, 2, 28))
    ensures ChosenView(LocalMidnight(2025, 3, 10), 2025) == EidCountdown
    ensures CountdownTarget(LocalMidnight(2025, 3, 10), 2025) == Ok(LocalMidnight(2025, 3, 29))
    ensures ChosenView(LocalMidnight(2026, 10, 14), 2026) == RamadanCountdown
    ensures CountdownTarget(LocalMidnight(2026, 10, 14), 2026) == Err(StartOfNull)
  {
    assert NextStart(LocalMidnight(2026, 10, 14), 2026) == Err(StartOfNull);
  }
}
