/**
 * The Ramadan table and the two questions the popup asks of it: is `now`
 * inside a Ramadan window (`isInRamadan`), and when does the next one start
 * (`getNextRamadanDate`, including its fallback branch as written).
 */
module Ramadan {
  import opened Wrappers
  import opened Text
  import opened Calendar

  /** The first day of Ramadan and the day of Eid, both at local midnight. */
  datatype Window = Window(start: int, end: int)

  /** The errors the countdown code can throw. */
  datatype CountdownError =
    | KeysOfNull   // `Object.keys(null)`: "Cannot convert undefined or null to object"
    | StartOfNull  // `null.start`: "Cannot read properties of null"

  /** `getRamadanDates(year)`: the fixed table for 2024 to 2026, `None` for `null`. */
  function RamadanDates(year: int): (w: Option<Window>)
    ensures w.Some? <==> 2024 <= year <= 2026
  {
    if year == 2024 then Some(Window(LocalMidnight(2024, 3, 10), LocalMidnight(2024, 4, 9)))
    else if year == 2025 then Some(Window(LocalMidnight(2025, 2, 28), LocalMidnight(2025, 3, 29)))
    else if year == 2026 then Some(Window(LocalMidnight(2026, 2, 17), LocalMidnight(2026, 3, 18)))
    else None
  }

  /** Each window is non-empty and lies inside its own year, and later years start later. */
  lemma TableWellFormed()
    ensures forall y :: RamadanDates(y).Some? ==>
      YearStart(y) <= RamadanDates(y).value.start < RamadanDates(y).value.end < YearStart(y + 1)
    ensures forall a, b :: RamadanDates(a).Some? && RamadanDates(b).Some? && a < b ==>
      RamadanDates(a).value.start < RamadanDates(b).value.start
  {
    forall y | RamadanDates(y).Some?
      ensures YearStart(y) <= RamadanDates(y).value.start < RamadanDates(y).value.end < YearStart(y + 1)
    {
      WindowInsideYear(y);
    }
  }

  /** The day numbers of the table's years, from 1970-01-01. */
  lemma YearDaysOfTable()
    ensures YearDay(2024) == 19723 && YearDay(2025) == 20089
    ensures YearDay(2026) == 20454 && YearDay(2027) == 20819
  {
  }

  lemma WindowInsideYear(y: int)
    requires RamadanDates(y).Some?
    ensures YearStart(y) <= RamadanDates(y).value.start < RamadanDates(y).value.end < YearStart(y + 1)
  {
    YearDaysOfTable();
  }

  /** `now` lies in the window the table gives for year `y`. */
  predicate InsideWindow(now: int, y: int) {
    RamadanDates(y).Some? && RamadanDates(y).value.start <= now < RamadanDates(y).value.end
  }

  /** `isInRamadan(now)`, with `year` standing for `now.getFullYear()`. */
  function InRamadan(now: int, year: int): (r: bool)
    ensures r ==> 2024 <= year <= 2026
  {
    match RamadanDates(year)
    case None => false
    case Some(w) => now >= w.start && now < w.end
  }

  /**
   * Looking up the table by `now`'s own year finds exactly the instants that
   * lie in some window of the table, whichever year that window belongs to.
   */
  lemma InRamadanIffInsideSomeWindow(now: int, year: int)
    requires IsLocalYear(now, year)
    ensures InRamadan(now, year) <==> exists y :: InsideWindow(now, y)
  {
    if y :| InsideWindow(now, y) {
      TableWellFormed();
      LocalYearUnique(now, y, year);
    }
    if InRamadan(now, year) {
      assert InsideWindow(now, year);
    }
  }

  /** The year `y` has a window that starts after `now`. */
  predicate Upcoming(now: int, y: int) {
    RamadanDates(y).Some? && now < RamadanDates(y).value.start
  }

  /** The start of the first year in `year..last` whose window starts after `now`. */
  function SearchFrom(now: int, year: int, last: int): (r: Option<int>)
    ensures r.Some? ==> now < r.value
    ensures year > last ==> r.None?
    decreases last - year
  {
    if year > last then None
    else if Upcoming(now, year) then Some(RamadanDates(year).value.start)
    else SearchFrom(now, year + 1, last)
  }

  // The fallback at the end of getNextRamadanDate, step by step as JavaScript evaluates it.

  /** A JavaScript number as far as the fallback needs one. */
  datatype JsNumber = Finite(n: int) | NaN | NegativeInfinity

  /**
   * `Number(k)` for the property names the fallback passes it, the keys
   * `start` and `end` of a window, neither of which reads as a number.
   * Only strings of decimal digits are read as numbers here; the empty string,
   * a sign or an exponent, which `Number` also accepts, never reach it.
   */
  function ToNumber(s: string): JsNumber {
    if s != [] && AllDigits(s) then Finite(DecimalValue(s)) else NaN
  }

  function Max2(a: JsNumber, b: JsNumber): JsNumber {
    if a.NaN? || b.NaN? then NaN
    else if a.NegativeInfinity? then b
    else if b.NegativeInfinity? then a
    else if a.n < b.n then b else a
  }

  /** `Math.max(...xs)`: NaN if any argument is NaN, -Infinity for no argument. */
  function JsMax(xs: seq<JsNumber>): JsNumber {
    if xs == [] then NegativeInfinity else Max2(xs[0], JsMax(xs[1..]))
  }

  /** `Object.keys` of a window object, in insertion order. */
  const WindowKeys: seq<string> := ["start", "end"]

  /** Each key converted by `Number`, as spreading them into `Math.max` does. */
  function KeyNumbers(keys: seq<string>): (r: seq<JsNumber>)
    ensures |r| == |keys| && forall i :: 0 <= i < |keys| ==> r[i] == ToNumber(keys[i])
  {
    if keys == [] then [] else [ToNumber(keys[0])] + KeyNumbers(keys[1..])
  }

  /** `getRamadanDates(k)` for a computed key: a NaN or infinite key names no year. */
  function DatesAt(k: JsNumber): Option<Window> {
    if k.Finite? then RamadanDates(k.n) else None
  }

  /**
   * Lines 234 to 236 of the popup: take the largest table key, add 355 days
   * to its start. It never produces a date: the keys of one year's entry are
   * `start` and `end`, whose maximum is NaN, and no year is called NaN.
   */
  function Fallback(currentYear: int): (r: Result<int, CountdownError>)
    ensures r == Err(if 2024 <= currentYear <= 2026 then StartOfNull else KeysOfNull)
  {
    match RamadanDates(currentYear)
    case None => Err(KeysOfNull)
    case Some(dates) =>
      var lastKnownYear := JsMax(KeyNumbers(WindowKeys));
      assert !IsDigit(WindowKeys[0][0]);
      match DatesAt(lastKnownYear)
      case None => Err(StartOfNull)
      case Some(lastDates) => Ok(lastDates.start + 355 * MsPerDay)
  }

  /** `getNextRamadanDate()` as a function of `now` and its year. */
  function NextStart(now: int, currentYear: int): (r: Result<int, CountdownError>)
    ensures r.Ok? ==> now < r.value
    ensures r.Err? ==> r.error == if 2024 <= currentYear <= 2026 then StartOfNull else KeysOfNull
  {
    match SearchFrom(now, currentYear, currentYear + 2)
    case Some(start) => Ok(start)
    case None => Fallback(currentYear)
  }

  /** The loop of `getNextRamadanDate`: years `currentYear` to `currentYear + 2`, first hit returns. */
  method NextRamadanDate(now: int, currentYear: int) returns (r: Result<int, CountdownError>)
    ensures r == NextStart(now, currentYear)
  {
    var year := currentYear;
    while year <= currentYear + 2
      invariant currentYear <= year <= currentYear + 3
      invariant SearchFrom(now, year, currentYear + 2) == SearchFrom(now, currentYear, currentYear + 2)
    {
      var dates := RamadanDates(year);
      if dates.Some? && now < dates.value.start {
        return Ok(dates.value.start);
      }
      year := year + 1;
    }
    r := Fallback(currentYear);
  }

  /** The search finds a start exactly when some year in range is upcoming, and then the first one. */
  lemma {:induction false} SearchFromFirst(now: int, year: int, last: int)
    ensures SearchFrom(now, year, last).Some? <==> exists y :: year <= y <= last && Upcoming(now, y)
    ensures SearchFrom(now, year, last).Some? ==>
      exists y :: year <= y <= last && Upcoming(now, y) && SearchFrom(now, year, last).value == RamadanDates(y).value.start
        && forall j :: year <= j < y ==> !Upcoming(now, j)
    decreases last - year
  {
    if year <= last && !Upcoming(now, year) {
      SearchFromFirst(now, year + 1, last);
      if y :| year <= y <= last && Upcoming(now, y) {
        assert year + 1 <= y;
      }
    }
  }

  /**
   * `getNextRamadanDate` returns the start of the first year of the three
   * whose window lies ahead, which is then after `now`; when no such year
   * exists it throws.
   */
  lemma NextStartFirstUpcoming(now: int, currentYear: int)
    ensures NextStart(now, currentYear).Ok? ==>
      now < NextStart(now, currentYear).value
      && (exists y :: currentYear <= y <= currentYear + 2 && Upcoming(now, y)
           && NextStart(now, currentYear).value == RamadanDates(y).value.start
           && forall j :: currentYear <= j < y ==> !Upcoming(now, j))
    ensures NextStart(now, currentYear).Err? <==>
      forall y :: currentYear <= y <= currentYear + 2 ==> !Upcoming(now, y)
  {
    SearchFromFirst(now, currentYear, currentYear + 2);
  }

  /**
   * When `currentYear` is `now`'s year, the date found is the nearest window
   * start after `now` in the whole table.
   */
  lemma NextStartIsNearest(now: int, currentYear: int)
    requires IsLocalYear(now, currentYear)
    ensures NextStart(now, currentYear).Ok? ==>
      forall y :: Upcoming(now, y) ==> NextStart(now, currentYear).value <= RamadanDates(y).value.start
  {
    NextStartFirstUpcoming(now, currentYear);
    TableWellFormed();
    if NextStart(now, currentYear).Ok? {
      var first :| currentYear <= first <= currentYear + 2 && Upcoming(now, first)
        && NextStart(now, currentYear).value == RamadanDates(first).value.start
        && forall j :: currentYear <= j < first ==> !Upcoming(now, j);
      forall y | Upcoming(now, y)
        ensures RamadanDates(first).value.start <= RamadanDates(y).value.start
      {
        YearStartReflectsOrder(currentYear, y + 1);
      }
    }
  }
}
