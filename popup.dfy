/**
 * The popup's state and its step-by-step updates: the `chrome.storage.local`
 * cache under its four keys, and the page as an abstract display (text of
 * elements by id, the elements hidden with `d-none`, the prayer rows marked
 * `next-prayer`). Network responses, the clock and time formatting are inputs.
 */
module Popup {
  import opened Wrappers
  import opened Text
  import opened Calendar
  import opened Ramadan
  import opened Countdown
  import opened Prayer

  /** The location object `getUserLocation` builds and caches; coordinates are kept as their JSON text. */
  datatype Location = Location(city: string, country: string, latitude: string, longitude: string, timezone: string)

  /** What the IP-geolocation lookup yields: the fields of its JSON body, or a failed request or body. */
  datatype GeoResponse =
    | GeoFailure
    | GeoBody(city: string, countryName: string, latitude: string, longitude: string)

  /** `data.date.hijri` of the prayer-times response. */
  datatype Hijri = Hijri(day: string, monthEn: string, year: string)

  /** What the prayer-times request yields. */
  datatype ApiResponse =
    | ApiNetworkError                                     // `fetch` rejects
    | ApiNotOk                                            // `!response.ok`
    | ApiUnparseable                                      // `response.json()` rejects
    | ApiBody(hijri: Option<Hijri>, timings: Option<Timings>)  // `hijri` is None when `data.data.date.hijri` is missing

  const LocationTextId := "location-text"
  const PrayerTitleId := "prayer-times-title"
  const HijriDateId := "hijri-date"
  const RamadanPanelId := "ramadan-countdown"
  const EidPanelId := "eid-countdown"

  /** The location built from a geolocation body and the system time zone. */
  function LocationOf(body: GeoResponse, timezone: string): Location
    requires body.GeoBody?
  {
    Location(body.city, body.countryName, body.latitude, body.longitude, timezone)
  }

  /**
   * The location `getUserLocation` resolves: a cached one wins; without one,
   * the lookup's city and country with the system time zone, or none when
   * the lookup fails.
   */
  function ResolvedLocation(cached: Option<Location>, geo: GeoResponse, timezone: string): (r: Option<Location>)
    ensures cached.Some? ==> r == cached
    ensures cached.None? ==> (r.Some? <==> geo.GeoBody?)
    ensures cached.None? && r.Some? ==>
      r.value.city == geo.city && r.value.country == geo.countryName && r.value.timezone == timezone
  {
    if cached.Some? then cached else if geo.GeoBody? then Some(LocationOf(geo, timezone)) else None
  }

  /** The Hijri date line: "{day} {month.en} {year} AH", starting with the day and ending in " AH". */
  function HijriString(h: Hijri): (r: string)
    ensures |r| >= |h.day| + 3 && r[..|h.day|] == h.day && r[|r| - 3..] == " AH"
  {
    h.day + " " + h.monthEn + " " + h.year + " AH"
  }

  /**
   * The line shown when the fetch fails and a Hijri date is cached: the cached
   * line, then a marker ending in ")", which no fresh date line ends in.
   */
  function CachedLine(s: string): (r: string)
    ensures |r| > |s| && r[..|s|] == s && r[|r| - 1] == ')'
    ensures forall h: Hijri :: r != HijriString(h)
  {
    s + " (Cached)"
  }

  /** The try block of `getHijriDate` runs to the end: a location, an OK parseable response, a Hijri date. */
  predicate FetchSucceeds(location: Option<Location>, response: ApiResponse) {
    location.Some? && response.ApiBody? && response.hijri.Some?
  }

  /** The `${prayer}-time` cells after `updatePrayerTimes`: each prayer with a timing shows it formatted. */
  function WithTimeTexts(t: map<string, string>, timings: Timings, fmt: string -> string, names: seq<string>): map<string, string>
    decreases |names|
  {
    if names == [] then t
    else
      var before := WithTimeTexts(t, timings, fmt, names[..|names| - 1]);
      var name := names[|names| - 1];
      if HasTiming(timings, name) then before[TimeElementId(name) := fmt(timings[name])] else before
  }

  /** Writing the time cells removes no element. */
  lemma {:induction false} WithTimeTextsKeepsElements(t: map<string, string>, timings: Timings, fmt: string -> string,
                                                      names: seq<string>)
    ensures t.Keys <= WithTimeTexts(t, timings, fmt, names).Keys
    decreases |names|
  {
    if names != [] {
      WithTimeTextsKeepsElements(t, timings, fmt, names[..|names| - 1]);
    }
  }

  lemma WithTimeTextsStep(t: map<string, string>, timings: Timings, fmt: string -> string, names: seq<string>, i: nat)
    requires i < |names|
    ensures WithTimeTexts(t, timings, fmt, names[..i + 1]) ==
      var before := WithTimeTexts(t, timings, fmt, names[..i]);
      if HasTiming(timings, names[i]) then before[TimeElementId(names[i]) := fmt(timings[names[i]])] else before
  {
    assert names[..i + 1][..i] == names[..i];
  }

  /** Element ids that are no prayer's time cell keep their text. */
  lemma {:induction false} WithTimeTextsElsewhere(t: map<string, string>, timings: Timings, fmt: string -> string,
                                                  names: seq<string>, k: string)
    requires |k| >= 4 && k[|k| - 4..] != "time"
    ensures (k in WithTimeTexts(t, timings, fmt, names)) == (k in t)
    ensures k in t ==> WithTimeTexts(t, timings, fmt, names)[k] == t[k]
    decreases |names|
  {
    if names != [] {
      WithTimeTextsElsewhere(t, timings, fmt, names[..|names| - 1], k);
      assert TimeElementId(names[|names| - 1]) != k;
    }
  }

  /**
   * A prayer with a timing shows it formatted in its cell, provided no later
   * name in the list writes the same cell.
   */
  lemma {:induction false} WithTimeTextsShows(t: map<string, string>, timings: Timings, fmt: string -> string,
                                              names: seq<string>, k: nat)
    requires k < |names| && HasTiming(timings, names[k])
    requires forall j :: k < j < |names| ==> TimeElementId(names[j]) != TimeElementId(names[k])
    ensures TimeElementId(names[k]) in WithTimeTexts(t, timings, fmt, names)
    ensures WithTimeTexts(t, timings, fmt, names)[TimeElementId(names[k])] == fmt(timings[names[k]])
    decreases |names|
  {
    if k < |names| - 1 {
      var init := names[..|names| - 1];
      assert forall j :: 0 <= j < |init| ==> init[j] == names[j];
      WithTimeTextsShows(t, timings, fmt, init, k);
    }
  }

  /** The six prayers write six different cells (their names start with six different letters). */
  lemma TimeElementIdsDistinct()
    ensures forall i, j :: 0 <= i < j < |PrayerNames| ==> TimeElementId(PrayerNames[i]) != TimeElementId(PrayerNames[j])
  {
    forall i, j | 0 <= i < j < |PrayerNames|
      ensures TimeElementId(PrayerNames[i]) != TimeElementId(PrayerNames[j])
    {
      assert TimeElementId(PrayerNames[i])[0] == LowerChar(PrayerNames[i][0]);
      assert TimeElementId(PrayerNames[j])[0] == LowerChar(PrayerNames[j][0]);
    }
  }

  /** After `updatePrayerTimes`, every one of the six prayers that has a timing shows it formatted. */
  lemma EachTimingShown(t: map<string, string>, timings: Timings, fmt: string -> string, k: nat)
    requires k < |PrayerNames| && HasTiming(timings, PrayerNames[k])
    ensures TimeElementId(PrayerNames[k]) in ShowTimings(t, Some(timings), fmt)
    ensures ShowTimings(t, Some(timings), fmt)[TimeElementId(PrayerNames[k])] == fmt(timings[PrayerNames[k]])
  {
    TimeElementIdsDistinct();
    WithTimeTextsShows(t, timings, fmt, PrayerNames, k);
  }

  /** The loop's two variables hold the name and the time of the choice `best`. */
  predicate Tracks(best: Option<Best>, name: Option<string>, time: Option<int>) {
    && (best.Some? ==> best.value.index < |PrayerNames| && name == Some(PrayerNames[best.value.index]) && time == Some(best.value.time))
    && (best.None? ==> name.None? && time.None?)
  }

  /** One pass of the loop with candidate `c` for position `i` keeps the variables tracking `Improve`. */
  lemma TracksImprove(best: Option<Best>, i: nat, c: Option<int>, name: Option<string>, time: Option<int>,
                      name': Option<string>, time': Option<int>)
    requires i < |PrayerNames| && Tracks(best, name, time)
    requires if c.Some? && (time.None? || c.value < time.value)
             then name' == Some(PrayerNames[i]) && time' == c
             else name' == name && time' == time
    ensures Tracks(Improve(best, i, c), name', time')
  {
  }

  /** The prayer rows marked `next-prayer` for a choice of next prayer. */
  function Highlight(best: Option<Best>): (rows: set<string>)
    requires best.Some? ==> best.value.index < |PrayerNames|
    ensures |rows| <= 1
  {
    if best.Some? then {PrayerNames[best.value.index]} else {}
  }

  /**
   * The text map after `updateDisplay(id, time)`: countdown `id`'s three cells
   * show the three fields, and every other element keeps its text.
   */
  function ShowCountdown(t: map<string, string>, id: string, time: TimeDiff): (r: map<string, string>)
    ensures var c := CountdownCells(id);
      && r.Keys == t.Keys + {c.days, c.hours, c.minutes}
      && r[c.days] == CellText(time.days) && r[c.hours] == CellText(time.hours) && r[c.minutes] == CellText(time.minutes)
      && forall k :: k in t && k != c.days && k != c.hours && k != c.minutes ==> r[k] == t[k]
  {
    var cells := CountdownCells(id);
    var days, hours, minutes := CellText(time.days), CellText(time.hours), CellText(time.minutes);
    UpdateThree(t, cells.days, days, cells.hours, hours, cells.minutes, minutes);
    t[cells.days := days][cells.hours := hours][cells.minutes := minutes]
  }

  /** Writing three different elements writes those three and no other. */
  lemma UpdateThree(t: map<string, string>, a: string, va: string, b: string, vb: string, c: string, vc: string)
    requires a != b && a != c && b != c
    ensures var r := t[a := va][b := vb][c := vc];
      && r.Keys == t.Keys + {a, b, c}
      && r[a] == va && r[b] == vb && r[c] == vc
      && forall k :: k in t && k != a && k != b && k != c ==> r[k] == t[k]
  {
  }

  /**
   * The location line and the title of the prayer table once a location is
   * known: the title names the place the location line shows.
   */
  function PlaceLocation(t: map<string, string>, location: Location): (r: map<string, string>)
    ensures r.Keys == t.Keys + {LocationTextId, PrayerTitleId}
    ensures r[LocationTextId] == location.city + ", " + location.country
    ensures r[PrayerTitleId] == "Prayer Times of " + r[LocationTextId]
    ensures forall k :: k in t && k != LocationTextId && k != PrayerTitleId ==> r[k] == t[k]
  {
    t[LocationTextId := location.city + ", " + location.country]
     [PrayerTitleId := "Prayer Times of " + location.city + ", " + location.country]
  }

  /** The placeholders the catch block of `getHijriDate` writes, leaving every other element alone. */
  function PlacePlaceholders(t: map<string, string>): (r: map<string, string>)
    ensures r.Keys == t.Keys + {LocationTextId, PrayerTitleId}
    ensures r[LocationTextId] == "Location unavailable" && r[PrayerTitleId] == "Prayer Times"
    ensures forall k :: k in t && k != LocationTextId && k != PrayerTitleId ==> r[k] == t[k]
  {
    t[LocationTextId := "Location unavailable"][PrayerTitleId := "Prayer Times"]
  }

  /** The catch block's placeholders replace whatever location the try block had shown. */
  lemma PlaceholdersOverwriteLocation(t: map<string, string>, location: Location)
    ensures PlacePlaceholders(PlaceLocation(t, location)) == PlacePlaceholders(t)
  {
    assert PlacePlaceholders(PlaceLocation(t, location)).Keys == PlacePlaceholders(t).Keys;
  }

  /**
   * The Hijri date cell after a failed fetch: the cached line, marked, if one
   * is cached and not empty; otherwise the page is unchanged.
   */
  function ShowCachedHijri(t: map<string, string>, cached: Option<string>): (r: map<string, string>)
    ensures cached.Some? && cached.value != "" ==>
      r.Keys == t.Keys + {HijriDateId} && r[HijriDateId] == CachedLine(cached.value)
      && forall k :: k in t && k != HijriDateId ==> r[k] == t[k]
    ensures !(cached.Some? && cached.value != "") ==> r == t
  {
    if cached.Some? && cached.value != "" then t[HijriDateId := CachedLine(cached.value)] else t
  }

  /** The time cells after `updatePrayerTimes` runs on `timings`, if it runs. */
  function ShowTimings(t: map<string, string>, timings: Option<Timings>, fmt: string -> string): map<string, string> {
    if timings.Some? then WithTimeTexts(t, timings.value, fmt, PrayerNames) else t
  }

  /** The highlighted rows after `updatePrayerTimes` runs on `timings` at `now`, if it runs. */
  function HighlightTimings(rows: set<string>, timings: Option<Timings>, now: int): set<string> {
    if timings.Some? then Highlight(NextPrayer(timings.value, now)) else rows
  }

  /**
   * The page after a successful fetch: the location line, the title naming the
   * city, and the Hijri date line.
   */
  lemma FetchedPageShows(t: map<string, string>, location: Location, hijri: Hijri, timings: Option<Timings>, fmt: string -> string)
    ensures var page := ShowTimings(PlaceLocation(t, location), timings, fmt)[HijriDateId := HijriString(hijri)];
      && LocationTextId in page && page[LocationTextId] == location.city + ", " + location.country
      && PrayerTitleId in page && page[PrayerTitleId] == "Prayer Times of " + location.city + ", " + location.country
      && HijriDateId in page && page[HijriDateId] == HijriString(hijri)
  {
    if timings.Some? {
      WithTimeTextsElsewhere(PlaceLocation(t, location), timings.value, fmt, PrayerNames, LocationTextId);
      WithTimeTextsElsewhere(PlaceLocation(t, location), timings.value, fmt, PrayerNames, PrayerTitleId);
    }
  }

  /**
   * The page after a failed fetch: the placeholders, and the cached Hijri line
   * marked " (Cached)" when one is cached; without one the date cell is untouched.
   */
  lemma FailedPageShows(t: map<string, string>, cached: Option<string>, timings: Option<Timings>, fmt: string -> string)
    ensures var page := ShowTimings(ShowCachedHijri(PlacePlaceholders(t), cached), timings, fmt);
      && LocationTextId in page && page[LocationTextId] == "Location unavailable"
      && PrayerTitleId in page && page[PrayerTitleId] == "Prayer Times"
      && (cached.Some? && cached.value != "" ==> HijriDateId in page && page[HijriDateId] == CachedLine(cached.value))
      && (!(cached.Some? && cached.value != "") ==>
            (HijriDateId in page) == (HijriDateId in t) && (HijriDateId in t ==> page[HijriDateId] == t[HijriDateId]))
  {
    if timings.Some? {
      var before := ShowCachedHijri(PlacePlaceholders(t), cached);
      WithTimeTextsElsewhere(before, timings.value, fmt, PrayerNames, LocationTextId);
      WithTimeTextsElsewhere(before, timings.value, fmt, PrayerNames, PrayerTitleId);
      WithTimeTextsElsewhere(before, timings.value, fmt, PrayerNames, HijriDateId);
    }
  }

  /** The id prefix of a panel's cells. */
  function ViewPrefix(v: View): string {
    if v == EidCountdown then "eid" else ""
  }

  class PopupState {
    // chrome.storage.local, one field per cache key
    var cachedLocation: Option<Location>    // cached_location
    var cachedHijri: Option<string>         // cached_hijri_date
    var cachedLastUpdate: Option<int>       // last_update_time
    var cachedTimings: Option<Timings>      // cached_prayer_times
    // the page
    var text: map<string, string>           // textContent by element id
    var hidden: set<string>                 // ids of the elements with class d-none
    var highlighted: set<string>            // prayers whose row has class next-prayer

    constructor (location: Option<Location>, hijri: Option<string>, lastUpdate: Option<int>, timings: Option<Timings>,
                 page: map<string, string>, hiddenIds: set<string>)
      ensures cachedLocation == location && cachedHijri == hijri
      ensures cachedLastUpdate == lastUpdate && cachedTimings == timings
      ensures text == page && hidden == hiddenIds && highlighted == {}
    {
      cachedLocation, cachedHijri, cachedLastUpdate, cachedTimings := location, hijri, lastUpdate, timings;
      text, hidden, highlighted := page, hiddenIds, {};
    }

    /** `getUserLocation`: the cached location if there is one, else one lookup, cached on success. */
    method GetUserLocation(geo: GeoResponse, timezone: string) returns (location: Option<Location>)
      modifies this`cachedLocation
      ensures location == ResolvedLocation(old(cachedLocation), geo, timezone)
      ensures cachedLocation == location
      ensures old(cachedLocation).Some? ==> location == old(cachedLocation)
      ensures old(cachedLocation).None? && geo.GeoFailure? ==> location.None?
    {
      if cachedLocation.Some? {
        return cachedLocation;
      }
      if geo.GeoFailure? {
        return None;
      }
      var looked := LocationOf(geo, timezone);
      cachedLocation := Some(looked);
      location := Some(looked);
    }

    /**
     * `updatePrayerTimes(timings)` at time of day `now`: caches the timings,
     * writes each present timing formatted into its cell, and marks the row of
     * the next prayer, and only that row.
     */
    method UpdatePrayerTimes(timings: Timings, now: int, fmt: string -> string)
      modifies this`cachedTimings, this`text, this`highlighted
      ensures cachedTimings == Some(timings)
      ensures text == WithTimeTexts(old(text), timings, fmt, PrayerNames)
      ensures highlighted == Highlight(NextPrayer(timings, now))
      ensures |highlighted| <= 1
    {
      cachedTimings := Some(timings);
      var nextPrayer: Option<string> := None;
      var nextPrayerTime: Option<int> := None;
      ghost var cands := CandidateTimes(timings, now);
      ghost var best: Option<Best> := None;
      var i := 0;
      while i < |PrayerNames|
        invariant 0 <= i <= |PrayerNames|
        modifies this`text
        invariant text == WithTimeTexts(old(text), timings, fmt, PrayerNames[..i])
        invariant best == Earliest(cands[..i])
        invariant Tracks(best, nextPrayer, nextPrayerTime)
      {
        WithTimeTextsStep(old(text), timings, fmt, PrayerNames, i);
        EarliestStep(cands, i);
        var next, nextTime := ShowPrayerTime(timings, now, fmt, PrayerNames[i], nextPrayer, nextPrayerTime);
        TracksImprove(best, i, cands[i], nextPrayer, nextPrayerTime, next, nextTime);
        best := Improve(best, i, cands[i]);
        nextPrayer, nextPrayerTime := next, nextTime;
        i := i + 1;
      }
      assert PrayerNames[..i] == PrayerNames;
      assert cands[..i] == cands;
      highlighted := {};
      if nextPrayer.Some? {
        highlighted := highlighted + {nextPrayer.value};
      }
    }

    /**
     * One pass of the loop of `updatePrayerTimes` for `prayer`: writes its
     * timing, if any, into its cell, and makes it the next prayer when it is a
     * candidate strictly earlier than the one chosen so far.
     */
    method ShowPrayerTime(timings: Timings, now: int, fmt: string -> string, prayer: string,
                          nextPrayer: Option<string>, nextPrayerTime: Option<int>)
      returns (next: Option<string>, nextTime: Option<int>)
      modifies this`text
      ensures text == if HasTiming(timings, prayer) then old(text)[TimeElementId(prayer) := fmt(timings[prayer])] else old(text)
      ensures var c := Candidate(timings, now, prayer);
        if c.Some? && (nextPrayerTime.None? || c.value < nextPrayerTime.value)
        then next == Some(prayer) && nextTime == c
        else next == nextPrayer && nextTime == nextPrayerTime
    {
      next, nextTime := nextPrayer, nextPrayerTime;
      CandidateIsLoopTest(timings, now, prayer);
      if HasTiming(timings, prayer) {
        text := text[TimeElementId(prayer) := fmt(timings[prayer])];
        var prayerDate := ParseTime(timings[prayer]);
        if prayerDate.Some? && prayerDate.value > now && (nextPrayerTime.None? || prayerDate.value < nextPrayerTime.value) {
          next := Some(prayer);
          nextTime := prayerDate;
        }
      }
    }

    /**
     * `getHijriDate`: on success caches and shows the Hijri date line and the
     * prayer times; on any failure shows the placeholders and, if cached, the
     * cached line marked " (Cached)" and the cached prayer times.
     */
    method GetHijriDate(geo: GeoResponse, timezone: string, response: ApiResponse, nowMs: int, nowOfDay: int, fmt: string -> string)
      modifies this`cachedLocation, this`cachedHijri, this`cachedLastUpdate, this`cachedTimings, this`text, this`highlighted
      ensures cachedLocation == ResolvedLocation(old(cachedLocation), geo, timezone)
      ensures FetchSucceeds(cachedLocation, response) ==>
        && cachedHijri == Some(HijriString(response.hijri.value))
        && cachedLastUpdate == Some(nowMs)
        && cachedTimings == (if response.timings.Some? then response.timings else old(cachedTimings))
        && highlighted == HighlightTimings(old(highlighted), response.timings, nowOfDay)
        && text == ShowTimings(PlaceLocation(old(text), cachedLocation.value), response.timings, fmt)
                     [HijriDateId := HijriString(response.hijri.value)]
      ensures !FetchSucceeds(cachedLocation, response) ==>
        && cachedHijri == old(cachedHijri)
        && cachedLastUpdate == old(cachedLastUpdate)
        && cachedTimings == old(cachedTimings)
        && highlighted == HighlightTimings(old(highlighted), old(cachedTimings), nowOfDay)
        && text == ShowTimings(ShowCachedHijri(PlacePlaceholders(old(text)), old(cachedHijri)), old(cachedTimings), fmt)
    {
      var location := GetUserLocation(geo, timezone);
      if location.Some? {
        text := PlaceLocation(text, location.value);
        if response.ApiBody? && response.hijri.Some? {
          ShowFetched(response.hijri.value, response.timings, nowMs, nowOfDay, fmt);
          return;
        }
        PlaceholdersOverwriteLocation(old(text), location.value);
      }
      ShowFailure(nowOfDay, fmt);
    }

    /** The end of the try block of `getHijriDate`, once the Hijri date is in hand. */
    method ShowFetched(hijri: Hijri, timings: Option<Timings>, nowMs: int, nowOfDay: int, fmt: string -> string)
      modifies this`cachedHijri, this`cachedLastUpdate, this`cachedTimings, this`text, this`highlighted
      ensures cachedHijri == Some(HijriString(hijri))
      ensures cachedLastUpdate == Some(nowMs)
      ensures cachedTimings == (if timings.Some? then timings else old(cachedTimings))
      ensures highlighted == HighlightTimings(old(highlighted), timings, nowOfDay)
      ensures text == ShowTimings(old(text), timings, fmt)[HijriDateId := HijriString(hijri)]
    {
      var dateStr := HijriString(hijri);
      if timings.Some? {
        UpdatePrayerTimes(timings.value, nowOfDay, fmt);
      }
      cachedHijri := Some(dateStr);
      cachedLastUpdate := Some(nowMs);
      text := text[HijriDateId := dateStr];
    }

    /** The catch block of `getHijriDate`: placeholders, then whatever is cached. */
    method ShowFailure(nowOfDay: int, fmt: string -> string)
      modifies this`cachedTimings, this`text, this`highlighted
      ensures cachedTimings == old(cachedTimings)
      ensures highlighted == HighlightTimings(old(highlighted), old(cachedTimings), nowOfDay)
      ensures text == ShowTimings(ShowCachedHijri(PlacePlaceholders(old(text)), cachedHijri), old(cachedTimings), fmt)
    {
      text := text[LocationTextId := "Location unavailable"];
      text := text[PrayerTitleId := "Prayer Times"];
      if cachedHijri.Some? && cachedHijri.value != "" {
        text := text[HijriDateId := CachedLine(cachedHijri.value)];
      }
      if cachedTimings.Some? {
        UpdatePrayerTimes(cachedTimings.value, nowOfDay, fmt);
      }
    }

    /** `updateDisplay(id, time)`: the three cells of countdown `id` show the clamped, padded fields. */
    method UpdateDisplay(id: string, time: TimeDiff)
      modifies this`text
      ensures text == ShowCountdown(old(text), id, time)
    {
      var cells := CountdownCells(id);
      text := text[cells.days := CellText(time.days)];
      text := text[cells.hours := CellText(time.hours)];
      text := text[cells.minutes := CellText(time.minutes)];
    }

    /**
     * `updateCountdowns` at `now`, whose year is `year`: shows exactly one of
     * the two panels, and fills its cells from the time left to its target,
     * leaving the cells as they were when the target cannot be computed.
     */
    method UpdateCountdowns(now: int, year: int)
      modifies this`text, this`hidden
      ensures (RamadanPanelId in hidden) != (EidPanelId in hidden)
      ensures ChosenView(now, year) == EidCountdown ==> hidden == old(hidden) + {RamadanPanelId} - {EidPanelId}
      ensures ChosenView(now, year) == RamadanCountdown ==> hidden == old(hidden) - {RamadanPanelId} + {EidPanelId}
      ensures CountdownTarget(now, year).Ok? ==>
        text == ShowCountdown(old(text), ViewPrefix(ChosenView(now, year)),
                              TimeDifference(CountdownTarget(now, year).value, now))
      ensures CountdownTarget(now, year).Err? ==> text == old(text)
    {
      var dates := RamadanDates(year);
      if InRamadan(now, year) {
        hidden := hidden + {RamadanPanelId};
        hidden := hidden - {EidPanelId};
        UpdateDisplay("eid", TimeDifference(dates.value.end, now));
      } else {
        hidden := hidden - {RamadanPanelId};
        hidden := hidden + {EidPanelId};
        var nextRamadan := NextRamadanDate(now, year);
        if nextRamadan.Ok? {
          UpdateDisplay("", TimeDifference(nextRamadan.value, now));
        }
      }
    }
  }
}
