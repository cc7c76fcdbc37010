/**
 * Choosing the next prayer (the loop of `updatePrayerTimes`): among the six
 * named prayers whose timing is present, the one whose time today is the
 * earliest still after `now`, the earlier name winning a tie. Times of day are
 * milliseconds since local midnight.
 */
module Prayer {
  import opened Wrappers
  import opened Text
  import opened Calendar

  /** The `timings` object of the prayer-times response: prayer name to "HH:MM". */
  type Timings = map<string, string>

  const PrayerNames: seq<string> := ["Fajr", "Sunrise", "Dhuhr", "Asr", "Maghrib", "Isha"]

  /** `timings[prayer]` is truthy: present and not the empty string. */
  predicate HasTiming(timings: Timings, name: string) {
    name in timings && timings[name] != ""
  }

  /** The id of the element showing a prayer's time: `${prayer.toLowerCase()}-time`. */
  function TimeElementId(name: string): (id: string)
    ensures |id| >= 5 && id[|id| - 4..] == "time"
  {
    LowerAscii(name) + "-time"
  }

  /**
   * The time of day of `setHours(parseInt(h), parseInt(m), 0)` for the first two
   * `:`-separated pieces `h` and `m`; `None` is the invalid Date that a piece
   * which is not a number (or a missing `m`) produces. A time needs a `:`:
   * without one the minutes are `parseInt(undefined)`.
   */
  function ParseTime(s: string): (r: Option<int>)
    ensures r.Some? ==> ':' in s
  {
    var parts := Split(s, ':');
    var hours := ParseInt(parts[0]);
    var minutes := if |parts| >= 2 then ParseInt(parts[1]) else None;
    if hours.Some? && minutes.Some? then Some(hours.value * MsPerHour + minutes.value * MsPerMinute) else None
  }

  /** A prayer competes for "next" when its timing is present, parses, and lies after `now`. */
  function Candidate(timings: Timings, now: int, name: string): (r: Option<int>)
    ensures r.Some? ==> HasTiming(timings, name) && ParseTime(timings[name]) == r && now < r.value
  {
    if HasTiming(timings, name) then
      match ParseTime(timings[name])
      case Some(t) => if t > now then Some(t) else None
      case None => None
    else None
  }

  /** The candidate time of each of the six prayers, in list order. */
  function CandidateTimes(timings: Timings, now: int): (c: seq<Option<int>>)
    ensures |c| == |PrayerNames|
  {
    seq(|PrayerNames|, i requires 0 <= i < |PrayerNames| => Candidate(timings, now, PrayerNames[i]))
  }

  /** The test the loop of `updatePrayerTimes` applies is exactly "is a candidate". */
  lemma CandidateIsLoopTest(timings: Timings, now: int, name: string)
    ensures Candidate(timings, now, name) ==
      if HasTiming(timings, name) && ParseTime(timings[name]).Some? && ParseTime(timings[name]).value > now
      then ParseTime(timings[name]) else None
  {
  }

  /** The position in the name list and the time of the prayer chosen so far. */
  datatype Best = Best(index: nat, time: int)

  /**
   * One step of the loop: a candidate replaces the choice so far only when
   * nothing is chosen yet or its time is strictly earlier.
   */
  function Improve(best: Option<Best>, index: nat, candidate: Option<int>): Option<Best> {
    match candidate
    case None => best
    case Some(t) => if best.None? || t < best.value.time then Some(Best(index, t)) else best
  }

  /**
   * A step keeps the choice so far or takes the candidate, and what it
   * chooses is no later than either.
   */
  lemma ImproveNoLater(best: Option<Best>, index: nat, candidate: Option<int>)
    ensures var r := Improve(best, index, candidate);
      && (r == best || (candidate.Some? && r == Some(Best(index, candidate.value))))
      && (best.Some? ==> r.Some? && r.value.time <= best.value.time)
      && (candidate.Some? ==> r.Some? && r.value.time <= candidate.value)
  {
  }

  /** What the loop has chosen after visiting the candidates `cands` in order. */
  function Earliest(cands: seq<Option<int>>): (r: Option<Best>)
    ensures r.Some? ==> r.value.index < |cands| && cands[r.value.index] == Some(r.value.time)
    decreases |cands|
  {
    if cands == [] then None
    else Improve(Earliest(cands[..|cands| - 1]), |cands| - 1, cands[|cands| - 1])
  }

  /** Visiting one more candidate is one more `Improve` step. */
  lemma EarliestStep(cands: seq<Option<int>>, i: nat)
    requires i < |cands|
    ensures Earliest(cands[..i + 1]) == Improve(Earliest(cands[..i]), i, cands[i])
  {
    assert cands[..i + 1][..i] == cands[..i];
  }

  /** The next prayer of the popup: `Earliest` over the six prayers' candidate times. */
  function NextPrayer(timings: Timings, now: int): (r: Option<Best>)
    ensures r.Some? ==>
      && r.value.index < |PrayerNames|
      && Candidate(timings, now, PrayerNames[r.value.index]) == Some(r.value.time)
      && now < r.value.time
  {
    Earliest(CandidateTimes(timings, now))
  }

  /**
   * Position `k` holds a candidate at time `t` that is no later than any
   * candidate, and strictly earlier than every candidate before it.
   */
  predicate IsEarliest(cands: seq<Option<int>>, k: nat, t: int) {
    && k < |cands|
    && cands[k] == Some(t)
    && (forall j :: 0 <= j < k ==> cands[j].None? || t < cands[j].value)
    && (forall j :: k < j < |cands| ==> cands[j].None? || t <= cands[j].value)
  }

  /**
   * The loop chooses nothing exactly when there is no candidate, and
   * otherwise the earliest candidate, the first of them on a tie.
   */
  lemma {:induction false} EarliestMeaning(cands: seq<Option<int>>)
    ensures Earliest(cands).None? <==> forall j :: 0 <= j < |cands| ==> cands[j].None?
    ensures Earliest(cands).Some? ==> IsEarliest(cands, Earliest(cands).value.index, Earliest(cands).value.time)
    decreases |cands|
  {
    if cands != [] {
      var init := cands[..|cands| - 1];
      EarliestMeaning(init);
      assert forall j :: 0 <= j < |init| ==> init[j] == cands[j];
    }
  }

  /** At most one position is the earliest candidate. */
  lemma IsEarliestUnique(cands: seq<Option<int>>, k1: nat, t1: int, k2: nat, t2: int)
    requires IsEarliest(cands, k1, t1) && IsEarliest(cands, k2, t2)
    ensures k1 == k2 && t1 == t2
  {
  }

  /**
   * The popup's next prayer is the name at position `k` with time `t` exactly
   * when that prayer is a candidate, no candidate is earlier, and none before
   * it is as early.
   */
  lemma NextPrayerIff(timings: Timings, now: int, k: nat, t: int)
    ensures NextPrayer(timings, now) == Some(Best(k, t)) <==> IsEarliest(CandidateTimes(timings, now), k, t)
  {
    var cands := CandidateTimes(timings, now);
    EarliestMeaning(cands);
    if IsEarliest(cands, k, t) {
      IsEarliestUnique(cands, k, t, Earliest(cands).value.index, Earliest(cands).value.time);
    }
  }

  /** No prayer is highlighted exactly when no prayer's time lies after `now`. */
  lemma NoNextPrayerIff(timings: Timings, now: int)
    ensures NextPrayer(timings, now).None? <==>
      forall j :: 0 <= j < |PrayerNames| ==> Candidate(timings, now, PrayerNames[j]).None?
  {
    var cands := CandidateTimes(timings, now);
    EarliestMeaning(cands);
    assert forall j :: 0 <= j < |PrayerNames| ==> cands[j] == Candidate(timings, now, PrayerNames[j]);
  }

  /** A two-digit rendering of `n`, as the prayer-times API writes hours and minutes. */
  function TwoDigits(n: nat): string {
    PadStart(NatToString(n), 2, '0')
  }

  /** A time of day written "HH:MM". */
  function HHMM(h: nat, m: nat): string {
    TwoDigits(h) + ":" + TwoDigits(m)
  }

  /** "HH:MM" as the prayer-times API writes it reads back as that time of day. */
  lemma ParseTimeReadsHHMM(h: nat, m: nat)
    ensures ParseTime(HHMM(h, m)) == Some(h * MsPerHour + m * MsPerMinute)
  {
    TwoDigitsValue(h);
    TwoDigitsValue(m);
    ParseTimeOfDigitPieces(TwoDigits(h), TwoDigits(m), h, m);
  }

  lemma TwoDigitsValue(n: nat)
    ensures |TwoDigits(n)| >= 2 && AllDigits(TwoDigits(n)) && DecimalValue(TwoDigits(n)) == n
  {
    var s := NatToString(n);
    DecimalRoundTrip(n);
    if |s| < 2 {
      LeadingZeros(2 - |s|, s);
    }
  }

  lemma ParseTimeOfPieces(s: string, hs: string, ms: string, h: int, m: int)
    requires Split(s, ':') == [hs, ms]
    requires ParseInt(hs) == Some(h) && ParseInt(ms) == Some(m)
    ensures ParseTime(s) == Some(h * MsPerHour + m * MsPerMinute)
  {
  }

  lemma DigitsHaveNoColon(x: string)
    requires AllDigits(x)
    ensures ':' !in x
  {
  }

  lemma SplitAtSeparator(x: string, y: string)
    requires ':' !in x && ':' !in y
    ensures Split(x + ":" + y, ':') == [x, y]
  {
    var s := x + ":" + y;
    assert s[..|x|] == x;
    FirstIndexAt(s, ':', |x|);
    var i := FirstIndex(s, ':');
    assert s[..i] == x;
    assert s[i + 1..] == y;
  }

  /** The first occurrence of `c` is at `k` when `s[k]` is `c` and no earlier character is. */
  lemma {:induction false} FirstIndexAt(s: string, c: char, k: nat)
    requires k < |s| && s[k] == c && c !in s[..k]
    ensures FirstIndex(s, c) == k
  {
    if k > 0 {
      assert s[0] == s[..k][0];
      assert s[1..][..k - 1] == s[1..k];
      assert s[1..k] == s[..k][1..];
      FirstIndexAt(s[1..], c, k - 1);
    }
  }

  lemma ParseIntOfDigits(x: string)
    requires x != [] && AllDigits(x)
    ensures ParseInt(x) == Some(DecimalValue(x) as int)
  {
    assert TrimStart(x) == x;
    assert SignStripped(x) == x;
    var d := DigitPrefix(x);
    assert |d| == |x|;
    assert d == x;
    assert x[0] != '-';
  }

  /**
   * A time that starts with a letter (such as "bad-time") is an invalid Date,
   * so that prayer is never a candidate.
   */
  lemma MalformedTimeIsNoCandidate(timings: Timings, now: int, name: string)
    requires name in timings && timings[name] != "" && 'a' <= timings[name][0] <= 'z'
    ensures ParseTime(timings[name]) == None
    ensures Candidate(timings, now, name) == None
  {
    LetterFirstIsNoTime(timings[name]);
  }

  lemma LetterFirstIsNoTime(s: string)
    requires s != "" && 'a' <= s[0] <= 'z'
    ensures ParseTime(s) == None
  {
    var first := Split(s, ':')[0];
    LetterFirstPiece(s);
    assert TrimStart(first) == first;
    assert SignStripped(first) == first;
    assert DigitPrefix(first) == [];
  }

  /** The first `:`-piece of a string that starts with a letter starts with that letter. */
  lemma LetterFirstPiece(s: string)
    requires s != "" && 'a' <= s[0] <= 'z'
    ensures Split(s, ':')[0] != "" && Split(s, ':')[0][0] == s[0]
  {
    if ':' in s {
      var i := FirstIndex(s, ':');
      assert Split(s, ':')[0] == s[..i];
    }
  }

  /**
   * With only Fajr and Dhuhr timed, once Fajr's time has passed and before
   * Dhuhr's, the next prayer is Dhuhr, at position 2 of the list.
   */
  lemma OnlyDhuhrAhead(fajr: string, dhuhr: string, t1: int, t2: int, now: int)
    requires t1 <= now < t2
    requires ParseTime(fajr) == Some(t1) && ParseTime(dhuhr) == Some(t2)
    ensures NextPrayer(map["Fajr" := fajr, "Dhuhr" := dhuhr], now) == Some(Best(2, t2))
  {
    var timings := map["Fajr" := fajr, "Dhuhr" := dhuhr];
    CandidateOfParsed(timings, now, "Fajr", t1);
    CandidateOfParsed(timings, now, "Dhuhr", t2);
    OnlyFajrAndDhuhr(fajr, dhuhr, now);
    EarliestOfThird(t2);
  }

  /** A timed prayer whose time parses is a candidate exactly when that time lies after `now`. */
  lemma CandidateOfParsed(timings: Timings, now: int, name: string, t: int)
    requires name in timings && ParseTime(timings[name]) == Some(t)
    ensures Candidate(timings, now, name) == if t > now then Some(t) else None
  {
    assert Split("", ':') == [""];
    assert DigitPrefix("") == [];
  }

  lemma EarliestOfThird(t: int)
    ensures Earliest([None, None, Some(t), None, None, None]) == Some(Best(2, t))
  {
    var cands: seq<Option<int>> := [None, None, Some(t), None, None, None];
    EarliestMeaning(cands);
    assert cands[2].Some?;
  }

  /** The prayers without a timing are no candidates. */
  lemma OnlyFajrAndDhuhr(fajr: string, dhuhr: string, now: int)
    ensures var timings := map["Fajr" := fajr, "Dhuhr" := dhuhr];
      CandidateTimes(timings, now) == [Candidate(timings, now, "Fajr"), None, Candidate(timings, now, "Dhuhr"), None, None, None]
  {
    var timings := map["Fajr" := fajr, "Dhuhr" := dhuhr];
    assert timings.Keys == {"Fajr", "Dhuhr"};
    assert !HasTiming(timings, "Sunrise") && !HasTiming(timings, "Asr");
    assert !HasTiming(timings, "Maghrib") && !HasTiming(timings, "Isha");
  }

  /** Two pieces of digits joined by `:` read back as their values as hours and minutes. */
  lemma ParseTimeOfDigitPieces(hs: string, ms: string, h: nat, m: nat)
    requires hs != [] && ms != [] && AllDigits(hs) && AllDigits(ms)
    requires DecimalValue(hs) == h && DecimalValue(ms) == m
    ensures ParseTime(hs + ":" + ms) == Some(h * MsPerHour + m * MsPerMinute)
  {
    DigitsHaveNoColon(hs);
    DigitsHaveNoColon(ms);
    SplitAtSeparator(hs, ms);
    ParseIntOfDigits(hs);
    ParseIntOfDigits(ms);
    ParseTimeOfPieces(hs + ":" + ms, hs, ms, h, m);
  }
}
