/** The recurring-schedule page: the next occurrence of a weekly class, the
    list's search and sort, the live countdown, the add form and deletion.

    Instants are integer milliseconds counted from a local midnight that fell
    on a Sunday, with every day exactly 86400000 ms long, so that JavaScript's
    `getDay()` is `(t / 86400000) % 7`. The current instant `now` is a
    parameter. */
module SedulousPage {
  import opened Types
  import opened Text
  import Seqs

  const SECOND_MS := 1000
  const MINUTE_MS := 60000
  const HOUR_MS := 3600000
  const DAY_MS := 86400000
  const WEEK_MS := 7 * DAY_MS
  /** `Number.MAX_SAFE_INTEGER`, the sort value of a non-finite occurrence. */
  const MAX_SAFE_INTEGER := 9007199254740991

  const DAYS_OF_WEEK: seq<string> :=
    ["Monday", "Tuesday", "Wednesday", "Thursday", "Friday", "Saturday", "Sunday"]

  /** `new Date(t).getDay()`: 0 is Sunday. */
  function Weekday(t: int): int {
    (t / DAY_MS) % 7
  }

  /** The local midnight that starts the day of `t`. */
  function DayStart(t: int): int {
    (t / DAY_MS) * DAY_MS
  }

  lemma DayStartBounds(t: int)
    ensures DayStart(t) <= t < DayStart(t) + DAY_MS
  {
  }

  /** `k` whole days and a time of day `tod` after the midnight of `t`. */
  lemma DayShift(t: int, k: int, tod: int)
    requires 0 <= tod < DAY_MS
    ensures DayStart(DayStart(t) + k * DAY_MS + tod) == DayStart(t) + k * DAY_MS
    ensures Weekday(DayStart(t) + k * DAY_MS + tod) == (Weekday(t) + k) % 7
  {
    var q := t / DAY_MS;
    var x := DayStart(t) + k * DAY_MS + tod;
    assert x == (q + k) * DAY_MS + tod;
    assert x / DAY_MS == q + k;
  }

  /** `s.indexOf(x)`: the first index of `x`, or -1. */
  function IndexOf(s: seq<string>, x: string): (r: int)
    ensures -1 <= r < |s|
    ensures r == -1 <==> x !in s
    ensures r >= 0 ==> s[r] == x && forall j :: 0 <= j < r ==> s[j] != x
  {
    if s == [] then -1
    else if s[0] == x then 0
    else
      var k := IndexOf(s[1..], x);
      if k == -1 then -1 else k + 1
  }

  /** The Sunday-based weekday of a day name: one past its index in the week list, modulo 7.
      An unrecognised name has index -1 and so stands for Sunday. */
  function JsWeekday(dayName: string): (r: int)
    ensures 0 <= r < 7
    ensures dayName !in DAYS_OF_WEEK ==> r == 0
  {
    (IndexOf(DAYS_OF_WEEK, dayName) + 1) % 7
  }

  /** In a list whose earlier entries differ from entry `i`, `indexOf` finds `i`. */
  lemma {:induction false} IndexOfFirst(s: seq<string>, i: int)
    requires 0 <= i < |s|
    requires forall j :: 0 <= j < i ==> s[j] != s[i]
    ensures IndexOf(s, s[i]) == i
  {
    if i > 0 {
      assert s[1..][i - 1] == s[i];
      IndexOfFirst(s[1..], i - 1);
    }
  }

  /** The seven names are distinct. */
  lemma DaysDistinct()
    ensures forall i, j :: 0 <= i < j < 7 ==> DAYS_OF_WEEK[i] != DAYS_OF_WEEK[j]
  {
    var d := DAYS_OF_WEEK;
    assert |d[0]| == 6 && |d[1]| == 7 && |d[2]| == 9 && |d[3]| == 8 && |d[4]| == 6 && |d[5]| == 8 && |d[6]| == 6;
    assert d[0][0] == 'M' && d[3][0] == 'T' && d[4][0] == 'F' && d[5][0] == 'S' && d[6][0] == 'S';
    forall i, j | 0 <= i < j < 7 ensures d[i] != d[j] {
      assert |d[i]| != |d[j]| || d[i][0] != d[j][0];
    }
  }

  /** Each weekday name maps to its `getDay()` number, Monday 1 to Saturday 6 and Sunday 0. */
  lemma JsWeekdayOfNames()
    ensures forall i :: 0 <= i < 7 ==> IndexOf(DAYS_OF_WEEK, DAYS_OF_WEEK[i]) == i
    ensures forall i :: 0 <= i < 7 ==> JsWeekday(DAYS_OF_WEEK[i]) == (i + 1) % 7
  {
    DaysDistinct();
    forall i | 0 <= i < 7 ensures IndexOf(DAYS_OF_WEEK, DAYS_OF_WEEK[i]) == i {
      IndexOfFirst(DAYS_OF_WEEK, i);
    }
  }

  /** An hour and minute on the 24-hour clock, before any range check. */
  datatype ClockTime = ClockTime(hours: int, minutes: int)

  /** What the add form can produce: an hour 0..23 and a minute 0..59. */
  predicate ValidClock(t: ClockTime) {
    0 <= t.hours < 24 && 0 <= t.minutes < 60
  }

  /** The time of day, in ms, that setting the hours and minutes asks for. */
  function TimeOfDay(t: ClockTime): int {
    t.hours * HOUR_MS + t.minutes * MINUTE_MS
  }

  /** The 12-hour to 24-hour rule: PM below 12 adds 12, and 12 AM is midnight. */
  function NormalizeHour(h: int, modifier: Option<string>): (r: int)
    ensures modifier == Some("AM") && h == 12 ==> r == 0
    ensures modifier == Some("PM") && h == 12 ==> r == 12
    ensures modifier == Some("PM") && h < 12 ==> r == h + 12
    ensures modifier == Some("AM") && h < 12 ==> r == h
    ensures 1 <= h <= 12 && modifier in {Some("AM"), Some("PM")} ==> 0 <= r <= 23
  {
    var h1 := if modifier == Some("PM") && h < 12 then h + 12 else h;
    if modifier == Some("AM") && h1 == 12 then 0 else h1
  }

  /** Reading a class time: the text before the first blank is the clock, the
      piece after it the AM/PM marker; the clock's pieces around the first
      colon are the hour and minute, then the hour rule applies. A missing or
      non-numeric hour or minute is NaN, here `None`. */
  function ParseClassTime(classTime: string): (r: Option<ClockTime>)
    ensures r.Some? ==> r.value.hours >= 0 && r.value.minutes >= 0
  {
    var parts := Split(classTime, ' ');
    var modifier := if |parts| > 1 then Some(parts[1]) else None;
    var hm := Split(parts[0], ':');
    var hours := ToNumber(hm[0]);
    var minutes := if |hm| > 1 then ToNumber(hm[1]) else None;
    if hours.None? || minutes.None? then None
    else Some(ClockTime(NormalizeHour(hours.value, modifier), minutes.value))
  }

  /** `dayDiff`: days forward from today's weekday `today` to `jsTargetDay`;
      the whole week when that is today and the class time already passed. */
  function DayDiff(jsTargetDay: int, today: int, passed: bool): (r: int)
    ensures 0 <= r <= 7
  {
    var d := (jsTargetDay - today + 7) % 7;
    if d == 0 && passed then 7 else d
  }

  /** Moving `DayDiff` days forward from weekday `today` lands on `jsTargetDay`. */
  lemma DayDiffReachesTarget(jsTargetDay: int, today: int, passed: bool)
    requires 0 <= jsTargetDay < 7 && 0 <= today < 7
    ensures (today + DayDiff(jsTargetDay, today, passed)) % 7 == jsTargetDay
    ensures DayDiff(jsTargetDay, today, passed) == 7 <==> jsTargetDay == today && passed
    ensures DayDiff(jsTargetDay, today, passed) == 0 <==> jsTargetDay == today && !passed
  {
    if jsTargetDay >= today {
      assert (jsTargetDay - today + 7) % 7 == jsTargetDay - today;
    } else {
      assert (jsTargetDay - today + 7) % 7 == jsTargetDay - today + 7;
    }
  }

  /** The instant one weekday name contributes (the body of `days.map`). */
  function OccurrenceOn(t: ClockTime, dayName: string, now: int): (r: int)
    ensures DayStart(now) <= r < DayStart(now) + 8 * DAY_MS
  {
    // today at the class's hour and minute, rolled into a later day when out of range
    var nextDate := DayStart(now) + TimeOfDay(t);
    var dayDiff := DayDiff(JsWeekday(dayName), Weekday(now), nextDate < now);
    DayStartBounds(nextDate);
    // moving the date forward keeps that instant's time of day
    DayStart(now) + dayDiff * DAY_MS + (nextDate - DayStart(nextDate))
  }

  /** For an in-range time the instant is `dayDiff` midnights on, at that time of day. */
  lemma OccurrenceShape(t: ClockTime, dayName: string, now: int)
    requires ValidClock(t)
    ensures OccurrenceOn(t, dayName, now)
            == DayStart(now) + DayDiff(JsWeekday(dayName), Weekday(now), DayStart(now) + TimeOfDay(t) < now) * DAY_MS + TimeOfDay(t)
  {
    var tod := TimeOfDay(t);
    assert 0 <= tod < DAY_MS;
    DayShift(now, 0, tod);
  }

  /** `possibleTimes`: one instant per listed day, in list order. */
  function PossibleTimes(t: ClockTime, days: seq<string>, now: int): (r: seq<int>)
    ensures |r| == |days|
    ensures forall k :: 0 <= k < |days| ==> r[k] == OccurrenceOn(t, days[k], now)
  {
    if days == [] then [] else [OccurrenceOn(t, days[0], now)] + PossibleTimes(t, days[1..], now)
  }

  /** `Math.min` of a non-empty list. */
  function MinOf(xs: seq<int>): (r: int)
    requires |xs| > 0
    ensures r in xs
    ensures forall k :: 0 <= k < |xs| ==> r <= xs[k]
  {
    if |xs| == 1 then xs[0]
    else
      var rest := MinOf(xs[..|xs| - 1]);
      assert forall k :: 0 <= k < |xs| - 1 ==> xs[..|xs| - 1][k] == xs[k];
      if xs[|xs| - 1] < rest then xs[|xs| - 1] else rest
  }

  /** The earliest instant among the listed days. */
  function EarliestOccurrence(t: ClockTime, days: seq<string>, now: int): (r: int)
    requires |days| > 0
    ensures exists k :: 0 <= k < |days| && r == OccurrenceOn(t, days[k], now)
    ensures forall k :: 0 <= k < |days| ==> r <= OccurrenceOn(t, days[k], now)
  {
    var xs := PossibleTimes(t, days, now);
    var r := MinOf(xs);
    var k :| 0 <= k < |xs| && xs[k] == r;
    r
  }

  /** `getNextOccurrence` at `now`: `Some(0)` for no days,
      `None` (NaN) for an unreadable time, else the earliest day's instant. */
  function NextOccurrence(classTime: string, days: seq<string>, now: int): (r: Option<int>)
    ensures |days| == 0 ==> r == Some(0)
    ensures |days| > 0 ==> (r.None? <==> ParseClassTime(classTime).None?)
    ensures |days| > 0 && r.Some? ==>
              (exists k :: 0 <= k < |days| && r.value == OccurrenceOn(ParseClassTime(classTime).value, days[k], now)) &&
              (forall k :: 0 <= k < |days| ==> r.value <= OccurrenceOn(ParseClassTime(classTime).value, days[k], now))
  {
    if |days| == 0 then Some(0)
    else
      match ParseClassTime(classTime)
      case None => None
      case Some(t) => Some(EarliestOccurrence(t, days, now))
  }

  /** `getNextOccurrence` as the page runs it, with the hour adjusted in place. */
  method GetNextOccurrence(classTime: string, days: seq<string>, now: int) returns (r: Option<int>)
    ensures r == NextOccurrence(classTime, days, now)
    ensures |days| == 0 ==> r == Some(0)
    ensures |days| > 0 ==> (r.None? <==> ParseClassTime(classTime).None?)
    ensures |days| > 0 && r.Some? ==>
              (exists k :: 0 <= k < |days| && r.value == OccurrenceOn(ParseClassTime(classTime).value, days[k], now)) &&
              (forall k :: 0 <= k < |days| ==> r.value <= OccurrenceOn(ParseClassTime(classTime).value, days[k], now))
  {
    if |days| == 0 {
      return Some(0);
    }
    var parts := Split(classTime, ' ');
    var modifier := if |parts| > 1 then Some(parts[1]) else None;
    var hm := Split(parts[0], ':');
    var h := ToNumber(hm[0]);
    var m := if |hm| > 1 then ToNumber(hm[1]) else None;
    if h.None? || m.None? {
      return None;
    }
    var hours, minutes := h.value, m.value;
    if modifier == Some("PM") && hours < 12 {
      hours := hours + 12;
    }
    if modifier == Some("AM") && hours == 12 {
      hours := 0;
    }
    assert ParseClassTime(classTime) == Some(ClockTime(hours, minutes));
    var possibleTimes := PossibleTimes(ClockTime(hours, minutes), days, now);
    r := Some(MinOf(possibleTimes));
  }

  /** For a time the form can produce, each day's instant lies in `[now, now + 7 days)`. */
  lemma OccurrenceWindow(t: ClockTime, dayName: string, now: int)
    requires ValidClock(t)
    ensures now <= OccurrenceOn(t, dayName, now) < now + WEEK_MS
  {
    DayStartBounds(now);
    OccurrenceShape(t, dayName, now);
  }

  /** For a time the form can produce, a day's instant falls on that weekday,
      exactly at the normalised hour and minute with zero seconds and ms. */
  lemma OccurrenceOnWeekday(t: ClockTime, dayName: string, now: int)
    requires ValidClock(t)
    ensures var r := OccurrenceOn(t, dayName, now);
            Weekday(r) == JsWeekday(dayName) && r - DayStart(r) == TimeOfDay(t)
  {
    var tod := TimeOfDay(t);
    var passed := DayStart(now) + tod < now;
    var dayDiff := DayDiff(JsWeekday(dayName), Weekday(now), passed);
    OccurrenceShape(t, dayName, now);
    DayShift(now, dayDiff, tod);
    DayDiffReachesTarget(JsWeekday(dayName), Weekday(now), passed);
  }

  /** The strict "passed today" rule: on today's weekday, the class at `now`
      itself is today, one already past moves exactly 7 days on, and a later
      one is today. */
  lemma OccurrenceToday(t: ClockTime, dayName: string, now: int)
    requires ValidClock(t)
    requires JsWeekday(dayName) == Weekday(now)
    ensures var target := DayStart(now) + TimeOfDay(t);
            && (target == now ==> OccurrenceOn(t, dayName, now) == now)
            && (target < now ==> OccurrenceOn(t, dayName, now) == target + WEEK_MS)
            && (target > now ==> OccurrenceOn(t, dayName, now) == target)
  {
    OccurrenceShape(t, dayName, now);
    DayDiffReachesTarget(JsWeekday(dayName), Weekday(now), DayStart(now) + TimeOfDay(t) < now);
  }

  /** With days and a readable in-range time, the next occurrence is in `[now, now + 7 days)`. */
  lemma NextOccurrenceWindow(classTime: string, days: seq<string>, now: int)
    requires |days| > 0
    requires ParseClassTime(classTime).Some? && ValidClock(ParseClassTime(classTime).value)
    ensures var r := NextOccurrence(classTime, days, now);
            r.Some? && now <= r.value < now + WEEK_MS
  {
    var t := ParseClassTime(classTime).value;
    var e := EarliestOccurrence(t, days, now);
    var k :| 0 <= k < |days| && e == OccurrenceOn(t, days[k], now);
    OccurrenceWindow(t, days[k], now);
    forall j | 0 <= j < |days| ensures now <= OccurrenceOn(t, days[j], now) {
      OccurrenceWindow(t, days[j], now);
    }
  }

  /** The next occurrence depends only on which names occur in `days`, not on
      their order or on repetitions. */
  lemma NextOccurrenceIgnoresOrder(classTime: string, days1: seq<string>, days2: seq<string>, now: int)
    requires forall d :: d in days1 <==> d in days2
    ensures NextOccurrence(classTime, days1, now) == NextOccurrence(classTime, days2, now)
  {
    if |days1| > 0 {
      assert days1[0] in days2;
    }
    if |days2| > 0 {
      assert days2[0] in days1;
    }
    if |days1| > 0 && ParseClassTime(classTime).Some? {
      var t := ParseClassTime(classTime).value;
      var e1 := EarliestOccurrence(t, days1, now);
      var e2 := EarliestOccurrence(t, days2, now);
      var k1 :| 0 <= k1 < |days1| && e1 == OccurrenceOn(t, days1[k1], now);
      var k2 :| 0 <= k2 < |days2| && e2 == OccurrenceOn(t, days2[k2], now);
      assert days1[k1] in days2;
      var j2 :| 0 <= j2 < |days2| && days2[j2] == days1[k1];
      assert e2 <= e1;
      assert days2[k2] in days1;
      var j1 :| 0 <= j1 < |days1| && days1[j1] == days2[k2];
      assert e1 <= e2;
    }
  }

  // ----- the list: search, sort and countdown -----

  /** The comparator's value: the next time, or the largest safe integer for NaN. */
  function SortValue(next: Option<int>): int {
    match next
    case Some(v) => v
    case None => MAX_SAFE_INTEGER
  }

  function ScheduleKey(now: int): Sedulous -> int {
    (s: Sedulous) => SortValue(NextOccurrence(s.classTime, s.days, now))
  }

  /** The search: course name or batch number contains the term, ignoring case. */
  function ScheduleMatches(term: string): Sedulous -> bool {
    (s: Sedulous) => Matches(s.courseName, term) || Matches(s.batchNumber, term)
  }

  /** `sortedSchedules`: the matching schedules, stably sorted by ascending
      comparator value. */
  function SortedSchedules(schedules: seq<Sedulous>, term: string, now: int): (r: seq<Sedulous>)
    ensures forall s :: s in r <==> s in schedules && ScheduleMatches(term)(s)
    ensures multiset(r) == multiset(Seqs.Filter(schedules, ScheduleMatches(term)))
    ensures forall i, j :: 0 <= i < j < |r| ==> ScheduleKey(now)(r[i]) <= ScheduleKey(now)(r[j])
  {
    var matching := Seqs.Filter(schedules, ScheduleMatches(term));
    Seqs.IntOrders();
    Seqs.SortBySorted(matching, ScheduleKey(now), Seqs.IntLess);
    var r := Seqs.SortBy(matching, ScheduleKey(now), Seqs.IntLess);
    Seqs.SameElements(r, matching);
    r
  }

  /** Schedules with equal comparator values keep their stored order. */
  lemma SortedSchedulesStable(schedules: seq<Sedulous>, term: string, now: int, v: int)
    ensures Seqs.Filter(SortedSchedules(schedules, term, now), Seqs.KeyIs(ScheduleKey(now), v))
         == Seqs.Filter(Seqs.Filter(schedules, ScheduleMatches(term)), Seqs.KeyIs(ScheduleKey(now), v))
  {
    Seqs.IntOrders();
    Seqs.SortByStable(Seqs.Filter(schedules, ScheduleMatches(term)), ScheduleKey(now), Seqs.IntLess, v);
  }

  /** A schedule with no days has the finite value 0, so after any `now > 0`
      it sorts before every schedule that has days and a readable in-range
      time (and before every unreadable one). */
  lemma EmptyDaysSortFirst(schedules: seq<Sedulous>, term: string, now: int, i: int, j: int)
    requires now > 0
    requires var r := SortedSchedules(schedules, term, now);
             && 0 <= i < |r| && 0 <= j < |r|
             && r[i].days == [] && r[j].days != []
             && (ParseClassTime(r[j].classTime).Some? ==> ValidClock(ParseClassTime(r[j].classTime).value))
    ensures i < j
  {
    var r := SortedSchedules(schedules, term, now);
    ScheduleKeyPositive(r[j], now);
    ScheduleKeyEmpty(r[i], now);
    SmallerKeyFirst(r, ScheduleKey(now), i, j);
  }

  /** In a list sorted by ascending key, a smaller key comes first. */
  lemma SmallerKeyFirst(r: seq<Sedulous>, key: Sedulous -> int, i: int, j: int)
    requires forall a, b :: 0 <= a < b < |r| ==> key(r[a]) <= key(r[b])
    requires 0 <= i < |r| && 0 <= j < |r| && key(r[i]) < key(r[j])
    ensures i < j
  {
  }

  /** A schedule with no days has the comparator value 0. */
  lemma ScheduleKeyEmpty(s: Sedulous, now: int)
    requires s.days == []
    ensures ScheduleKey(now)(s) == 0
  {
  }

  /** After `now > 0`, a schedule with days has a positive comparator value
      when its time is unreadable or in range. */
  lemma ScheduleKeyPositive(s: Sedulous, now: int)
    requires now > 0 && s.days != []
    requires ParseClassTime(s.classTime).Some? ==> ValidClock(ParseClassTime(s.classTime).value)
    ensures ScheduleKey(now)(s) > 0
  {
    if ParseClassTime(s.classTime).Some? {
      NextOccurrenceWindow(s.classTime, s.days, now);
    }
  }

  /** The countdown fields shown on a card. */
  datatype Countdown = Countdown(days: int, hours: int, minutes: int, seconds: int)

  /** JavaScript's `Math.trunc(a / b)` for b > 0. */
  function TruncDiv(a: int, b: int): int
    requires b > 0
  {
    if a >= 0 then a / b else -((-a) / b)
  }

  /** The whole `unit`s left in `diff` after removing whole `span`s, with
      JavaScript's `%` that keeps the sign of its left operand. */
  function FloorRem(diff: int, unit: int, span: int): int
    requires 0 < unit <= span
  {
    (diff - span * TruncDiv(diff, span)) / unit
  }

  /** The card's breakdown of `diff = nextTime - now`. */
  function CountdownOf(diff: int): (c: Countdown)
    ensures diff >= 0 ==> && c.days == diff / DAY_MS
                          && c.hours == (diff % DAY_MS) / HOUR_MS
                          && c.minutes == (diff % HOUR_MS) / MINUTE_MS
                          && c.seconds == (diff % MINUTE_MS) / SECOND_MS
    ensures diff < 0 ==> c.days < 0 && c.hours <= 0 && c.minutes <= 0 && c.seconds <= 0
  {
    Countdown(
      diff / DAY_MS,
      FloorRem(diff, HOUR_MS, DAY_MS),
      FloorRem(diff, MINUTE_MS, HOUR_MS),
      FloorRem(diff, SECOND_MS, MINUTE_MS))
  }

  /** The milliseconds a breakdown stands for. */
  function CountdownSpan(c: Countdown): int {
    c.days * DAY_MS + c.hours * HOUR_MS + c.minutes * MINUTE_MS + c.seconds * SECOND_MS
  }

  lemma {:induction false} MulAtLeast(k: int, u: int)
    requires k >= 1 && u > 0
    ensures k * u >= u
  {
    if k > 1 {
      MulAtLeast(k - 1, u);
      assert k * u == (k - 1) * u + u;
    }
  }

  /** Euclidean division has one quotient and remainder. */
  lemma DivModUnique(d: int, u: int, q: int, r: int)
    requires u > 0 && 0 <= r < u && d == q * u + r
    ensures d / u == q && d % u == r
  {
    var q0, r0 := d / u, d % u;
    assert d == q0 * u + r0;
    if q0 < q {
      assert (q - q0) * u == q * u - q0 * u;
      MulAtLeast(q - q0, u);
    } else if q < q0 {
      assert (q0 - q) * u == q0 * u - q * u;
      MulAtLeast(q0 - q, u);
    }
  }

  /** Reducing modulo `n * small`, then modulo `small`, is reducing modulo `small`. */
  lemma RemainderNests(d: int, small: int, n: int)
    requires d >= 0 && small > 0 && n > 0
    ensures (d % (n * small)) % small == d % small
  {
    var big := n * small;
    var q, r := d / big, d % big;
    var q2, r2 := r / small, r % small;
    assert d == q * big + r;
    assert q * big == (q * n) * small;
    assert r == q2 * small + r2;
    assert d == (q * n + q2) * small + r2;
    DivModUnique(d, small, q * n + q2, r2);
  }

  /** Reducing modulo a day, then an hour, is reducing modulo an hour; likewise
      an hour then a minute, and a minute then a second. */
  lemma RemaindersNest(diff: int)
    requires diff >= 0
    ensures (diff % DAY_MS) % HOUR_MS == diff % HOUR_MS
    ensures (diff % HOUR_MS) % MINUTE_MS == diff % MINUTE_MS
    ensures (diff % MINUTE_MS) % SECOND_MS == diff % SECOND_MS
  {
    RemainderNests(diff, HOUR_MS, 24);
    RemainderNests(diff, MINUTE_MS, 60);
    RemainderNests(diff, SECOND_MS, 60);
  }

  /** For a non-negative difference the fields are in range and make up
      `diff` to within the dropped milliseconds. */
  lemma CountdownBounds(diff: int)
    requires diff >= 0
    ensures var c := CountdownOf(diff);
            && c.days >= 0 && 0 <= c.hours < 24 && 0 <= c.minutes < 60 && 0 <= c.seconds < 60
            && CountdownSpan(c) <= diff < CountdownSpan(c) + SECOND_MS
  {
    var c := CountdownOf(diff);
    RemaindersNest(diff);
    assert c.days * DAY_MS == diff - diff % DAY_MS;
    assert c.hours * HOUR_MS == diff % DAY_MS - diff % HOUR_MS;
    assert c.minutes * MINUTE_MS == diff % HOUR_MS - diff % MINUTE_MS;
    assert c.seconds * SECOND_MS == diff % MINUTE_MS - diff % SECOND_MS;
  }

  /** `isUrgent`: less than an hour to go. */
  predicate IsUrgent(diff: int) {
    diff > 0 && diff < HOUR_MS
  }

  /** A non-negative countdown is urgent exactly when it reads 0 days and
      0 hours and is not yet zero. */
  lemma UrgentIffUnderAnHour(diff: int)
    requires diff >= 0
    ensures IsUrgent(diff) <==> diff > 0 && CountdownOf(diff).days == 0 && CountdownOf(diff).hours == 0
  {
    CountdownBounds(diff);
  }

  /** The countdown is drawn only for a positive, finite next time. */
  predicate ShowsCountdown(next: Option<int>) {
    next.Some? && next.value > 0
  }

  /** A schedule without days never shows a countdown; one with days and a
      readable in-range time always does once `now > 0`. */
  lemma CountdownShown(classTime: string, days: seq<string>, now: int)
    ensures days == [] ==> !ShowsCountdown(NextOccurrence(classTime, days, now))
    ensures days != [] && now > 0 && ParseClassTime(classTime).Some? && ValidClock(ParseClassTime(classTime).value)
            ==> ShowsCountdown(NextOccurrence(classTime, days, now))
  {
    if days != [] && now > 0 && ParseClassTime(classTime).Some? && ValidClock(ParseClassTime(classTime).value) {
      NextOccurrenceWindow(classTime, days, now);
    }
  }

  // ----- the add form and delete -----

  datatype Meridiem = AM | PM

  function MeridiemText(m: Meridiem): string {
    match m
    case AM => "AM"
    case PM => "PM"
  }

  /** What the form's selects offer: hours 01..12 and minutes 00, 15, 30, 45. */
  predicate FormChoice(hour: int, minute: int) {
    1 <= hour <= 12 && minute in {0, 15, 30, 45}
  }

  /** `${timeHour}:${timeMinute} ${timeMod}` with the two-digit option values. */
  function FormClassTime(hour: int, minute: int, mer: Meridiem): string
    requires FormChoice(hour, minute)
  {
    Pad2(hour) + ":" + Pad2(minute) + " " + MeridiemText(mer)
  }

  /** A form-built time splits back into its selected hour, minute and
      meridiem, and parses to the normalised hour (0..23) and the minute. */
  lemma FormClassTimeRoundTrip(hour: int, minute: int, mer: Meridiem)
    requires FormChoice(hour, minute)
    ensures Split(FormClassTime(hour, minute, mer), ' ') == [Pad2(hour) + ":" + Pad2(minute), MeridiemText(mer)]
    ensures Split(Pad2(hour) + ":" + Pad2(minute), ':') == [Pad2(hour), Pad2(minute)]
    ensures ParseClassTime(FormClassTime(hour, minute, mer))
            == Some(ClockTime(NormalizeHour(hour, Some(MeridiemText(mer))), minute))
    ensures ValidClock(ParseClassTime(FormClassTime(hour, minute, mer)).value)
  {
    FormClassTimeSplits(hour, minute, mer);
    Pad2RoundTrip(hour);
    Pad2RoundTrip(minute);
  }

  /** The two `split` steps recover the selected pieces of a form-built time. */
  lemma FormClassTimeSplits(hour: int, minute: int, mer: Meridiem)
    requires FormChoice(hour, minute)
    ensures Split(FormClassTime(hour, minute, mer), ' ') == [Pad2(hour) + ":" + Pad2(minute), MeridiemText(mer)]
    ensures Split(Pad2(hour) + ":" + Pad2(minute), ':') == [Pad2(hour), Pad2(minute)]
  {
    var time := Pad2(hour) + ":" + Pad2(minute);
    var mod := MeridiemText(mer);
    assert FormClassTime(hour, minute, mer) == time + [' '] + mod;
    assert ' ' !in time;
    SplitCons(time, ' ', mod);
    SplitNone(mod, ' ');
    assert time == Pad2(hour) + [':'] + Pad2(minute);
    SplitCons(Pad2(hour), ':', Pad2(minute));
    SplitNone(Pad2(minute), ':');
  }

  /** The ticked weekday boxes, in Monday..Sunday order. */
  function SelectedDays(checked: set<string>): (r: seq<string>)
    ensures forall d :: d in r <==> d in DAYS_OF_WEEK && d in checked
    ensures forall i, j :: 0 <= i < j < |r| ==> IndexOf(DAYS_OF_WEEK, r[i]) < IndexOf(DAYS_OF_WEEK, r[j])
  {
    JsWeekdayOfNames();
    var index := (d: string) => IndexOf(DAYS_OF_WEEK, d);
    assert forall i, j :: 0 <= i < j < |DAYS_OF_WEEK| ==> index(DAYS_OF_WEEK[i]) < index(DAYS_OF_WEEK[j]);
    Seqs.FilterMonotone(DAYS_OF_WEEK, d => d in checked, index);
    Seqs.Filter(DAYS_OF_WEEK, d => d in checked)
  }

  /** The fields of the add form. */
  datatype ScheduleForm = ScheduleForm(
    courseName: string,
    classType: string,
    batchNumber: string,
    hour: int,
    minute: int,
    meridiem: Meridiem,
    checked: set<string>)

  /** The entry the form builds, or `None` when no day is checked (the alert). */
  function BuildSchedule(form: ScheduleForm, id: string): (r: Option<Sedulous>)
    requires FormChoice(form.hour, form.minute)
    ensures r.None? <==> SelectedDays(form.checked) == []
    ensures r.Some? ==> r.value.id == id && r.value.days == SelectedDays(form.checked)
                        && r.value.courseName == form.courseName && r.value.classType == form.classType
                        && r.value.batchNumber == form.batchNumber
                        && r.value.classTime == FormClassTime(form.hour, form.minute, form.meridiem)
                        && ParseClassTime(r.value.classTime)
                           == Some(ClockTime(NormalizeHour(form.hour, Some(MeridiemText(form.meridiem))), form.minute))
  {
    var days := SelectedDays(form.checked);
    if days == [] then None
    else
      FormClassTimeRoundTrip(form.hour, form.minute, form.meridiem);
      Some(Sedulous(id, form.courseName, form.classType, form.batchNumber,
                    FormClassTime(form.hour, form.minute, form.meridiem), days))
  }

  /** Submitting the form: the new schedule goes after the stored ones, or
      nothing changes when no day is checked. */
  function SubmitSchedule(schedules: seq<Sedulous>, form: ScheduleForm, id: string): (r: seq<Sedulous>)
    requires FormChoice(form.hour, form.minute)
    ensures SelectedDays(form.checked) == [] ==> r == schedules
    ensures SelectedDays(form.checked) != [] ==>
              |r| == |schedules| + 1 && r[..|schedules|] == schedules
              && r[|schedules|] == BuildSchedule(form, id).value
  {
    match BuildSchedule(form, id)
    case None => schedules
    case Some(s) => schedules + [s]
  }

  /** A schedule added through the form always has a next occurrence within the coming week. */
  lemma SubmittedScheduleOccurs(schedules: seq<Sedulous>, form: ScheduleForm, id: string, now: int)
    requires FormChoice(form.hour, form.minute)
    requires SelectedDays(form.checked) != []
    ensures var s := SubmitSchedule(schedules, form, id)[|schedules|];
            var next := NextOccurrence(s.classTime, s.days, now);
            next.Some? && now <= next.value < now + WEEK_MS
  {
    var s := BuildSchedule(form, id).value;
    FormClassTimeRoundTrip(form.hour, form.minute, form.meridiem);
    NextOccurrenceWindow(s.classTime, s.days, now);
  }

  /** `confirmDelete`: the schedules with another id stay, in order. */
  function DeleteSchedule(schedules: seq<Sedulous>, id: string): (r: seq<Sedulous>)
    ensures r == Seqs.Filter(schedules, (s: Sedulous) => s.id != id)
    ensures forall s :: s in r <==> s in schedules && s.id != id
    ensures (forall s :: s in schedules ==> s.id != id) ==> r == schedules
  {
    Seqs.FilterAll(schedules, (s: Sedulous) => s.id != id);
    Seqs.Filter(schedules, (s: Sedulous) => s.id != id)
  }

  /** Deleting the schedule just added under an id no schedule had restores the list. */
  lemma DeleteUndoesSubmit(schedules: seq<Sedulous>, form: ScheduleForm, id: string)
    requires FormChoice(form.hour, form.minute)
    requires forall s :: s in schedules ==> s.id != id
    ensures DeleteSchedule(SubmitSchedule(schedules, form, id), id) == schedules
  {
    var keep := (s: Sedulous) => s.id != id;
    Seqs.FilterAll(schedules, keep);
    if SelectedDays(form.checked) != [] {
      Seqs.FilterConcat(schedules, [BuildSchedule(form, id).value], keep);
    }
  }
}
