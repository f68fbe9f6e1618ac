/** Local-time instants and the day-level helpers of the views: the last
    `n` days, "is today" and "is in the future".

    An instant is a local day number and the milliseconds elapsed since
    that day's local midnight; every day is taken to be 24 hours long. */
module Dates {
  import opened Calendar

  /** Milliseconds since local midnight. */
  type MsOfDay = ms: int | 0 <= ms < MsPerDay

  datatype Instant = Instant(day: Day, ms: MsOfDay)

  /** Milliseconds since local midnight of day 0. */
  function EpochMs(t: Instant): int {
    t.day * MsPerDay + t.ms
  }

  /** `setHours(0, 0, 0, 0)`: local midnight of the same day, at most a day
      before the instant. */
  function StartOfDay(t: Instant): (r: Instant)
    ensures r.day == t.day && r.ms == 0
    ensures EpochMs(r) <= EpochMs(t) < EpochMs(r) + MsPerDay
  {
    Instant(t.day, 0)
  }

  /** `isToday`: the two instants print the same `toDateString()`, that is,
      fall on the same calendar date. */
  function IsToday(t: Instant, now: Instant): (r: bool)
    ensures r <==> t.day == now.day
  {
    CivilFromDay(t.day) == CivilFromDay(now.day)
  }

  /** Midnights compare as their days do. */
  lemma MidnightOrder(a: Day, b: Day)
    ensures EpochMs(Instant(a, 0)) > EpochMs(Instant(b, 0)) <==> a > b
  {
  }

  /** `isFuture`: the instant's midnight is after today's midnight, so only
      a later calendar day is in the future, whatever the time of day. */
  function IsFuture(t: Instant, now: Instant): (r: bool)
    ensures r <==> t.day > now.day
  {
    MidnightOrder(t.day, now.day);
    EpochMs(StartOfDay(t)) > EpochMs(StartOfDay(now))
  }

  /** Any instant is in the past, today or in the future, and only one of
      the last two. */
  lemma TodayIsNotFuture(t: Instant, now: Instant)
    ensures !(IsToday(t, now) && IsFuture(t, now))
    ensures IsToday(t, now) || IsFuture(t, now) || t.day < now.day
  {
  }

  /** `getLastNDays`: the `n` days ending today, oldest first, built by
      stepping back `i = n-1, ..., 0` days from today's midnight; no days
      for `n <= 0`. */
  method LastNDays(n: int, today: Day) returns (days: seq<Day>)
    ensures |days| == (if n > 0 then n else 0)
    ensures forall j :: 0 <= j < |days| ==> days[j] == today - (|days| - 1 - j)
  {
    days := [];
    var i := n - 1;
    while i >= 0
      invariant if n > 0 then -1 <= i <= n - 1 else i == n - 1
      invariant |days| == n - 1 - i
      invariant forall j :: 0 <= j < |days| ==> days[j] == today - (n - 1 - j)
    {
      days := days + [today - i];
      i := i - 1;
    }
  }

  /** The last `n` days end today, none lies in the future, and each is the
      calendar date after its predecessor. */
  lemma LastNDaysShape(days: seq<Day>, today: Day, now: Instant)
    requires now.day == today
    requires forall j :: 0 <= j < |days| ==> days[j] == today - (|days| - 1 - j)
    ensures |days| > 0 ==> IsToday(Instant(days[|days| - 1], 0), now)
    ensures forall j :: 0 <= j < |days| ==> !IsFuture(Instant(days[j], 0), now)
    ensures forall j :: 0 < j < |days| ==> CivilFromDay(days[j]) == NextDate(CivilFromDay(days[j - 1]))
  {
    forall j | 0 < j < |days|
      ensures CivilFromDay(days[j]) == NextDate(CivilFromDay(days[j - 1]))
    {
      assert days[j] == days[j - 1] + 1;
      NextDayIsNextDate(days[j - 1]);
    }
  }
}
