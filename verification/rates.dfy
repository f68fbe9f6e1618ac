/** Trailing-window completion rates and the weighted habit strength.

    JavaScript computes both in floating point and rounds with `Math.round`;
    here the rates are exact rationals and `Math.round(x)` is `floor(x + 1/2)`. */
module Rates {
  import opened Calendar
  import opened Records
  import opened Validity
  import opened Streaks

  /** Number of valid days among today, today-1, ..., today-(n-1). */
  function ValidCount(m: CompletionMap, t: HabitType, today: Day, n: nat): (c: nat)
    ensures c <= n
  {
    if n == 0 then 0
    else ValidCount(m, t, today, n - 1) + (if Valid(m, t, today - (n - 1)) then 1 else 0)
  }

  /** The whole window is valid exactly when the count reaches its size. */
  lemma {:induction false} ValidCountFull(m: CompletionMap, t: HabitType, today: Day, n: nat)
    ensures ValidCount(m, t, today, n) == n <==> forall d :: today - n < d <= today ==> Valid(m, t, d)
  {
    if n > 0 {
      ValidCountFull(m, t, today, n - 1);
      if ValidCount(m, t, today, n) == n {
        assert ValidCount(m, t, today, n - 1) == n - 1;
      }
    }
  }

  /** No day of the window is valid exactly when the count is zero. */
  lemma {:induction false} ValidCountEmpty(m: CompletionMap, t: HabitType, today: Day, n: nat)
    ensures ValidCount(m, t, today, n) == 0 <==> forall d :: today - n < d <= today ==> !Valid(m, t, d)
  {
    if n > 0 {
      ValidCountEmpty(m, t, today, n - 1);
    }
  }

  lemma MulCancel(a: int, b: int, q: int)
    requires q > 0
    ensures a * q < b * q ==> a < b
    ensures a * q <= b * q ==> a <= b
  {
    if a >= b {
      assert a * q - b * q == (a - b) * q;
    }
    if a > b {
      assert a * q - b * q == (a - b) * q;
    }
  }

  /** `Math.round(p / q)` for `q > 0`: the nearest integer, halves rounded up. */
  function RoundHalfUp(p: int, q: int): (r: int)
    requires q > 0
    ensures (2 * r - 1) * q <= 2 * p < (2 * r + 1) * q
  {
    var r := (2 * p + q) / (2 * q);
    assert 2 * q * r <= 2 * p + q < 2 * q * r + 2 * q;
    assert (2 * r - 1) * q == 2 * q * r - q;
    assert (2 * r + 1) * q == 2 * q * r + q;
    r
  }

  /** At most one integer is within a half (ties up) of `p / q`. */
  lemma RoundHalfUpUnique(p: int, q: int, r: int)
    requires q > 0
    requires (2 * r - 1) * q <= 2 * p < (2 * r + 1) * q
    ensures r == RoundHalfUp(p, q)
  {
    var s := RoundHalfUp(p, q);
    MulCancel(2 * r - 1, 2 * s + 1, q);
    MulCancel(2 * s - 1, 2 * r + 1, q);
  }

  /** `calculateCompletionRate`: the percentage of valid days among the
      `days` most recent days, rounded to the nearest integer, halves up.
      A negative window counts nothing (the source yields -0); a window of 0
      days divides by zero in the source and is excluded. */
  function CompletionRate(m: CompletionMap, t: HabitType, today: Day, days: int): (r: int)
    requires days != 0
    ensures 0 <= r <= 100
    ensures days > 0 ==> (2 * r - 1) * days <= 200 * ValidCount(m, t, today, days) < (2 * r + 1) * days
    ensures days < 0 ==> r == 0
  {
    if days < 0 then 0
    else
      var c := ValidCount(m, t, today, days);
      var r := RoundHalfUp(100 * c, days);
      MulCancel(2 * r - 1, 200, days);
      MulCancel(0, 2 * r + 1, days);
      r
  }

  /** The loop of `calculateCompletionRate`: count the valid days among
      today-0, ..., today-(days-1), then round `completed / days * 100`. */
  method ComputeCompletionRate(m: CompletionMap, t: HabitType, today: Day, days: int) returns (r: int)
    requires days != 0
    ensures r == CompletionRate(m, t, today, days)
  {
    var completed := 0;
    var i := 0;
    while i < days
      invariant 0 <= i && (days > 0 ==> i <= days)
      invariant completed == ValidCount(m, t, today, i)
    {
      var completion := Lookup(m, today - i);
      if completion.Some? && IsCompletionValid(completion, t) {
        completed := completed + 1;
      }
      i := i + 1;
    }
    if days > 0 {
      r := RoundHalfUp(100 * completed, days);
    } else {
      r := 0;
    }
  }

  /** A window in which every day is valid rates 100. */
  lemma RateOfFullWindow(m: CompletionMap, t: HabitType, today: Day, days: int)
    requires days > 0
    requires forall d :: today - days < d <= today ==> Valid(m, t, d)
    ensures CompletionRate(m, t, today, days) == 100
  {
    ValidCountFull(m, t, today, days);
    RoundHalfUpUnique(100 * days, days, 100);
  }

  /** A window without a valid day rates 0. */
  lemma RateOfEmptyWindow(m: CompletionMap, t: HabitType, today: Day, days: int)
    requires days != 0
    requires forall d :: today - days < d <= today ==> !Valid(m, t, d)
    ensures CompletionRate(m, t, today, days) == 0
  {
    if days > 0 {
      ValidCountEmpty(m, t, today, days);
      RoundHalfUpUnique(0, days, 0);
    }
  }

  /** A window in which exactly half of the days are valid rates 50. */
  lemma RateOfHalfWindow(m: CompletionMap, t: HabitType, today: Day, days: int)
    requires days > 0 && 2 * ValidCount(m, t, today, days) == days
    ensures CompletionRate(m, t, today, days) == 50
  {
    RoundHalfUpUnique(100 * ValidCount(m, t, today, days), days, 50);
  }

  /** Every window inside the current streak is fully complete. */
  lemma StreakWindowComplete(m: CompletionMap, t: HabitType, today: Day, days: int)
    requires 0 < days <= CurrentStreak(m, t, today)
    ensures CompletionRate(m, t, today, days) == 100
  {
    RateOfFullWindow(m, t, today, days);
  }

  // ---------------------------------------------------------------------
  // Habit strength

  /** Whole days between two instants, rounded down: `Math.floor((today - created) / msPerDay)`. */
  function DaysSinceCreation(createdAt: int, now: int): (n: int)
    ensures n * MsPerDay <= now - createdAt < (n + 1) * MsPerDay
  {
    (now - createdAt) / MsPerDay
  }

  /** `Math.round(r7 * 0.4 + r30 * 0.3 + r90 * 0.2 + rAll * 0.1)`, the
      weights written as tenths. */
  function Blend(r7: int, r30: int, r90: int, rAll: int): (s: int)
    ensures (2 * s - 1) * 10 <= 2 * (4 * r7 + 3 * r30 + 2 * r90 + rAll) < (2 * s + 1) * 10
    ensures 0 <= r7 <= 100 && 0 <= r30 <= 100 && 0 <= r90 <= 100 && 0 <= rAll <= 100 ==> 0 <= s <= 100
  {
    RoundHalfUp(4 * r7 + 3 * r30 + 2 * r90 + rAll, 10)
  }

  /** The blend never drops when any one rate rises. */
  lemma BlendMonotone(r7: int, r30: int, r90: int, rAll: int, r7': int, r30': int, r90': int, rAll': int)
    requires r7 <= r7' && r30 <= r30' && r90 <= r90' && rAll <= rAll'
    ensures Blend(r7, r30, r90, rAll) <= Blend(r7', r30', r90', rAll')
  {
  }

  /** `calculateHabitStrength`: 0 for an empty map or a habit whose age
      rounds down to 0 days; otherwise the blend of the 7-, 30-, 90-day and all-time
      completion rates, always within 0..100. */
  function HabitStrength(m: CompletionMap, t: HabitType, createdAt: int, now: int, today: Day): (s: int)
    ensures |m| == 0 || DaysSinceCreation(createdAt, now) == 0 ==> s == 0
    ensures |m| > 0 && DaysSinceCreation(createdAt, now) != 0 ==>
      s == Blend(CompletionRate(m, t, today, 7), CompletionRate(m, t, today, 30),
                 CompletionRate(m, t, today, 90), CompletionRate(m, t, today, DaysSinceCreation(createdAt, now)))
    ensures 0 <= s <= 100
  {
    if |m| == 0 then 0
    else
      var daysSinceCreation := DaysSinceCreation(createdAt, now);
      if daysSinceCreation == 0 then 0
      else
        Blend(CompletionRate(m, t, today, 7), CompletionRate(m, t, today, 30),
              CompletionRate(m, t, today, 90), CompletionRate(m, t, today, daysSinceCreation))
  }

  /** A habit older than a day with every day valid since creation and in the
      last 90 days has strength 100. */
  lemma StrengthOfPerfectRecord(m: CompletionMap, t: HabitType, createdAt: int, now: int, today: Day)
    requires DaysSinceCreation(createdAt, now) > 0
    requires forall d :: today - 90 < d <= today ==> Valid(m, t, d)
    requires forall d :: today - DaysSinceCreation(createdAt, now) < d <= today ==> Valid(m, t, d)
    ensures HabitStrength(m, t, createdAt, now, today) == 100
  {
    assert today in ValidDays(m, t);
    RateOfFullWindow(m, t, today, 7);
    RateOfFullWindow(m, t, today, 30);
    RateOfFullWindow(m, t, today, 90);
    RateOfFullWindow(m, t, today, DaysSinceCreation(createdAt, now));
  }

  /** Without a valid day in the last 90 days or since creation, the strength is 0. */
  lemma StrengthOfIdleHabit(m: CompletionMap, t: HabitType, createdAt: int, now: int, today: Day)
    requires forall d :: today - 90 < d <= today ==> !Valid(m, t, d)
    requires forall d :: today - DaysSinceCreation(createdAt, now) < d <= today ==> !Valid(m, t, d)
    ensures HabitStrength(m, t, createdAt, now, today) == 0
  {
    var n := DaysSinceCreation(createdAt, now);
    if |m| > 0 && n != 0 {
      RateOfEmptyWindow(m, t, today, 7);
      RateOfEmptyWindow(m, t, today, 30);
      RateOfEmptyWindow(m, t, today, 90);
      RateOfEmptyWindow(m, t, today, n);
    }
  }
}
