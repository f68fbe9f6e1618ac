/** The per-habit statistics summary the views display. */
module Stats {
  import opened Calendar
  import opened Records
  import opened Validity
  import opened Streaks
  import opened Rates

  datatype HabitStats = HabitStats(
    currentStreak: nat,
    longestStreak: nat,
    strength: int,
    completionRate30Days: int,
    totalCompletions: nat)

  /** `calculateHabitStats`: the streaks, strength and 30-day rate under the
      habit's type (a missing type falls back to 'yesno'), and the number of
      stored records, valid or not. */
  method CalculateHabitStats(h: Habit, m: CompletionMap, now: int, today: Day) returns (s: HabitStats)
    ensures s.currentStreak == CurrentStreak(m, EffectiveType(h.htype), today)
    ensures IsLongestRun(ValidDays(m, EffectiveType(h.htype)), s.longestStreak)
    ensures s.strength == HabitStrength(m, EffectiveType(h.htype), h.createdAt, now, today)
    ensures s.completionRate30Days == CompletionRate(m, EffectiveType(h.htype), today, 30)
    ensures s.totalCompletions == |m|
    ensures s.currentStreak <= s.longestStreak <= |ValidDays(m, EffectiveType(h.htype))| <= s.totalCompletions
    ensures 0 <= s.strength <= 100 && 0 <= s.completionRate30Days <= 100
  {
    var t := EffectiveType(h.htype);
    var currentStreak := CurrentStreak(m, t, today);
    var longestStreak := LongestStreak(m, t);
    var strength := HabitStrength(m, t, h.createdAt, now, today);
    var completionRate := ComputeCompletionRate(m, t, today, 30);
    CurrentStreakIsRun(m, t, today);
    assert ValidDays(m, t) <= m.Keys;
    SubsetCardinality(ValidDays(m, t), m.Keys);
    s := HabitStats(currentStreak, longestStreak, strength, completionRate, |m|);
  }

  lemma SubsetCardinality<T>(a: set<T>, b: set<T>)
    requires a <= b
    ensures |a| <= |b|
  {
    assert b == a + (b - a);
  }
}
