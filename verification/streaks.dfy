/** Current and longest streaks of valid completions. */
module Streaks {
  import opened Calendar
  import opened Records
  import opened Validity

  /** The current streak looks back over at most this many days. */
  const MaxLookback: nat := 365

  /** The walk of `calculateCurrentStreak` from offset `i`: it goes on while
      day `today - i` is valid and stops at the first day that is not, or
      when the look-back limit is reached. */
  function StreakFrom(m: CompletionMap, t: HabitType, today: Day, i: nat): (n: nat)
    requires i <= MaxLookback
    ensures i <= n <= MaxLookback
    ensures forall d :: today - n < d <= today - i ==> Valid(m, t, d)
    ensures n < MaxLookback ==> !Valid(m, t, today - n)
    decreases MaxLookback - i
  {
    if i == MaxLookback || !Valid(m, t, today - i) then i
    else StreakFrom(m, t, today, i + 1)
  }

  /** `calculateCurrentStreak`: the number `n` of consecutive valid days
      ending today, at most 365. Days today, today-1, ..., today-(n-1) are all
      valid, and below the cap day today-n is not. An empty map, or a
      missing or invalid entry today, gives 0. */
  function CurrentStreak(m: CompletionMap, t: HabitType, today: Day): (n: nat)
    ensures n <= MaxLookback
    ensures forall d :: today - n < d <= today ==> Valid(m, t, d)
    ensures n < MaxLookback ==> !Valid(m, t, today - n)
    ensures |m| == 0 || !Valid(m, t, today) ==> n == 0
  {
    if |m| == 0 then 0 else StreakFrom(m, t, today, 0)
  }

  /** The current streak is the only count with those properties: the
      longest valid run ending today, cut at 365 days. */
  lemma CurrentStreakUnique(m: CompletionMap, t: HabitType, today: Day, n: nat)
    requires n <= MaxLookback
    requires forall d :: today - n < d <= today ==> Valid(m, t, d)
    requires n < MaxLookback ==> !Valid(m, t, today - n)
    ensures CurrentStreak(m, t, today) == n
  {
    var c := CurrentStreak(m, t, today);
    assert c <= n by {
      if c < MaxLookback {
        assert !(today - n < today - c <= today);
      }
    }
    assert n <= c by {
      if n < MaxLookback {
        assert !(today - c < today - n <= today);
      }
    }
  }

  // ---------------------------------------------------------------------
  // Longest streak

  /** Every day from `a` to `a + len - 1` is in `s`. */
  ghost predicate RunIn(s: set<int>, a: int, len: nat) {
    forall d :: a <= d < a + len ==> d in s
  }

  /** `n` is the length of the longest run of consecutive days in `s`:
      some run has length `n` and none is longer. */
  ghost predicate IsLongestRun(s: set<int>, n: nat) {
    && (exists a :: RunIn(s, a, n))
    && (forall a: int, len: nat :: RunIn(s, a, len) ==> len <= n)
  }

  /** The longest run is 0 exactly when the set is empty. */
  lemma LongestRunZero(s: set<int>, n: nat)
    requires IsLongestRun(s, n)
    ensures n == 0 <==> s == {}
  {
    if n == 0 {
      forall x | x in s
        ensures false
      {
        assert RunIn(s, x, 1);
      }
    }
    if n > 0 {
      var a :| RunIn(s, a, n);
      assert a in s;
    }
  }

  lemma EmptyLongestRun(s: set<int>)
    requires s == {}
    ensures IsLongestRun(s, 0)
  {
    assert RunIn(s, 0, 0);
    forall a: int, len: nat | RunIn(s, a, len)
      ensures len <= 0
    {
      assert len > 0 ==> a in s;
    }
  }

  predicate StrictlyIncreasing(ds: seq<int>) {
    forall j, k :: 0 <= j < k < |ds| ==> ds[j] < ds[k]
  }

  function Elems(ds: seq<int>): (s: set<int>)
    ensures forall x :: x in s <==> x in ds
  {
    set x | x in ds
  }

  /** Prepending an element below all others keeps a sequence increasing. */
  lemma ConsIncreasing(h: int, rest: seq<int>)
    requires StrictlyIncreasing(rest)
    requires forall y :: y in rest ==> h < y
    ensures StrictlyIncreasing([h] + rest)
    ensures Elems([h] + rest) == {h} + Elems(rest)
  {
    var r := [h] + rest;
    forall j, k | 0 <= j < k < |r|
      ensures r[j] < r[k]
    {
      assert r[k] == rest[k - 1];
      if j > 0 {
        assert r[j] == rest[j - 1];
      } else {
        assert rest[k - 1] in rest;
      }
    }
  }

  /** A strictly increasing sequence splits into its least element and an
      increasing rest above it. */
  lemma HeadTail(ds: seq<int>)
    requires |ds| > 0 && StrictlyIncreasing(ds)
    ensures StrictlyIncreasing(ds[1..])
    ensures forall y :: y in ds[1..] ==> ds[0] < y
    ensures Elems(ds) == {ds[0]} + Elems(ds[1..])
  {
    assert ds == [ds[0]] + ds[1..];
    forall y | y in ds[1..]
      ensures ds[0] < y
    {
      var k :| 0 <= k < |ds[1..]| && ds[1..][k] == y;
      assert ds[k + 1] == y;
    }
    forall j, k | 0 <= j < k < |ds[1..]|
      ensures ds[1..][j] < ds[1..][k]
    {
      assert ds[1..][j] == ds[j + 1] && ds[1..][k] == ds[k + 1];
    }
  }

  /** Insert `x` into a strictly increasing sequence, keeping it so. */
  function Insert(ds: seq<int>, x: int): (r: seq<int>)
    requires StrictlyIncreasing(ds) && x !in ds
    ensures StrictlyIncreasing(r)
    ensures Elems(r) == Elems(ds) + {x}
    ensures |r| == |ds| + 1
  {
    if |ds| == 0 then [x]
    else
      HeadTail(ds);
      if x < ds[0] then
        ConsIncreasing(x, ds);
        [x] + ds
      else
        var rest := Insert(ds[1..], x);
        assert forall y :: y in rest ==> ds[0] < y by {
          forall y | y in rest
            ensures ds[0] < y
          {
            assert y in Elems(rest);
          }
        }
        ConsIncreasing(ds[0], rest);
        [ds[0]] + rest
  }

  /** The valid date keys in ascending order: the filter and `.sort()` of
      `calculateLongestStreak` (string order on keys is day order, see
      `DateKeys.DateKeyOrder`). */
  method SortedValidDays(m: CompletionMap, t: HabitType) returns (ds: seq<Day>)
    ensures StrictlyIncreasing(ds)
    ensures Elems(ds) == ValidDays(m, t)
    ensures |ds| == |ValidDays(m, t)|
  {
    var pending := ValidDays(m, t);
    ds := [];
    while pending != {}
      invariant StrictlyIncreasing(ds)
      invariant Elems(ds) + pending == ValidDays(m, t)
      invariant Elems(ds) !! pending
      invariant |ds| + |pending| == |ValidDays(m, t)|
      decreases |pending|
    {
      var d :| d in pending;
      ds := Insert(ds, d);
      pending := pending - {d};
    }
  }

  /** After appending `x`, larger than every element, the longest run is
      bounded by the old bound or by the run ending at `x`. */
  lemma RunBoundAfterAppend(s: set<int>, x: int, cur: nat, mx: nat)
    requires forall y :: y in s ==> y < x
    requires forall a: int, len: nat :: RunIn(s, a, len) ==> len <= mx
    requires 1 <= cur <= mx
    requires x - cur !in s
    ensures forall a: int, len: nat :: RunIn(s + {x}, a, len) ==> len <= mx
  {
    forall a: int, len: nat | RunIn(s + {x}, a, len)
      ensures len <= mx
    {
      if len > 0 {
        var top := a + len - 1;
        assert top in s + {x};
        if top < x {
          assert RunIn(s, a, len);
        } else {
          assert len > cur ==> x - cur in s + {x};
        }
      }
    }
  }

  /** The scan of `calculateLongestStreak` over the sorted valid days: a
      day one after its predecessor extends the current run, any other gap
      restarts it at 1, and the maximum is kept. */
  method LongestRun(ds: seq<int>) returns (r: nat)
    requires |ds| > 0 && StrictlyIncreasing(ds)
    ensures IsLongestRun(Elems(ds), r)
    ensures 1 <= r <= |ds|
  {
    var maxStreak := 1;
    var current := 1;
    ghost var best := ds[0];
    var first := Elems(ds[..1]);
    assert first == {ds[0]};
    forall a: int, len: nat | RunIn(first, a, len)
      ensures len <= 1
    {
      assert len > 1 ==> a in first && a + 1 in first;
    }
    var i := 1;
    while i < |ds|
      invariant 1 <= i <= |ds|
      invariant 1 <= current <= maxStreak <= i
      invariant RunIn(Elems(ds[..i]), ds[i - 1] - current + 1, current)
      invariant ds[i - 1] - current !in ds[..i]
      invariant RunIn(Elems(ds[..i]), best, maxStreak)
      invariant forall a: int, len: nat :: RunIn(Elems(ds[..i]), a, len) ==> len <= maxStreak
    {
      assert ds[..i + 1] == ds[..i] + [ds[i]];
      assert Elems(ds[..i + 1]) == Elems(ds[..i]) + {ds[i]};
      assert forall y :: y in Elems(ds[..i]) ==> y <= ds[i - 1];
      if ds[i] - ds[i - 1] == 1 {
        current := current + 1;
      } else {
        current := 1;
      }
      if current > maxStreak {
        best := ds[i] - current + 1;
      }
      RunBoundAfterAppend(Elems(ds[..i]), ds[i], current, if current > maxStreak then current else maxStreak);
      maxStreak := if current > maxStreak then current else maxStreak;
      i := i + 1;
    }
    assert ds[..i] == ds;
    r := maxStreak;
  }

  /** `calculateLongestStreak`: the length of the longest run of consecutive
      days with valid completions; 0 exactly when no day is valid, and never
      more than the number of valid days. */
  method LongestStreak(m: CompletionMap, t: HabitType) returns (r: nat)
    ensures IsLongestRun(ValidDays(m, t), r)
    ensures r == 0 <==> ValidDays(m, t) == {}
    ensures r <= |ValidDays(m, t)|
  {
    if |m| == 0 {
      EmptyLongestRun(ValidDays(m, t));
      return 0;
    }
    var dates := SortedValidDays(m, t);
    if |dates| == 0 {
      EmptyLongestRun(ValidDays(m, t));
      return 0;
    }
    r := LongestRun(dates);
    LongestRunZero(ValidDays(m, t), r);
  }

  /** The current streak is a run of valid days, so it never exceeds the
      longest streak. */
  lemma CurrentStreakIsRun(m: CompletionMap, t: HabitType, today: Day)
    ensures RunIn(ValidDays(m, t), today - CurrentStreak(m, t, today) + 1, CurrentStreak(m, t, today))
  {
    var n := CurrentStreak(m, t, today);
    forall d | today - n + 1 <= d < today - n + 1 + n
      ensures d in ValidDays(m, t)
    {
      assert today - n < d <= today;
    }
  }
}
