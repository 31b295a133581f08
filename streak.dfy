/**
  Streak calculation of a habit (calculate_streak in app.py).

  A habit's completed records are given as their dates, as day numbers, newest
  first. The query that fetches them orders by date descending and the records
  table holds at most one row per (habit, date), so that sequence is strictly
  decreasing; the clock reading `today` is a parameter.
*/
module Streak {
  import opened Wrappers

  /** The pair returned by calculate_streak: `current` and `best`. */
  datatype StreakInfo = StreakInfo(current: nat, best: nat)

  predicate StrictlyDecreasing(days: seq<int>) {
    forall i, j :: 0 <= i < j < |days| ==> days[i] > days[j]
  }

  // ---------------------------------------------------------------------------
  // Current streak
  // ---------------------------------------------------------------------------

  /** The number of leading records dated today, today-1, today-2, ... in turn. */
  function CurrentStreak(days: seq<int>, today: int): (k: nat)
    ensures k <= |days|
    ensures forall j :: 0 <= j < k ==> days[j] == today - j
    ensures k < |days| ==> days[k] != today - k
  {
    if days == [] || days[0] != today then 0
    else 1 + CurrentStreak(days[1..], today - 1)
  }

  // ---------------------------------------------------------------------------
  // Best streak
  // ---------------------------------------------------------------------------

  /** Days between record j-1 and record j: (prev_date - record_date).days. */
  function Gap(days: seq<int>, j: int): int
    requires 0 < j < |days|
  {
    days[j - 1] - days[j]
  }

  /** days[i..i+k] is a run: each record is exactly one day before the previous one. */
  predicate IsRun(days: seq<int>, i: int, k: int) {
    0 <= i && 0 <= k && i + k <= |days| &&
    forall j :: i < j < i + k ==> Gap(days, j) == 1
  }

  /** Length of the longest run that ends at index i. */
  function RunEndingAt(days: seq<int>, i: nat): (k: nat)
    requires i < |days|
    ensures 1 <= k <= i + 1
  {
    if i == 0 || Gap(days, i) != 1 then 1 else RunEndingAt(days, i - 1) + 1
  }

  /** The run counted by RunEndingAt is a run, and it cannot be extended backwards. */
  lemma {:induction false} RunEndingAtIsRun(days: seq<int>, i: nat)
    requires i < |days|
    ensures IsRun(days, i + 1 - RunEndingAt(days, i), RunEndingAt(days, i))
    ensures var k := RunEndingAt(days, i); i + 1 - k == 0 || Gap(days, i + 1 - k) != 1
  {
    if i > 0 && Gap(days, i) == 1 {
      RunEndingAtIsRun(days, i - 1);
    }
  }

  /** Length of the longest run within the first n records. */
  function MaxRun(days: seq<int>, n: nat): (m: nat)
    requires n <= |days|
    ensures m <= n
    ensures n > 0 ==> m >= 1
  {
    if n == 0 then 0 else Max(MaxRun(days, n - 1), RunEndingAt(days, n - 1))
  }

  function LongestRun(days: seq<int>): nat {
    MaxRun(days, |days|)
  }

  // ---------------------------------------------------------------------------
  // The result of calculate_streak
  // ---------------------------------------------------------------------------

  /** What calculate_streak returns for the given newest-first completed dates. */
  function Streak(days: seq<int>, today: int): (r: StreakInfo)
    ensures days == [] ==> r == StreakInfo(0, 0)
    ensures r.current <= r.best <= |days|
    ensures days != [] ==> r.best >= 1
    ensures r.current > 0 <==> days != [] && days[0] == today
    ensures forall j :: 0 <= j < r.current ==> days[j] == today - j
  {
    if days == [] then StreakInfo(0, 0)
    else
      var c := CurrentStreak(days, today);
      StreakInfo(c, Max(LongestRun(days), c))
  }

  /** The loops of calculate_streak, with the same counters. */
  method CalculateStreak(days: seq<int>, today: int) returns (r: StreakInfo)
    ensures r == Streak(days, today)
  {
    var currentStreak: nat := 0;
    var bestStreak: nat := 0;
    var tempStreak: nat := 0;

    if |days| == 0 {
      return StreakInfo(0, 0);
    }

    // Current streak: walk back from today until a day is missing.
    var i := 0;
    while i < |days|
      invariant 0 <= i <= |days|
      invariant currentStreak == i <= CurrentStreak(days, today)
    {
      var expectedDate := today - currentStreak;
      if days[i] == expectedDate {
        currentStreak := currentStreak + 1;
      } else {
        break;
      }
      i := i + 1;
    }

    // Best streak: length of the longest run of consecutive days.
    var prevDate: Option<int> := None;
    var n := 0;
    while n < |days|
      invariant 0 <= n <= |days|
      invariant n == 0 <==> prevDate == None
      invariant n == 0 ==> tempStreak == 0
      invariant n > 0 ==> prevDate == Some(days[n - 1]) && tempStreak == RunEndingAt(days, n - 1)
      invariant bestStreak == MaxRun(days, n)
    {
      var recordDate := days[n];
      assert MaxRun(days, n + 1) == Max(MaxRun(days, n), RunEndingAt(days, n));
      if prevDate.None? || prevDate.value - recordDate == 1 {
        tempStreak := tempStreak + 1;
        bestStreak := Max(bestStreak, tempStreak);
      } else {
        tempStreak := 1;
        assert bestStreak >= 1;
      }
      assert tempStreak == RunEndingAt(days, n);
      prevDate := Some(recordDate);
      n := n + 1;
    }

    assert bestStreak == LongestRun(days);
    r := StreakInfo(currentStreak, Max(bestStreak, currentStreak));
  }

  // ---------------------------------------------------------------------------
  // Lemmas: the longest run is attained and nothing longer exists
  // ---------------------------------------------------------------------------

  lemma {:induction false} RunEndingAtIsLongest(days: seq<int>, e: nat, k: nat)
    requires e < |days| && 1 <= k <= e + 1 && IsRun(days, e + 1 - k, k)
    ensures k <= RunEndingAt(days, e)
  {
    if k > 1 {
      assert Gap(days, e) == 1;
      RunEndingAtIsLongest(days, e - 1, k - 1);
    }
  }

  lemma {:induction false} MaxRunIsLongest(days: seq<int>, n: nat, i: nat, k: nat)
    requires n <= |days| && IsRun(days, i, k) && i + k <= n
    ensures k <= MaxRun(days, n)
  {
    if n > 0 {
      if i + k <= n - 1 {
        MaxRunIsLongest(days, n - 1, i, k);
      } else if k > 0 {
        RunEndingAtIsLongest(days, n - 1, k);
      }
    }
  }

  lemma {:induction false} MaxRunAttained(days: seq<int>, n: nat)
    requires 0 < n <= |days|
    ensures exists i :: IsRun(days, i, MaxRun(days, n)) && i + MaxRun(days, n) <= n
  {
    var e := RunEndingAt(days, n - 1);
    RunEndingAtIsRun(days, n - 1);
    if n == 1 || e >= MaxRun(days, n - 1) {
      assert MaxRun(days, n) == e;
      assert IsRun(days, n - e, e) && n - e + e <= n;
    } else {
      assert MaxRun(days, n) == MaxRun(days, n - 1);
      MaxRunAttained(days, n - 1);
    }
  }

  /** The best streak is a run of the records, and no run of the records is longer. */
  lemma BestStreakIsLongestRun(days: seq<int>, today: int)
    ensures Streak(days, today).best == LongestRun(days)
    ensures forall i, k :: IsRun(days, i, k) ==> k <= Streak(days, today).best
    ensures days != [] ==> exists i :: IsRun(days, i, Streak(days, today).best)
  {
    if days != [] {
      var c := CurrentStreak(days, today);
      assert IsRun(days, 0, c);
      MaxRunIsLongest(days, |days|, 0, c);
      MaxRunAttained(days, |days|);
    }
    forall i, k | IsRun(days, i, k) ensures k <= LongestRun(days) {
      MaxRunIsLongest(days, |days|, i, k);
    }
  }

  // ---------------------------------------------------------------------------
  // Lemmas: the streaks in terms of the set of completed days
  // ---------------------------------------------------------------------------

  /** Every day of the k days ending at d, (d-k, d], has a completed record. */
  predicate BlockIn(days: seq<int>, d: int, k: int) {
    forall x :: d - k < x <= d ==> x in days
  }

  lemma {:induction false} RunValues(days: seq<int>, i: int, k: int, j: int)
    requires IsRun(days, i, k) && 0 <= j < k
    ensures days[i + j] == days[i] - j
  {
    if j > 0 {
      RunValues(days, i, k, j - 1);
      assert Gap(days, i + j) == 1;
    }
  }

  lemma {:induction false} BlockFollowsIndex(days: seq<int>, d: int, k: int, i: int, j: int)
    requires StrictlyDecreasing(days) && BlockIn(days, d, k)
    requires 0 <= i < |days| && days[i] == d && 0 <= j < k
    ensures i + j < |days| && days[i + j] == d - j
  {
    if j > 0 {
      BlockFollowsIndex(days, d, k, i, j - 1);
      assert d - k < d - j <= d;
      assert d - j in days;
      var m :| 0 <= m < |days| && days[m] == d - j;
    }
  }

  /**
    For strictly decreasing dates none of which lies after today, the current
    streak is the number of consecutive days ending today that have a
    completed record.
  */
  lemma CurrentStreakCountsDaysEndingToday(days: seq<int>, today: int)
    requires StrictlyDecreasing(days)
    requires forall j :: 0 <= j < |days| ==> days[j] <= today
    ensures BlockIn(days, today, Streak(days, today).current)
    ensures today - Streak(days, today).current !in days
    ensures forall k :: BlockIn(days, today, k) ==> k <= Streak(days, today).current
  {
    var c := Streak(days, today).current;
    forall x | today - c < x <= today ensures x in days {
      assert days[today - x] == x;
    }
    forall m | 0 <= m < |days| ensures days[m] != today - c {
      if m < c {
        assert days[m] == today - m;
      } else if m > c {
        assert days[m] < days[c];
        if c > 0 {
          assert days[c] < days[c - 1] == today - (c - 1);
        } else {
          assert days[0] <= today;
        }
      }
    }
  }

  /**
    A record dated after today hides the current streak: with records for
    tomorrow and today the current streak is 0, although today is completed.
  */
  lemma FutureRecordHidesCurrentStreak(today: int)
    ensures StrictlyDecreasing([today + 1, today])
    ensures today in [today + 1, today]
    ensures Streak([today + 1, today], today).current == 0
  {
  }

  /** A block of consecutive completed days is a run of the strictly decreasing records. */
  lemma BlockIsRun(days: seq<int>, d: int, k: int) returns (i: nat)
    requires StrictlyDecreasing(days) && BlockIn(days, d, k) && k > 0
    ensures IsRun(days, i, k)
  {
    assert d - k < d <= d;
    assert d in days;
    i :| 0 <= i < |days| && days[i] == d;
    BlockFollowsIndex(days, d, k, i, k - 1);
    forall j | i < j < i + k ensures Gap(days, j) == 1 {
      BlockFollowsIndex(days, d, k, i, j - i);
      BlockFollowsIndex(days, d, k, i, j - 1 - i);
    }
  }

  /** A run of the records is a block of consecutive completed days. */
  lemma RunIsBlock(days: seq<int>, i: nat, k: nat)
    requires IsRun(days, i, k) && k > 0
    ensures BlockIn(days, days[i], k)
  {
    forall x | days[i] - k < x <= days[i] ensures x in days {
      RunValues(days, i, k, days[i] - x);
    }
  }

  /**
    For strictly decreasing dates the best streak is the length of the longest
    block of consecutive days that all have a completed record.
  */
  lemma BestStreakIsLongestBlock(days: seq<int>, today: int)
    requires StrictlyDecreasing(days)
    ensures forall d, k :: BlockIn(days, d, k) ==> k <= Streak(days, today).best
    ensures days != [] ==> exists d :: BlockIn(days, d, Streak(days, today).best)
  {
    var b := Streak(days, today).best;
    BestStreakIsLongestRun(days, today);
    forall d: int, k: int | BlockIn(days, d, k) ensures k <= b {
      if k > 0 {
        var i := BlockIsRun(days, d, k);
      }
    }
    if days != [] {
      var i :| IsRun(days, i, b);
      RunIsBlock(days, i, b);
    }
  }
}
