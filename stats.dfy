/**
  The statistics routes of app.py: the overview's counts and guarded averages,
  the comparison list ordered by current streak, and the weekday name lookup.
*/
module Stats {
  import opened Wrappers
  import Streak
  import opened Tables

  // ===========================================================================
  // Guarded divisions
  // ===========================================================================

  /** x / n, or 0 when n is 0: the guards of average_streak and completion_rate_today. */
  function GuardedRatio(x: nat, n: nat): (r: real)
    ensures n == 0 ==> r == 0.0
    ensures n > 0 ==> r * (n as real) == x as real
    ensures r >= 0.0
  {
    if n == 0 then 0.0 else x as real / n as real
  }

  // ===========================================================================
  // Overview
  // ===========================================================================

  /** The object get_overview_stats returns (before rounding). */
  datatype Overview = Overview(
    totalHabits: nat,
    completedToday: nat,
    completionRateToday: real,
    averageStreak: real,
    totalCompletions: nat)

  /** The habit ids with a completed record dated `today`. */
  function CompletedTodayIds(rows: seq<RecordRow>, today: int): (ids: set<int>)
    ensures forall h :: h in ids <==> CompletedOn(rows, h, today)
  {
    set i | 0 <= i < |rows| && rows[i].date == today && rows[i].completed == 1 :: rows[i].habitId
  }

  /**
    COUNT(DISTINCT habit_id) over the rows dated today with completed = 1;
    the query does not join habits, so deleted habits are counted too.
  */
  function CompletedTodayCount(rows: seq<RecordRow>, today: int): nat {
    |CompletedTodayIds(rows, today)|
  }

  /** COUNT(*) of the rows with completed = 1. */
  function TotalCompletions(rows: seq<RecordRow>): (n: nat)
    ensures n == |CompletedRowIndices(rows)|
    ensures n <= |rows|
  {
    if rows == [] then 0
    else
      var init := rows[..|rows| - 1];
      var last := |rows| - 1;
      assert CompletedRowIndices(rows) ==
             CompletedRowIndices(init) + (if rows[last].completed == 1 then {last} else {});
      assert last !in CompletedRowIndices(init);
      TotalCompletions(init) + (if rows[last].completed == 1 then 1 else 0)
  }

  /** Positions of the rows with completed = 1. */
  function CompletedRowIndices(rows: seq<RecordRow>): set<nat> {
    set i: nat | i < |rows| && rows[i].completed == 1
  }

  /** calculate_streak for every habit id, on the records table t. */
  function StreaksOf(t: RecordTable, today: int): int -> Streak.StreakInfo {
    id => HabitStreak(t, id, today)
  }

  /** Sum of the current streaks of the given habits. */
  function TotalCurrentStreak(habits: seq<Habit>, streakOf: int -> Streak.StreakInfo): nat {
    if habits == [] then 0
    else TotalCurrentStreak(habits[..|habits| - 1], streakOf) + streakOf(habits[|habits| - 1].id).current
  }

  /** Assembles the overview from its counts, guarding both divisions by n. */
  function MakeOverview(n: nat, done: nat, streakSum: nat, completions: nat): (o: Overview)
    ensures o.totalHabits == n && o.completedToday == done && o.totalCompletions == completions
    ensures n == 0 ==> o.completionRateToday == 0.0 && o.averageStreak == 0.0
    ensures n > 0 ==>
      && o.completionRateToday * (n as real) == (done * 100) as real
      && o.averageStreak * (n as real) == streakSum as real
  {
    Overview(n, done, GuardedRatio(done * 100, n), GuardedRatio(streakSum, n), completions)
  }

  /** get_overview_stats on the given tables. */
  function OverviewOf(hs: seq<Habit>, t: RecordTable, today: int): Overview {
    var active := ActiveHabits(hs);
    MakeOverview(|active|, CompletedTodayCount(t.rows, today),
                 TotalCurrentStreak(active, StreaksOf(t, today)), TotalCompletions(t.rows))
  }

  /**
    completed_today can exceed total_habits: a habit completed today and then
    deleted still counts as completed, and the rate passes 100 percent.
  */
  lemma CompletedTodayIncludesDeletedHabits(today: int)
    ensures
      var h1 := Habit(1, "a", None, None, "medium", 7, None, "#6366f1", "x", true);
      var h2 := Habit(2, "b", None, None, "medium", 7, None, "#6366f1", "x", false);
      var t := RecordTable([RecordRow(1, 1, today, 1, None), RecordRow(2, 2, today, 1, None)], 3);
      var o := OverviewOf([h1, h2], t, today);
      o.totalHabits == 1 && o.completedToday == 2 && o.completionRateToday == 200.0
  {
    var h1 := Habit(1, "a", None, None, "medium", 7, None, "#6366f1", "x", true);
    var h2 := Habit(2, "b", None, None, "medium", 7, None, "#6366f1", "x", false);
    var rows := [RecordRow(1, 1, today, 1, None), RecordRow(2, 2, today, 1, None)];
    assert CompletedTodayIds(rows, today) == {1, 2} by {
      assert rows[0].habitId == 1 && rows[1].habitId == 2;
    }
    assert ActiveHabits([h1, h2]) == [h1] by {
      assert [h1, h2][1..] == [h2];
    }
  }

  // ===========================================================================
  // Comparison
  // ===========================================================================

  /** One entry of get_comparison_stats (completion_rate_30d is not kept). */
  datatype ComparisonRow = ComparisonRow(id: nat, name: string, currentStreak: nat, bestStreak: nat)

  function ComparisonRowOf(h: Habit, streakOf: int -> Streak.StreakInfo): ComparisonRow {
    var s := streakOf(h.id);
    ComparisonRow(h.id, h.name, s.current, s.best)
  }

  /** The rows built by the loop of get_comparison_stats, in query order. */
  function ComparisonRows(habits: seq<Habit>, streakOf: int -> Streak.StreakInfo): seq<ComparisonRow> {
    if habits == [] then []
    else ComparisonRows(habits[..|habits| - 1], streakOf) + [ComparisonRowOf(habits[|habits| - 1], streakOf)]
  }

  /** The i-th comparison row is the row of the i-th habit. */
  lemma {:induction false} ComparisonRowsAt(habits: seq<Habit>, streakOf: int -> Streak.StreakInfo)
    ensures |ComparisonRows(habits, streakOf)| == |habits|
    ensures forall i :: 0 <= i < |habits| ==> ComparisonRows(habits, streakOf)[i] == ComparisonRowOf(habits[i], streakOf)
  {
    if habits != [] {
      var init := habits[..|habits| - 1];
      ComparisonRowsAt(init, streakOf);
      assert forall i :: 0 <= i < |init| ==> init[i] == habits[i];
    }
  }

  predicate SortedByStreak(rows: seq<ComparisonRow>) {
    forall i, j :: 0 <= i < j < |rows| ==> rows[i].currentStreak >= rows[j].currentStreak
  }

  /** Every row has a current streak of at least v. */
  predicate AllAtLeast(rows: seq<ComparisonRow>, v: nat) {
    forall i :: 0 <= i < |rows| ==> rows[i].currentStreak >= v
  }

  /** Places x after every row whose current streak is at least x's. */
  function InsertByStreak(rows: seq<ComparisonRow>, x: ComparisonRow): (r: seq<ComparisonRow>)
    ensures |r| == |rows| + 1
  {
    if rows == [] then [x]
    else
      var last := rows[|rows| - 1];
      if last.currentStreak >= x.currentStreak then rows + [x]
      else InsertByStreak(rows[..|rows| - 1], x) + [last]
  }

  /** Insertion adds x and keeps every other row. */
  lemma {:induction false} InsertByStreakPermutes(rows: seq<ComparisonRow>, x: ComparisonRow)
    ensures multiset(InsertByStreak(rows, x)) == multiset(rows) + multiset{x}
  {
    if rows != [] {
      var last := rows[|rows| - 1];
      var init := rows[..|rows| - 1];
      assert rows == init + [last];
      if last.currentStreak < x.currentStreak {
        InsertByStreakPermutes(init, x);
      }
    }
  }

  lemma {:induction false} InsertByStreakAtLeast(rows: seq<ComparisonRow>, x: ComparisonRow, v: nat)
    requires AllAtLeast(rows, v) && x.currentStreak >= v
    ensures AllAtLeast(InsertByStreak(rows, x), v)
  {
    if rows != [] {
      var last := rows[|rows| - 1];
      var init := rows[..|rows| - 1];
      if last.currentStreak < x.currentStreak {
        InsertByStreakAtLeast(init, x, v);
      }
    }
  }

  /** Inserting into a list sorted by current streak keeps it sorted. */
  lemma {:induction false} InsertByStreakSorted(rows: seq<ComparisonRow>, x: ComparisonRow)
    requires SortedByStreak(rows)
    ensures SortedByStreak(InsertByStreak(rows, x))
  {
    if rows != [] {
      var last := rows[|rows| - 1];
      var init := rows[..|rows| - 1];
      if last.currentStreak < x.currentStreak {
        InsertByStreakSorted(init, x);
        InsertByStreakAtLeast(init, x, last.currentStreak);
        var r' := InsertByStreak(init, x);
        assert AllAtLeast(r', last.currentStreak);
      } else {
        assert AllAtLeast(rows, x.currentStreak);
      }
    }
  }

  /**
    comparison.sort(key=current_streak, reverse=True): a stable sort into
    non-increasing current streak.
  */
  function SortByCurrentStreak(rows: seq<ComparisonRow>): (r: seq<ComparisonRow>)
    ensures multiset(r) == multiset(rows)
    ensures SortedByStreak(r)
  {
    if rows == [] then []
    else
      var init := rows[..|rows| - 1];
      assert rows == init + [rows[|rows| - 1]];
      InsertByStreakSorted(SortByCurrentStreak(init), rows[|rows| - 1]);
      InsertByStreakPermutes(SortByCurrentStreak(init), rows[|rows| - 1]);
      InsertByStreak(SortByCurrentStreak(init), rows[|rows| - 1])
  }

  /** The rows whose current streak is k, in order. */
  function WithStreak(rows: seq<ComparisonRow>, k: nat): seq<ComparisonRow> {
    if rows == [] then []
    else WithStreak(rows[..|rows| - 1], k) + (if rows[|rows| - 1].currentStreak == k then [rows[|rows| - 1]] else [])
  }

  lemma WithStreakSnoc(rows: seq<ComparisonRow>, y: ComparisonRow, k: nat)
    ensures WithStreak(rows + [y], k) == WithStreak(rows, k) + (if y.currentStreak == k then [y] else [])
  {
  }

  lemma SortedByStreakInit(rows: seq<ComparisonRow>)
    requires rows != [] && SortedByStreak(rows)
    ensures SortedByStreak(rows[..|rows| - 1])
  {
  }

  lemma {:induction false} InsertByStreakStable(rows: seq<ComparisonRow>, x: ComparisonRow, k: nat)
    requires SortedByStreak(rows)
    ensures WithStreak(InsertByStreak(rows, x), k) ==
            WithStreak(rows, k) + (if x.currentStreak == k then [x] else [])
  {
    if rows == [] {
      WithStreakSnoc([], x, k);
      assert [] + [x] == [x];
    } else {
      var last := rows[|rows| - 1];
      var init := rows[..|rows| - 1];
      assert rows == init + [last];
      if last.currentStreak >= x.currentStreak {
        WithStreakSnoc(rows, x, k);
      } else {
        var r' := InsertByStreak(init, x);
        SortedByStreakInit(rows);
        InsertByStreakStable(init, x, k);
        WithStreakSnoc(r', last, k);
        WithStreakSnoc(init, last, k);
        if x.currentStreak == k {
          assert WithStreak(r' + [last], k) == WithStreak(init, k) + [x];
        } else if last.currentStreak == k {
          assert WithStreak(r' + [last], k) == WithStreak(init, k) + [last];
        } else {
          assert WithStreak(r' + [last], k) == WithStreak(init, k);
        }
      }
    }
  }

  /** Rows with equal current streak keep their original order. */
  lemma {:induction false} SortByCurrentStreakStable(rows: seq<ComparisonRow>, k: nat)
    ensures WithStreak(SortByCurrentStreak(rows), k) == WithStreak(rows, k)
  {
    if rows != [] {
      var init := rows[..|rows| - 1];
      SortByCurrentStreakStable(init, k);
      InsertByStreakStable(SortByCurrentStreak(init), rows[|rows| - 1], k);
    }
  }

  /** The sort keeps every row and adds none. */
  lemma SortByCurrentStreakElements(rows: seq<ComparisonRow>)
    ensures |SortByCurrentStreak(rows)| == |rows|
    ensures forall r :: r in SortByCurrentStreak(rows) <==> r in rows
  {
    var out := SortByCurrentStreak(rows);
    assert |multiset(out)| == |multiset(rows)|;
    forall r ensures r in out <==> r in rows {
      assert r in out <==> r in multiset(out);
      assert r in rows <==> r in multiset(rows);
    }
  }

  /** The comparison rows are the rows of the given habits and of no others. */
  lemma ComparisonRowsMembers(habits: seq<Habit>, streakOf: int -> Streak.StreakInfo)
    ensures forall h :: h in habits ==> ComparisonRowOf(h, streakOf) in ComparisonRows(habits, streakOf)
    ensures forall r :: r in ComparisonRows(habits, streakOf) ==>
      exists h :: h in habits && r == ComparisonRowOf(h, streakOf)
  {
    var rows := ComparisonRows(habits, streakOf);
    ComparisonRowsAt(habits, streakOf);
    forall h | h in habits ensures ComparisonRowOf(h, streakOf) in rows {
      var i :| 0 <= i < |habits| && habits[i] == h;
      assert rows[i] == ComparisonRowOf(h, streakOf);
    }
    forall r | r in rows ensures exists h :: h in habits && r == ComparisonRowOf(h, streakOf) {
      var i :| 0 <= i < |rows| && rows[i] == r;
      assert habits[i] in habits;
    }
  }

  /**
    The comparison list holds one row per active habit and nothing else,
    in non-increasing order of current streak.
  */
  lemma ComparisonCoversActive(hs: seq<Habit>, streakOf: int -> Streak.StreakInfo)
    ensures var out := SortByCurrentStreak(ComparisonRows(ActiveHabits(hs), streakOf));
      && |out| == |ActiveHabits(hs)|
      && SortedByStreak(out)
      && (forall h :: h in hs && h.active ==> ComparisonRowOf(h, streakOf) in out)
      && (forall r :: r in out ==> exists h :: h in hs && h.active && r == ComparisonRowOf(h, streakOf))
  {
    var active := ActiveHabits(hs);
    var rows := ComparisonRows(active, streakOf);
    ComparisonRowsAt(active, streakOf);
    ComparisonRowsMembers(active, streakOf);
    SortByCurrentStreakElements(rows);
  }

  // ===========================================================================
  // Weekday names
  // ===========================================================================

  /** Names of strftime('%w') values 0 (Sunday) to 6 (Saturday). */
  const Weekdays: seq<string> := ["Domingo", "Segunda", "Terça", "Quarta", "Quinta", "Sexta", "Sábado"]

  /** The lookup at the end of get_best_weekday; None when no completed record exists. */
  function BestWeekdayName(weekday: Option<int>): (r: Option<string>)
    requires weekday.Some? ==> 0 <= weekday.value < 7
    ensures r.Some? <==> weekday.Some?
    ensures r.Some? ==> WeekdayIndex(r.value) == weekday
  {
    match weekday
    case None => None
    case Some(w) => Some(Weekdays[w])
  }

  /** The position of a weekday name, the inverse of the lookup. */
  function WeekdayIndex(name: string): (r: Option<int>)
    ensures r.Some? ==> 0 <= r.value < 7 && Weekdays[r.value] == name
  {
    if name == "Domingo" then Some(0)
    else if name == "Segunda" then Some(1)
    else if name == "Terça" then Some(2)
    else if name == "Quarta" then Some(3)
    else if name == "Quinta" then Some(4)
    else if name == "Sexta" then Some(5)
    else if name == "Sábado" then Some(6)
    else None
  }
}
