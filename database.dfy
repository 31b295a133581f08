/**
  The SQLite database of app.py as one object whose three tables the route
  handlers update in place. Each handler is proved against the value-level
  transition of the same name in Tables or Stats.
*/
module Database {
  import opened Wrappers
  import Streak
  import opened Tables
  import Stats

  class Database {
    var categories: CategoryTable
    var habits: seq<Habit>
    var records: RecordTable

    /** The table constraints: UNIQUE names, INTEGER PRIMARY KEY ids, UNIQUE(habit_id, date). */
    ghost predicate Valid()
      reads this
    {
      ValidCategories(categories) && UniqueIds(habits) && ValidRecords(records)
    }

    /**
      A database with no categories and no records, holding the given habits
      (habits are created by a route this model leaves out).
    */
    constructor (initialHabits: seq<Habit>)
      requires UniqueIds(initialHabits)
      ensures Valid()
      ensures categories == CategoryTable([], 1)
      ensures habits == initialHabits
      ensures records == RecordTable([], 1)
    {
      categories := CategoryTable([], 1);
      habits := initialHabits;
      records := RecordTable([], 1);
    }

    /** The seeding loop of init_db: one INSERT OR IGNORE per seed, in order. */
    method InsertSeeds(seeds: seq<CategorySeed>)
      requires Valid()
      modifies this
      ensures Valid()
      ensures categories == SeedCategories(old(categories), seeds)
      ensures habits == old(habits) && records == old(records)
    {
      var i := 0;
      while i < |seeds|
        invariant 0 <= i <= |seeds|
        invariant SeedCategories(categories, seeds[i..]) == SeedCategories(old(categories), seeds)
        invariant ValidCategories(categories)
        invariant habits == old(habits) && records == old(records)
      {
        assert seeds[i..][1..] == seeds[i + 1..];
        categories := InsertOrIgnore(categories, seeds[i]);
        i := i + 1;
      }
    }

    /** init_db: seeds the six default categories. */
    method InitDb()
      requires Valid()
      modifies this
      ensures Valid()
      ensures categories == SeedCategories(old(categories), DefaultCategories)
      ensures habits == old(habits) && records == old(records)
    {
      InsertSeeds(DefaultCategories);
    }

    /** create_category: an INSERT that the UNIQUE name constraint may reject. */
    method CreateCategory(name: string, color: Option<string>, icon: Option<string>)
      returns (res: Result<nat, CategoryError>)
      requires Valid()
      modifies this
      ensures Valid()
      ensures (res, categories) == Tables.CreateCategory(old(categories), name, color, icon)
      ensures habits == old(habits) && records == old(records)
    {
      if HasName(categories.rows, name) {
        res := Err(CategoryExists);
      } else {
        res := Ok(categories.nextId);
        categories := AddCategory(categories, name, color.GetOr(DefaultCategoryColor), icon.GetOr(DefaultCategoryIcon));
      }
    }

    /** delete_habit: UPDATE habits SET active = 0 WHERE id = ?. */
    method DeleteHabit(id: int)
      requires Valid()
      modifies this
      ensures Valid()
      ensures habits == SoftDelete(old(habits), id)
      ensures categories == old(categories) && records == old(records)
    {
      habits := SoftDelete(habits, id);
    }

    /**
      create_record: the INSERT, and on the UNIQUE(habit_id, date) violation
      the UPDATE of completed and notes.
    */
    method CreateRecord(habitId: int, date: Option<int>, completed: Option<int>, notes: Option<string>, today: int)
      returns (outcome: UpsertOutcome)
      requires Valid()
      modifies this
      ensures Valid()
      ensures (outcome, records) == UpsertRecord(old(records), habitId, date, completed, notes, today)
      ensures categories == old(categories) && habits == old(habits)
    {
      var day := date.GetOr(today);
      var existing := FindRecord(records.rows, habitId, day);
      if existing.None? {
        outcome := Created(records.nextId);
        var row := RecordRow(records.nextId, habitId, day, completed.GetOr(1), notes);
        records := RecordTable(records.rows + [row], records.nextId + 1);
      } else {
        var i := existing.value;
        outcome := Updated;
        var row := records.rows[i].(completed := completed.GetOr(1), notes := notes);
        records := RecordTable(records.rows[i := row], records.nextId);
      }
    }

    /** calculate_streak(habit_id): the streak loops over the habit's completed dates. */
    method CalculateHabitStreak(habitId: int, today: int) returns (s: Streak.StreakInfo)
      ensures s == HabitStreak(records, habitId, today)
    {
      s := Streak.CalculateStreak(CompletedDates(records, habitId), today);
    }

    /** The current streak of one habit, as the overview loop adds it. */
    method CurrentStreakOf(habitId: int, today: int) returns (c: nat)
      ensures c == Stats.StreaksOf(records, today)(habitId).current
    {
      var s := CalculateHabitStreak(habitId, today);
      c := s.current;
    }

    /** The loop of get_overview_stats: the sum of the given habits' current streaks. */
    method SumCurrentStreaks(active: seq<Habit>, today: int) returns (total: nat)
      ensures total == Stats.TotalCurrentStreak(active, Stats.StreaksOf(records, today))
    {
      total := 0;
      var i := 0;
      while i < |active|
        invariant 0 <= i <= |active|
        invariant total == Stats.TotalCurrentStreak(active[..i], Stats.StreaksOf(records, today))
      {
        var c := CurrentStreakOf(active[i].id, today);
        assert active[..i + 1][..i] == active[..i];
        total := total + c;
        i := i + 1;
      }
      assert active[..i] == active;
    }

    /** get_overview_stats: the counts, the streak sum and the guarded divisions. */
    method GetOverviewStats(today: int) returns (o: Stats.Overview)
      ensures o == Stats.OverviewOf(habits, records, today)
    {
      var active := ActiveHabits(habits);
      var totalStreak := SumCurrentStreaks(active, today);
      o := Stats.MakeOverview(|active|, Stats.CompletedTodayCount(records.rows, today),
                              totalStreak, Stats.TotalCompletions(records.rows));
    }

    /** The entry get_comparison_stats appends for one habit. */
    method ComparisonRowFor(h: Habit, today: int) returns (row: Stats.ComparisonRow)
      ensures row == Stats.ComparisonRowOf(h, Stats.StreaksOf(records, today))
    {
      var s := CalculateHabitStreak(h.id, today);
      row := Stats.ComparisonRow(h.id, h.name, s.current, s.best);
    }

    /** The loop of get_comparison_stats: one row per given habit, in order. */
    method BuildComparisonRows(active: seq<Habit>, today: int) returns (rows: seq<Stats.ComparisonRow>)
      ensures rows == Stats.ComparisonRows(active, Stats.StreaksOf(records, today))
    {
      rows := [];
      var i := 0;
      while i < |active|
        invariant 0 <= i <= |active|
        invariant rows == Stats.ComparisonRows(active[..i], Stats.StreaksOf(records, today))
      {
        var row := ComparisonRowFor(active[i], today);
        assert active[..i + 1][..i] == active[..i];
        rows := rows + [row];
        i := i + 1;
      }
      assert active[..i] == active;
    }

    /** get_comparison_stats: the rows of the active habits, then the stable sort by current streak. */
    method GetComparisonStats(today: int) returns (rows: seq<Stats.ComparisonRow>)
      ensures rows == Stats.SortByCurrentStreak(Stats.ComparisonRows(ActiveHabits(habits), Stats.StreaksOf(records, today)))
    {
      rows := BuildComparisonRows(ActiveHabits(habits), today);
      rows := Stats.SortByCurrentStreak(rows);
    }
  }
}
