/**
  The three tables of the habit tracker's SQLite database, as values, and the
  updates and queries app.py performs on them.

  The categories and records tables keep their rows and the next AUTOINCREMENT
  row id. The habits table is a plain sequence of rows, since no operation here
  inserts a habit. Creation timestamps (DEFAULT CURRENT_TIMESTAMP) are not kept.
*/
module Tables {
  import opened Wrappers
  import Streak

  // ===========================================================================
  // categories
  // ===========================================================================

  const DefaultCategoryColor: string := "#6366f1"
  const DefaultCategoryIcon: string := "\U{1F4CC}"

  datatype Category = Category(id: nat, name: string, color: string, icon: string)

  /** Rows in insertion order, and the id the next inserted row receives. */
  datatype CategoryTable = CategoryTable(rows: seq<Category>, nextId: nat)

  /** The IntegrityError that create_category reports as "Categoria já existe". */
  datatype CategoryError = CategoryExists

  /** A (name, color, icon) triple of the seeding list. */
  type CategorySeed = (string, string, string)

  /** The six categories init_db seeds. */
  const DefaultCategories: seq<CategorySeed> := [
    ("Saúde", "#ef4444", "\U{1F4AA}"),
    ("Estudo", "#3b82f6", "\U{1F4DA}"),
    ("Trabalho", "#8b5cf6", "\U{1F4BC}"),
    ("Bem-estar", "#10b981", "\U{1F9D8}"),
    ("Social", "#f59e0b", "\U{1F465}"),
    ("Criatividade", "#ec4899", "\U{1F3A8}")
  ]

  predicate HasName(rows: seq<Category>, name: string) {
    exists i :: 0 <= i < |rows| && rows[i].name == name
  }

  /** The table's invariant: UNIQUE names, and ids increasing and below the counter. */
  ghost predicate ValidCategories(t: CategoryTable) {
    && (forall i, j :: 0 <= i < j < |t.rows| ==> t.rows[i].name != t.rows[j].name)
    && (forall i, j :: 0 <= i < j < |t.rows| ==> t.rows[i].id < t.rows[j].id)
    && (forall i :: 0 <= i < |t.rows| ==> t.rows[i].id < t.nextId)
  }

  /** A plain INSERT of one row. */
  function AddCategory(t: CategoryTable, name: string, color: string, icon: string): (t': CategoryTable)
    ensures t'.rows == t.rows + [Category(t.nextId, name, color, icon)]
    ensures t'.nextId == t.nextId + 1
    ensures ValidCategories(t) && !HasName(t.rows, name) ==> ValidCategories(t')
  {
    CategoryTable(t.rows + [Category(t.nextId, name, color, icon)], t.nextId + 1)
  }

  /**
    create_category: insert a category, with the default color and icon where
    the request has none; a name already present fails and changes nothing.
  */
  function CreateCategory(t: CategoryTable, name: string, color: Option<string>, icon: Option<string>)
    : (res: (Result<nat, CategoryError>, CategoryTable))
    ensures res.0.Err? <==> HasName(t.rows, name)
    ensures res.0.Err? ==> res.1 == t
    ensures res.0.Ok? ==> res.0.value == t.nextId && res.1.nextId > res.0.value
    ensures res.0.Ok? ==> (res.1.rows ==
      t.rows + [Category(res.0.value, name, color.GetOr(DefaultCategoryColor), icon.GetOr(DefaultCategoryIcon))])
    ensures ValidCategories(t) ==> ValidCategories(res.1)
  {
    if HasName(t.rows, name) then (Err(CategoryExists), t)
    else (Ok(t.nextId), AddCategory(t, name, color.GetOr(DefaultCategoryColor), icon.GetOr(DefaultCategoryIcon)))
  }

  /**
    INSERT OR IGNORE: a row whose name is taken is dropped silently. SQLite
    draws the AUTOINCREMENT id before the UNIQUE check and records it in
    sqlite_sequence at the end of the statement, so an ignored row still uses
    up an id.
  */
  function InsertOrIgnore(t: CategoryTable, seed: CategorySeed): (t': CategoryTable)
    ensures HasName(t'.rows, seed.0)
    ensures t'.nextId == t.nextId + 1
    ensures HasName(t.rows, seed.0) ==> t'.rows == t.rows
    ensures !HasName(t.rows, seed.0) ==> t' == AddCategory(t, seed.0, seed.1, seed.2)
    ensures ValidCategories(t) ==> ValidCategories(t')
  {
    if HasName(t.rows, seed.0) then t.(nextId := t.nextId + 1)
    else
      var t' := AddCategory(t, seed.0, seed.1, seed.2);
      assert t'.rows[|t.rows|].name == seed.0;
      t'
  }

  /** The seeding loop of init_db, one INSERT OR IGNORE per seed, in order. */
  function SeedCategories(t: CategoryTable, seeds: seq<CategorySeed>): CategoryTable
    decreases |seeds|
  {
    if seeds == [] then t else SeedCategories(InsertOrIgnore(t, seeds[0]), seeds[1..])
  }

  // ===========================================================================
  // habits
  // ===========================================================================

  datatype Habit = Habit(
    id: nat,
    name: string,
    description: Option<string>,
    categoryId: Option<int>,
    difficulty: string,
    goalFrequency: int,
    reminderTime: Option<string>,
    color: string,
    icon: string,
    active: bool)

  /** Habit ids are distinct (the INTEGER PRIMARY KEY). */
  ghost predicate UniqueIds(hs: seq<Habit>) {
    forall i, j :: 0 <= i < j < |hs| ==> hs[i].id != hs[j].id
  }

  /**
    delete_habit: UPDATE habits SET active = 0 WHERE id = ?; rows are never
    removed, and a missing id changes nothing.
  */
  function SoftDelete(hs: seq<Habit>, id: int): (r: seq<Habit>)
    ensures |r| == |hs|
    ensures forall i :: 0 <= i < |hs| ==> r[i].(active := hs[i].active) == hs[i]
    ensures forall i :: 0 <= i < |hs| ==> r[i].active == (hs[i].active && hs[i].id != id)
  {
    if hs == [] then []
    else [if hs[0].id == id then hs[0].(active := false) else hs[0]] + SoftDelete(hs[1..], id)
  }

  /** The rows WHERE active = 1, in table order. */
  function ActiveHabits(hs: seq<Habit>): (r: seq<Habit>)
    ensures |r| <= |hs|
    ensures forall h :: h in r <==> h in hs && h.active
  {
    if hs == [] then []
    else (if hs[0].active then [hs[0]] else []) + ActiveHabits(hs[1..])
  }

  /** Each active row appears in the listing as often as in the table, each inactive row never. */
  lemma {:induction false} ActiveHabitsCounts(hs: seq<Habit>)
    ensures forall h :: multiset(ActiveHabits(hs))[h] == if h.active then multiset(hs)[h] else 0
  {
    if hs != [] {
      ActiveHabitsCounts(hs[1..]);
      assert hs == [hs[0]] + hs[1..];
    }
  }

  function ActiveIds(hs: seq<Habit>): set<int> {
    set i | 0 <= i < |hs| && hs[i].active :: hs[i].id
  }

  // ===========================================================================
  // records
  // ===========================================================================

  /** A records row; (habitId, date) is its key under UNIQUE(habit_id, date). */
  datatype RecordRow = RecordRow(id: nat, habitId: int, date: int, completed: int, notes: Option<string>)

  /** Rows in insertion order, and the id the next inserted row receives. */
  datatype RecordTable = RecordTable(rows: seq<RecordRow>, nextId: nat)

  /** create_record answers 201 with the new row id, or reports an update. */
  datatype UpsertOutcome = Created(id: nat) | Updated

  predicate HasKey(row: RecordRow, habitId: int, date: int) {
    row.habitId == habitId && row.date == date
  }

  /** UNIQUE(habit_id, date): no two rows share a key. */
  ghost predicate UniqueKeys(rows: seq<RecordRow>) {
    forall i, j :: 0 <= i < j < |rows| ==> !HasKey(rows[j], rows[i].habitId, rows[i].date)
  }

  /** The table's invariant: one row per key; ids increasing and below the counter. */
  ghost predicate ValidRecords(t: RecordTable) {
    && UniqueKeys(t.rows)
    && (forall i, j :: 0 <= i < j < |t.rows| ==> t.rows[i].id < t.rows[j].id)
    && (forall i :: 0 <= i < |t.rows| ==> t.rows[i].id < t.nextId)
  }

  /** Index of the row with key (habitId, date), if there is one. */
  function FindRecord(rows: seq<RecordRow>, habitId: int, date: int): (r: Option<nat>)
    ensures r.Some? ==> r.value < |rows| && HasKey(rows[r.value], habitId, date)
    ensures r.None? ==> forall i :: 0 <= i < |rows| ==> !HasKey(rows[i], habitId, date)
  {
    if rows == [] then None
    else if HasKey(rows[|rows| - 1], habitId, date) then Some(|rows| - 1)
    else FindRecord(rows[..|rows| - 1], habitId, date)
  }

  /** The row stored under (habitId, date): the table read as a map. */
  function Lookup(t: RecordTable, habitId: int, date: int): (r: Option<RecordRow>)
    ensures r.Some? ==> r.value in t.rows && HasKey(r.value, habitId, date)
    ensures r.None? <==> forall i :: 0 <= i < |t.rows| ==> !HasKey(t.rows[i], habitId, date)
  {
    match FindRecord(t.rows, habitId, date)
    case Some(i) => Some(t.rows[i])
    case None => None
  }

  /**
    create_record: the date defaults to today and `completed` to 1. An INSERT
    that hits the (habit_id, date) constraint becomes an UPDATE of completed
    and notes on the existing row.
  */
  function UpsertRecord(t: RecordTable, habitId: int, date: Option<int>, completed: Option<int>,
                        notes: Option<string>, today: int): (res: (UpsertOutcome, RecordTable))
    ensures res.0.Created? <==> Lookup(t, habitId, date.GetOr(today)).None?
    ensures res.0.Created? ==> res.0.id == t.nextId && res.1.nextId > t.nextId
    ensures res.0.Updated? ==> res.1.nextId == t.nextId
    ensures ValidRecords(t) ==> ValidRecords(res.1)
  {
    var day := date.GetOr(today);
    match FindRecord(t.rows, habitId, day)
    case None =>
      var row := RecordRow(t.nextId, habitId, day, completed.GetOr(1), notes);
      (Created(t.nextId), RecordTable(t.rows + [row], t.nextId + 1))
    case Some(i) =>
      var row := t.rows[i].(completed := completed.GetOr(1), notes := notes);
      (Updated, RecordTable(t.rows[i := row], t.nextId))
  }

  // ---------------------------------------------------------------------------
  // SELECT date FROM records WHERE habit_id = ? AND completed = 1 ORDER BY date DESC
  // ---------------------------------------------------------------------------

  /** A habit has a row dated `date` with completed = 1. */
  ghost predicate CompletedOn(rows: seq<RecordRow>, habitId: int, date: int) {
    exists i :: 0 <= i < |rows| && HasKey(rows[i], habitId, date) && rows[i].completed == 1
  }

  /** The dates of a habit's completed rows, in table order. */
  function SelectCompleted(rows: seq<RecordRow>, habitId: int): (r: seq<int>)
    ensures forall d :: d in r <==> CompletedOn(rows, habitId, d)
  {
    if rows == [] then []
    else
      var last := rows[|rows| - 1];
      var init := rows[..|rows| - 1];
      var r := SelectCompleted(init, habitId) + (if last.habitId == habitId && last.completed == 1 then [last.date] else []);
      assert forall d :: CompletedOn(init, habitId, d) ==> CompletedOn(rows, habitId, d) by {
        forall d | CompletedOn(init, habitId, d) ensures CompletedOn(rows, habitId, d) {
          var i :| 0 <= i < |init| && HasKey(init[i], habitId, d) && init[i].completed == 1;
          assert rows[i] == init[i];
        }
      }
      assert forall d :: CompletedOn(rows, habitId, d) ==> d in r by {
        forall d | CompletedOn(rows, habitId, d) ensures d in r {
          var i :| 0 <= i < |rows| && HasKey(rows[i], habitId, d) && rows[i].completed == 1;
          if i < |init| {
            assert init[i] == rows[i];
            assert CompletedOn(init, habitId, d);
          }
        }
      }
      r
  }

  /** No date occurs twice. */
  predicate Distinct(s: seq<int>) {
    forall i, j :: 0 <= i < j < |s| ==> s[i] != s[j]
  }

  /** Inserts x into a strictly decreasing sequence. */
  function InsertDescending(x: int, s: seq<int>): (r: seq<int>)
    ensures forall y :: y in r <==> y == x || y in s
    ensures |r| == |s| + 1
    ensures Streak.StrictlyDecreasing(s) && x !in s ==> Streak.StrictlyDecreasing(r)
  {
    if s == [] || x > s[0] then [x] + s
    else
      var rest := InsertDescending(x, s[1..]);
      assert forall y :: y in s <==> y == s[0] || y in s[1..];
      assert Streak.StrictlyDecreasing(s) && x !in s ==> forall j :: 0 <= j < |rest| ==> rest[j] < s[0] by {
        if Streak.StrictlyDecreasing(s) && x !in s {
          forall j | 0 <= j < |rest| ensures rest[j] < s[0] {
            assert rest[j] in rest;
          }
        }
      }
      [s[0]] + rest
  }

  /** ORDER BY date DESC. */
  function SortDescending(s: seq<int>): (r: seq<int>)
    ensures forall y :: y in r <==> y in s
    ensures |r| == |s|
    ensures Distinct(s) ==> Streak.StrictlyDecreasing(r)
  {
    if s == [] then []
    else
      assert forall y :: y in s <==> y == s[0] || y in s[1..];
      InsertDescending(s[0], SortDescending(s[1..]))
  }

  /** What calculate_streak fetches for a habit. */
  function CompletedDates(t: RecordTable, habitId: int): (r: seq<int>)
    ensures forall d :: d in r <==> CompletedOn(t.rows, habitId, d)
    ensures ValidRecords(t) ==> Streak.StrictlyDecreasing(r)
  {
    SelectCompletedDistinct(t.rows, habitId);
    SortDescending(SelectCompleted(t.rows, habitId))
  }

  /** calculate_streak(habit_id) on the current records table. */
  function HabitStreak(t: RecordTable, habitId: int, today: int): Streak.StreakInfo {
    Streak.Streak(CompletedDates(t, habitId), today)
  }

  lemma {:induction false} SelectCompletedDistinct(rows: seq<RecordRow>, habitId: int)
    ensures UniqueKeys(rows) ==> Distinct(SelectCompleted(rows, habitId))
  {
    if UniqueKeys(rows) && rows != [] {
      var init := rows[..|rows| - 1];
      var last := rows[|rows| - 1];
      assert UniqueKeys(init) by {
        forall i, j | 0 <= i < j < |init| ensures !HasKey(init[j], init[i].habitId, init[i].date) {
          assert init[i] == rows[i] && init[j] == rows[j];
        }
      }
      SelectCompletedDistinct(init, habitId);
      if last.habitId == habitId && last.completed == 1 {
        assert !CompletedOn(init, habitId, last.date) by {
          forall i | 0 <= i < |init| ensures !HasKey(init[i], habitId, last.date) {
            assert init[i] == rows[i];
          }
        }
      }
    }
  }

  // ===========================================================================
  // Lemmas: categories
  // ===========================================================================

  /** A second create_category with the same name fails and changes nothing. */
  lemma CreateCategoryTwice(t: CategoryTable, name: string, color: Option<string>, icon: Option<string>,
                            color': Option<string>, icon': Option<string>)
    requires CreateCategory(t, name, color, icon).0.Ok?
    ensures var t1 := CreateCategory(t, name, color, icon).1;
      CreateCategory(t1, name, color', icon') == (Err(CategoryExists), t1)
  {
    var t1 := CreateCategory(t, name, color, icon).1;
    assert t1.rows[|t.rows|].name == name;
  }

  /** After a successful create_category exactly one row carries the name. */
  lemma CreateCategoryNameOnce(t: CategoryTable, name: string, color: Option<string>, icon: Option<string>)
    requires ValidCategories(t)
    ensures var (res, t1) := CreateCategory(t, name, color, icon);
      res.Ok? ==> forall i :: 0 <= i < |t1.rows| && t1.rows[i].name == name <==> i == |t.rows|
  {
  }

  lemma {:induction false} SeedCategoriesKeepsRows(t: CategoryTable, seeds: seq<CategorySeed>)
    ensures var t' := SeedCategories(t, seeds);
      |t.rows| <= |t'.rows| && t'.rows[..|t.rows|] == t.rows && t'.nextId == t.nextId + |seeds|
    ensures ValidCategories(t) ==> ValidCategories(SeedCategories(t, seeds))
    decreases |seeds|
  {
    if seeds != [] {
      var t1 := InsertOrIgnore(t, seeds[0]);
      SeedCategoriesKeepsRows(t1, seeds[1..]);
      assert t1.rows[..|t.rows|] == t.rows;
    }
  }

  /** After the seeding loop every seeded name is present. */
  lemma {:induction false} SeedCategoriesAddsAll(t: CategoryTable, seeds: seq<CategorySeed>)
    ensures forall k :: 0 <= k < |seeds| ==> HasName(SeedCategories(t, seeds).rows, seeds[k].0)
    decreases |seeds|
  {
    if seeds != [] {
      var t1 := InsertOrIgnore(t, seeds[0]);
      var t' := SeedCategories(t, seeds);
      SeedCategoriesAddsAll(t1, seeds[1..]);
      SeedCategoriesKeepsRows(t1, seeds[1..]);
      var i :| 0 <= i < |t1.rows| && t1.rows[i].name == seeds[0].0;
      assert t'.rows[i] == t1.rows[i];
      forall k | 0 <= k < |seeds| ensures HasName(t'.rows, seeds[k].0) {
        if k > 0 {
          assert seeds[k] == seeds[1..][k - 1];
        }
      }
    }
  }

  /** Seeding names that are all present already adds no row; each seed still uses up an id. */
  lemma {:induction false} SeedCategoriesPresent(t: CategoryTable, seeds: seq<CategorySeed>)
    requires forall k :: 0 <= k < |seeds| ==> HasName(t.rows, seeds[k].0)
    ensures SeedCategories(t, seeds) == t.(nextId := t.nextId + |seeds|)
    decreases |seeds|
  {
    if seeds != [] {
      assert HasName(t.rows, seeds[0].0);
      forall k | 0 <= k < |seeds| - 1 ensures HasName(t.rows, seeds[1..][k].0) {
        assert seeds[1..][k] == seeds[k + 1];
      }
      var t1 := InsertOrIgnore(t, seeds[0]);
      assert t1 == t.(nextId := t.nextId + 1);
      SeedCategoriesPresent(t1, seeds[1..]);
    }
  }

  /**
    Running the seeding loop of init_db twice leaves the rows of running it
    once; only the id counter moves on, by one per seed.
  */
  lemma SeedCategoriesIdempotent(t: CategoryTable)
    ensures var once := SeedCategories(t, DefaultCategories);
      SeedCategories(once, DefaultCategories) == once.(nextId := once.nextId + |DefaultCategories|)
  {
    SeedCategoriesAddsAll(t, DefaultCategories);
    SeedCategoriesPresent(SeedCategories(t, DefaultCategories), DefaultCategories);
  }

  // ===========================================================================
  // Lemmas: habits
  // ===========================================================================

  /** A soft-deleted habit leaves the active listing; every other active habit stays. */
  lemma SoftDeleteHidesOnlyThatHabit(hs: seq<Habit>, id: int)
    ensures forall h :: h in ActiveHabits(SoftDelete(hs, id)) ==> h.id != id
    ensures forall h :: h in ActiveHabits(hs) && h.id != id ==> h in ActiveHabits(SoftDelete(hs, id))
    ensures ActiveIds(SoftDelete(hs, id)) == ActiveIds(hs) - {id}
  {
  }

  /** Deleting twice is deleting once. */
  lemma SoftDeleteIdempotent(hs: seq<Habit>, id: int)
    ensures SoftDelete(SoftDelete(hs, id), id) == SoftDelete(hs, id)
  {
  }

  lemma ActiveIdsCons(hs: seq<Habit>)
    requires hs != []
    ensures ActiveIds(hs) == (if hs[0].active then {hs[0].id} else {}) + ActiveIds(hs[1..])
  {
  }

  lemma UniqueIdsTail(hs: seq<Habit>)
    requires hs != [] && UniqueIds(hs)
    ensures UniqueIds(hs[1..])
    ensures forall i :: 0 <= i < |hs| - 1 ==> hs[1..][i].id != hs[0].id
  {
  }

  /** The overview's count of active habits drops by one exactly when an active habit is deleted. */
  lemma {:induction false} SoftDeleteActiveCount(hs: seq<Habit>, id: int)
    requires UniqueIds(hs)
    ensures |ActiveHabits(SoftDelete(hs, id))| ==
            |ActiveHabits(hs)| - (if id in ActiveIds(hs) then 1 else 0)
  {
    if hs != [] {
      var tail := hs[1..];
      var x := if hs[0].id == id then hs[0].(active := false) else hs[0];
      UniqueIdsTail(hs);
      SoftDeleteActiveCount(tail, id);
      ActiveIdsCons(hs);
      assert SoftDelete(hs, id) == [x] + SoftDelete(tail, id);
      assert ([x] + SoftDelete(tail, id))[1..] == SoftDelete(tail, id);
      assert |ActiveHabits(SoftDelete(hs, id))| == (if x.active then 1 else 0) + |ActiveHabits(SoftDelete(tail, id))|;
      assert |ActiveHabits(hs)| == (if hs[0].active then 1 else 0) + |ActiveHabits(tail)|;
      if hs[0].id == id {
        assert id !in ActiveIds(tail);
      }
    }
  }

  // ===========================================================================
  // Lemmas: records
  // ===========================================================================

  lemma FindRecordAppend(rows: seq<RecordRow>, row: RecordRow, habitId: int, date: int)
    ensures FindRecord(rows + [row], habitId, date) ==
      if HasKey(row, habitId, date) then Some(|rows|) else FindRecord(rows, habitId, date)
  {
  }

  lemma {:induction false} FindRecordUpdate(rows: seq<RecordRow>, i: nat, row: RecordRow, habitId: int, date: int)
    requires i < |rows| && row.habitId == rows[i].habitId && row.date == rows[i].date
    ensures FindRecord(rows[i := row], habitId, date) == FindRecord(rows, habitId, date)
  {
    var n := |rows|;
    if i < n - 1 {
      assert rows[i := row][..n - 1] == rows[..n - 1][i := row];
      FindRecordUpdate(rows[..n - 1], i, row, habitId, date);
    } else {
      assert rows[i := row][..n - 1] == rows[..n - 1];
    }
  }

  /**
    create_record read through Lookup: the key (habit_id, date) now holds the
    supplied completed flag and notes, whichever branch ran; an update keeps the
    row's id; every other key holds what it held before.
  */
  lemma UpsertRecordLookup(t: RecordTable, habitId: int, date: Option<int>, completed: Option<int>,
                           notes: Option<string>, today: int)
    ensures var (res, t') := UpsertRecord(t, habitId, date, completed, notes, today);
      var day := date.GetOr(today);
      && Lookup(t', habitId, day).Some?
      && Lookup(t', habitId, day).value.completed == completed.GetOr(1)
      && Lookup(t', habitId, day).value.notes == notes
      && (res.Created? ==> Lookup(t', habitId, day).value.id == res.id)
      && (res.Updated? ==> Lookup(t', habitId, day).value.id == Lookup(t, habitId, day).value.id)
      && (forall h, d :: (h, d) != (habitId, day) ==> Lookup(t', h, d) == Lookup(t, h, d))
  {
    var day := date.GetOr(today);
    var t' := UpsertRecord(t, habitId, date, completed, notes, today).1;
    match FindRecord(t.rows, habitId, day)
    case None =>
      var row := RecordRow(t.nextId, habitId, day, completed.GetOr(1), notes);
      forall h, d ensures FindRecord(t'.rows, h, d) ==
          if HasKey(row, h, d) then Some(|t.rows|) else FindRecord(t.rows, h, d) {
        FindRecordAppend(t.rows, row, h, d);
      }
    case Some(i) =>
      var row := t.rows[i].(completed := completed.GetOr(1), notes := notes);
      forall h, d ensures FindRecord(t'.rows, h, d) == FindRecord(t.rows, h, d) {
        FindRecordUpdate(t.rows, i, row, h, d);
      }
  }

  /** Repeating the same create_record request leaves the table as the first one did. */
  lemma UpsertRecordIdempotent(t: RecordTable, habitId: int, date: Option<int>, completed: Option<int>,
                               notes: Option<string>, today: int)
    ensures var t1 := UpsertRecord(t, habitId, date, completed, notes, today).1;
      UpsertRecord(t1, habitId, date, completed, notes, today) == (Updated, t1)
  {
    var t1 := UpsertRecord(t, habitId, date, completed, notes, today).1;
    UpsertRecordLookup(t, habitId, date, completed, notes, today);
    var i := FindRecord(t1.rows, habitId, date.GetOr(today)).value;
    assert t1.rows[i := t1.rows[i].(completed := completed.GetOr(1), notes := notes)] == t1.rows;
  }

  /** Under the key constraint the query's WHERE clause agrees with Lookup. */
  lemma CompletedOnLookup(t: RecordTable, habitId: int, date: int)
    requires UniqueKeys(t.rows)
    ensures CompletedOn(t.rows, habitId, date) <==>
      Lookup(t, habitId, date).Some? && Lookup(t, habitId, date).value.completed == 1
  {
  }

  /**
    After create_record a habit counts as completed on the day exactly when the
    stored flag is 1; completion of every other (habit, day) is unchanged.
  */
  lemma UpsertRecordCompletion(t: RecordTable, habitId: int, date: Option<int>, completed: Option<int>,
                               notes: Option<string>, today: int)
    requires ValidRecords(t)
    ensures var t' := UpsertRecord(t, habitId, date, completed, notes, today).1;
      && (CompletedOn(t'.rows, habitId, date.GetOr(today)) <==> completed.GetOr(1) == 1)
      && (forall h, d :: (h, d) != (habitId, date.GetOr(today)) ==>
            (CompletedOn(t'.rows, h, d) <==> CompletedOn(t.rows, h, d)))
  {
    var t' := UpsertRecord(t, habitId, date, completed, notes, today).1;
    UpsertRecordLookup(t, habitId, date, completed, notes, today);
    CompletedOnLookup(t', habitId, date.GetOr(today));
    forall h, d | (h, d) != (habitId, date.GetOr(today))
      ensures CompletedOn(t'.rows, h, d) <==> CompletedOn(t.rows, h, d)
    {
      CompletedOnLookup(t, h, d);
      CompletedOnLookup(t', h, d);
    }
  }

  // ===========================================================================
  // Lemmas: a habit's streak in terms of its completed days
  // ===========================================================================

  /** Every day of (d-k, d] has a completed record of the habit. */
  ghost predicate CompletedBlock(t: RecordTable, habitId: int, d: int, k: int) {
    forall x :: d - k < x <= d ==> CompletedOn(t.rows, habitId, x)
  }

  lemma BlockInCompleted(t: RecordTable, habitId: int, d: int, k: int)
    ensures Streak.BlockIn(CompletedDates(t, habitId), d, k) <==> CompletedBlock(t, habitId, d, k)
  {
  }

  /**
    calculate_streak on the records table: `best` is the length of the longest
    block of consecutive completed days; when no completed record lies after
    today, `current` is the length of the block of completed days ending today.
  */
  lemma HabitStreakMeaning(t: RecordTable, habitId: int, today: int)
    requires ValidRecords(t)
    ensures forall d, k :: CompletedBlock(t, habitId, d, k) ==> k <= HabitStreak(t, habitId, today).best
    ensures (exists d :: CompletedOn(t.rows, habitId, d)) ==>
      exists d :: CompletedBlock(t, habitId, d, HabitStreak(t, habitId, today).best)
    ensures (forall d :: CompletedOn(t.rows, habitId, d) ==> d <= today) ==>
      && CompletedBlock(t, habitId, today, HabitStreak(t, habitId, today).current)
      && !CompletedOn(t.rows, habitId, today - HabitStreak(t, habitId, today).current)
  {
    var days := CompletedDates(t, habitId);
    var r := HabitStreak(t, habitId, today);
    Streak.BestStreakIsLongestBlock(days, today);
    forall d, k | CompletedBlock(t, habitId, d, k) ensures k <= r.best {
      BlockInCompleted(t, habitId, d, k);
    }
    if exists d :: CompletedOn(t.rows, habitId, d) {
      var d0 :| CompletedOn(t.rows, habitId, d0);
      assert d0 in days;
      var d :| Streak.BlockIn(days, d, r.best);
      BlockInCompleted(t, habitId, d, r.best);
    }
    if forall d :: CompletedOn(t.rows, habitId, d) ==> d <= today {
      forall j | 0 <= j < |days| ensures days[j] <= today {
        assert days[j] in days;
      }
      Streak.CurrentStreakCountsDaysEndingToday(days, today);
      BlockInCompleted(t, habitId, today, r.current);
    }
  }
}
