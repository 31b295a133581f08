# Habit tracker backend — a Dafny model

`app.py` is the Flask/SQLite backend of a habit tracker. It creates four
tables: categories, habits, the daily completion records of each habit, and
achievements. No route reads or writes achievements, so the model keeps the
first three.
It also computes statistics: streaks, an overview and a per-habit comparison.
This project models the logic under the routing and SQL plumbing, and proves
what it promises.

- **Streaks** (`streak.dfy`, module `Streak`). `calculate_streak` takes a habit's
  completed dates, newest first, and returns two numbers:
  - the *current* streak: how many consecutive days end exactly at today;
  - the *best* streak: the longest run of consecutive days.

  It is written twice. `CalculateStreak` is a method that keeps the source's
  counters and its two loops. `Streak` is a pure specification function, and
  the method is proved equal to it. Further lemmas pin down what the two numbers
  mean in terms of the set of completed days.
- **Tables** (`tables.dfy`, module `Tables`). Each table is a value. The
  categories and records tables hold their rows in insertion order plus the next
  AUTOINCREMENT id. The habits table is a plain sequence of rows, because no
  modelled operation inserts a habit. The module models:
  - category creation, which the UNIQUE name constraint can reject;
  - the `INSERT OR IGNORE` seeding loop of `init_db`;
  - the soft delete of a habit and the `active = 1` filter;
  - the record upsert of `create_record` on the `UNIQUE(habit_id, date)` key;
  - the completed-dates query that feeds the streak computation.
- **Statistics** (`stats.dfy`, module `Stats`):
  - the overview's counts and its two zero-guarded divisions;
  - the comparison rows and Python's stable `list.sort` by current streak,
    descending;
  - the weekday index-to-name lookup.
- **Database** (`database.dfy`, class `Database.Database`). The database is an
  object whose three table fields the route handlers reassign. Each handler is
  a method proved to produce the state (and result) of the matching `Tables`
  or `Stats` function. The loops of `init_db`, `get_overview_stats` and
  `get_comparison_stats` carry their invariants.

Modelling conventions:
- Dates are integer day numbers, one number per calendar day. In the source
  they are text the client supplies. The model assumes every stored date is
  canonical ISO `YYYY-MM-DD` text, so that one day has one key; see
  "## Left out". `today`, which the source reads from the clock, is a parameter.
- `date - 1 day` is `d - 1`.
- The statistics take each habit's streak through a function from habit id to
  streak. `Stats.StreaksOf(t, today)` is that function for the records table
  `t`: it runs calculate_streak on the table.
- The records table is a sequence of rows, not a map. The key uniqueness that
  `UNIQUE(habit_id, date)` enforces is the invariant `ValidRecords`, which
  every update is proved to keep.
- A behaviour that follows from the code as written is stated by
  `Streak.FutureRecordHidesCurrentStreak`. The API accepts any `date`. If a
  habit has a completed record dated after today, its current streak is 0,
  even when today is completed as well: the first loop meets the future date
  first and stops.
- `Stats.CompletedTodayIncludesDeletedHabits` states another such behaviour.
  `completed_today` counts records of deleted habits, because that query has no
  `active` filter. So it can exceed `total_habits`, and the completion rate can
  exceed 100.

## Model

| member | source | states |
|---|---|---|
| Streak.CurrentStreak | app.py:145-152 | the current streak k is at most the number of records; the first k records are today, today-1, …, today-(k-1); the record at position k, if any, is not today-k |
| Streak.RunEndingAt | app.py:155-165 | the value temp_streak holds after record i: between 1 and i+1; meaning proved in RunEndingAtIsRun and RunEndingAtIsLongest |
| Streak.RunEndingAtIsRun | app.py:155-165 | the value temp_streak holds after record i is a run of consecutive days ending at i, and the run cannot be extended backwards |
| Streak.MaxRun | app.py:155-165 | best_streak after n records is at most n and at least 1 once a record has been seen |
| Streak.LongestRun | app.py:155-165 | no contract of its own: best_streak after all records, MaxRun over the whole list; meaning proved in BestStreakIsLongestRun |
| Streak.Streak | app.py:141-167 | no records gives (0, 0); current ≤ best ≤ number of records; best ≥ 1 for a non-empty list; current > 0 exactly when the newest record is today; the first `current` records are today, today-1, … |
| Streak.CalculateStreak | app.py:121-167 | the two loops (current streak with `break`; best streak with prev_date, temp_streak, best_streak) return exactly Streak(days, today) |
| Streak.RunEndingAtIsLongest | app.py:155-165 | every run of consecutive days ending at record e is no longer than temp_streak at e |
| Streak.MaxRunIsLongest | app.py:155-165 | every run within the first n records is no longer than best_streak after n records |
| Streak.MaxRunAttained | app.py:155-165 | best_streak after n > 0 records is the length of an actual run within them |
| Streak.BestStreakIsLongestRun | app.py:155-167 | the best streak is the longest run of the record list: no run is longer and one run has exactly that length |
| Streak.RunValues | app.py:155-165 | within a run the j-th record after its start is start-j days |
| Streak.BlockFollowsIndex | app.py:131-135 | in a strictly decreasing date list that holds every day of (d-k, d], those days sit at consecutive positions starting at d's |
| Streak.CurrentStreakCountsDaysEndingToday | app.py:145-152 | with no future records, the current streak c is the longest block of completed days ending today: all of (today-c, today] are present, today-c is not |
| Streak.FutureRecordHidesCurrentStreak | app.py:145-152 | a completed record dated tomorrow makes the current streak 0 even though today is completed |
| Streak.BlockIsRun | app.py:155-165 | a block of consecutive completed days is a run of the decreasing date list |
| Streak.RunIsBlock | app.py:155-165 | a run of the date list covers every day of a block of consecutive days |
| Streak.BestStreakIsLongestBlock | app.py:155-167 | the best streak is the longest stretch of consecutive completed days: none is longer, and one of that length exists |
| Tables.AddCategory | app.py:231-234 | an INSERT appends one row with the next id and advances the id counter |
| Tables.CreateCategory | app.py:223-241 | fails with CategoryExists exactly when the name is taken (UNIQUE, line 48) and then leaves the table unchanged; otherwise appends one row with the new id, color default #6366f1 and icon default 📌; keeps names unique and ids increasing |
| Tables.InsertOrIgnore | app.py:110-114 | afterwards the name is present and the id counter has moved on by one, since SQLite's AUTOINCREMENT uses up an id even for an ignored row; a name already present leaves the rows unchanged; an absent name gets exactly one appended row with the seed's colour, icon and the next id (AddCategory); validity kept |
| Tables.SeedCategories | app.py:110-114 | no contract of its own: one InsertOrIgnore per seed in list order; meaning proved in SeedCategoriesKeepsRows, SeedCategoriesAddsAll, SeedCategoriesPresent and SeedCategoriesIdempotent |
| Tables.SoftDelete | app.py:366-375 | same rows in the same order; only `active` may change; a row is active afterwards exactly when it was active and its id is not the deleted id |
| Tables.ActiveHabits | app.py:250-256 | the listing holds exactly the habits with active = 1 and is no longer than the table |
| Tables.ActiveHabitsCounts | app.py:255 | each active row appears in the listing exactly as often as in the table and each inactive row never, so its length is the COUNT(*) of active rows (app.py:460) |
| Tables.FindRecord | app.py:83 | the index found is a row with that (habit_id, date) key; None means no row has the key |
| Tables.Lookup | app.py:83 | the table read as a map keyed by (habit_id, date): a result is a row of the table with that key; None exactly when no row has the key |
| Tables.UpsertRecord | app.py:379-410 | inserts (with the next id) exactly when the key is absent, otherwise updates without consuming an id; UNIQUE(habit_id, date) and id order are kept |
| Tables.SelectCompleted | app.py:131-135 | a date is returned exactly when the habit has a completed record on it |
| Tables.InsertDescending | app.py:135 | inserting a new date into a strictly decreasing list gives a strictly decreasing list with the same elements plus the date |
| Tables.SortDescending | app.py:135 | ORDER BY date DESC: same elements; distinct input gives a strictly decreasing list |
| Tables.CompletedDates | app.py:131-135 | the query returns exactly the habit's completed dates, strictly decreasing under the key constraint |
| Tables.SelectCompletedDistinct | app.py:83 | under UNIQUE(habit_id, date) one habit's completed dates are distinct |
| Tables.CreateCategoryTwice | app.py:226-241 | creating the same name a second time fails and changes nothing |
| Tables.CreateCategoryNameOnce | app.py:48 | after a successful creation exactly one row carries the name |
| Tables.SeedCategoriesKeepsRows | app.py:110-114 | seeding never removes or alters existing rows, advances the id counter by one per seed, and keeps the table valid |
| Tables.SeedCategoriesAddsAll | app.py:110-114 | after seeding every seeded name is present |
| Tables.SeedCategoriesPresent | app.py:110-114 | seeding names that are all present adds no row; only the id counter moves on, by one per seed |
| Tables.SeedCategoriesIdempotent | app.py:101-114 | running the default seeding loop twice leaves the rows of running it once; only the id counter moves on, by six |
| Tables.SoftDeleteHidesOnlyThatHabit | app.py:371 | a deleted habit leaves the active listing, every other active habit stays, and the active ids lose exactly the deleted id |
| Tables.SoftDeleteIdempotent | app.py:371 | deleting twice equals deleting once |
| Tables.SoftDeleteActiveCount | app.py:459-460 | with unique ids, the active count drops by one exactly when the deleted id was active, and is unchanged otherwise |
| Tables.UpsertRecordLookup | app.py:386-410 | afterwards the key (habit_id, date or today) holds the supplied completed (default 1) and notes whichever branch ran, an insert stores the row under the id returned in Created (the `id` of the 201 response), an update keeps the row id, and every other key is unchanged |
| Tables.UpsertRecordIdempotent | app.py:389-410 | repeating the same request takes the update branch and leaves the table as it was |
| Tables.CompletedOnLookup | app.py:83 | under the key constraint, "completed on that day" is the keyed row having completed = 1 |
| Tables.UpsertRecordCompletion | app.py:386-410 | afterwards the habit counts as completed on that day exactly when the stored flag is 1; every other (habit, day) keeps its completion |
| Tables.BlockInCompleted | app.py:131-135 | a block of the query result is a block of completed days of the habit |
| Tables.HabitStreak | app.py:121-167 | no contract of its own: Streak of the habit's completed dates; meaning proved in HabitStreakMeaning |
| Tables.HabitStreakMeaning | app.py:121-167 | on the real table: the best streak bounds every stretch of consecutive completed days and one such stretch attains it; with no future records the current streak is the stretch ending today and the day before it is not completed |
| Stats.GuardedRatio | app.py:481 | 0 when the divisor is 0; otherwise the ratio times the divisor is the dividend |
| Stats.CompletedTodayIds | app.py:465-469 | the set holds exactly the habits completed today, deleted ones included |
| Stats.TotalCompletions | app.py:484-485 | the count is exactly the number of rows with completed = 1 (the size of CompletedRowIndices), hence at most the number of records |
| Stats.CompletedTodayCount | app.py:465-470 | no contract of its own: the size of CompletedTodayIds, whose contract states its members |
| Stats.TotalCurrentStreak | app.py:476-479 | no contract of its own: the sum of the habits' current streaks, computed by the loop Database.Database.SumCurrentStreaks |
| Stats.MakeOverview | app.py:487-494 | completion_rate_today and average_streak are 0 with no active habits; otherwise rate × total_habits = 100 × completed_today and average × total_habits = sum of current streaks |
| Stats.OverviewOf | app.py:454-494 | no contract of its own: MakeOverview over the active-habit count, CompletedTodayCount, TotalCurrentStreak and TotalCompletions; the guards are MakeOverview's contract |
| Stats.CompletedTodayIncludesDeletedHabits | app.py:459-492 | one active habit and one deleted habit, both completed today, give total_habits 1, completed_today 2 and a rate of 200 |
| Stats.ComparisonRowOf | app.py:511-517 | no contract of its own: the entry for one habit (id, name, current and best streak); meaning in ComparisonRowsAt |
| Stats.ComparisonRows | app.py:507-518 | no contract of its own: the entries of the habits in order; meaning proved in ComparisonRowsAt and ComparisonRowsMembers |
| Stats.ComparisonRowsAt | app.py:503-519 | the comparison loop yields one row per habit, in query order, the i-th holding the i-th habit's id, name, current and best streak |
| Stats.ComparisonRowsMembers | app.py:507-518 | every given habit has its row in the comparison rows, and every row is the row of one of the given habits |
| Stats.InsertByStreak | app.py:522 | one insertion step lengthens the list by exactly one row |
| Stats.InsertByStreakPermutes | app.py:522 | one insertion step yields the old rows as a multiset plus the new row |
| Stats.InsertByStreakAtLeast | app.py:522 | inserting a row whose current streak is at least v into rows all at least v keeps every row at least v |
| Stats.InsertByStreakSorted | app.py:522 | inserting into a list sorted by current streak (descending) keeps it sorted |
| Stats.SortByCurrentStreak | app.py:522 | the sorted list is a permutation of its input, non-increasing in current streak |
| Stats.InsertByStreakStable | app.py:522 | the insertion step places the new row after the rows with the same current streak |
| Stats.SortByCurrentStreakStable | app.py:522 | stability: rows with equal current streak keep their original relative order |
| Stats.SortByCurrentStreakElements | app.py:522 | the sort neither drops nor adds rows: same length, same members |
| Stats.ComparisonCoversActive | app.py:503-522 | the comparison list has one entry per active habit, holds every active habit's row and only those, sorted by current streak descending |
| Stats.BestWeekdayName | app.py:205-209 | a name exactly when a weekday was found, and that name maps back to the weekday index |
| Stats.WeekdayIndex | app.py:206 | a recognised name is the entry of the weekday list at the returned index (0 = Domingo … 6 = Sábado) |
| Database.Database.constructor | app.py:39-97 | empty category and record tables with id counters at 1, holding the given habits; valid |
| Database.Database.InsertSeeds | app.py:110-114 | the seeding loop leaves the categories table as SeedCategories of the old one over the given seeds, keeps the constraints, and touches no other table |
| Database.Database.InitDb | app.py:101-114 | seeding the six default categories: the categories table becomes SeedCategories of the old one over the default list; other tables unchanged |
| Database.Database.CreateCategory | app.py:223-241 | result and new categories table are those of Tables.CreateCategory; the other tables are unchanged |
| Database.Database.DeleteHabit | app.py:366-375 | the habits table becomes SoftDelete of the old one; the other tables are unchanged |
| Database.Database.CreateRecord | app.py:379-410 | the try-INSERT / on IntegrityError UPDATE handler yields exactly UpsertRecord's outcome and records table; the other tables are unchanged |
| Database.Database.CalculateHabitStreak | app.py:121-167 | runs the streak loops on the habit's completed dates and returns its HabitStreak |
| Database.Database.CurrentStreakOf | app.py:477-479 | the current streak calculate_streak yields for the habit id on the current records |
| Database.Database.SumCurrentStreaks | app.py:476-479 | the loop calling calculate_streak for each habit returns the sum of their current streaks |
| Database.Database.GetOverviewStats | app.py:454-494 | returns OverviewOf on the current tables: active-habit count, distinct habits completed today, guarded rate and average, completed-record count |
| Database.Database.ComparisonRowFor | app.py:507-518 | the entry appended for one habit holds its id, name and the streak calculate_streak computes |
| Database.Database.BuildComparisonRows | app.py:507-518 | the loop appends one entry per habit in order, giving ComparisonRows |
| Database.Database.GetComparisonStats | app.py:498-524 | the rows of the active habits followed by the sort: the sorted comparison rows of the active habits |

## Left out

- Flask routing, `request.json` parsing, `jsonify`, HTTP status codes, CORS and the
  server start: I/O and framework plumbing. An error is a `Result` value in the model.
- SQLite itself: connections, cursors, the SQL text and the query engine. Tables are
  sequences of rows. The queries are stated by what they return.
- Foreign keys: the source declares them but SQLite does not enforce them by default.
  The model does not relate record or habit ids to other tables either.
- `datetime.now()`, `strptime` and `timedelta`: the date is a `today` parameter, and
  dates are integer day numbers. A malformed date string cannot occur in the model.
- Creation timestamps (`created_at`), so the `ORDER BY created_at DESC` ordering of
  `get_habits` is not modelled. `ActiveHabits` keeps table order.
- The `achievements` table (app.py:88-98): created by `init_db`, but no route reads or
  writes it.
- `get_categories` (app.py:213-221) and the per-habit `completed_today` flag of
  `get_habits` (app.py:269-275): plain reads that the model does not restate.
- Concurrency: `app.run` serves requests on threads, and each handler opens its own
  connection. The model runs handlers one at a time, each as one atomic step. For
  example, `get_overview_stats` reads the active habits twice (app.py:460 and app.py:473),
  and a `delete_habit` between the two reads could make the two counts differ. The
  model uses one active list for both.
- Tables.ActiveHabits: the unordered `SELECT id, name FROM habits WHERE active = 1`
  of the comparison endpoint is taken in table order. SQL promises no order there,
  and the habits table carries no increasing-id invariant, so the tie order that
  `Stats.SortByCurrentStreakStable` preserves is the table order, not the rowid order
  SQLite's scan gives in practice.
- Stats.MakeOverview: states the exact ratios as products. The source computes them
  in floating point and rounds them to one decimal with `round(..., 1)`.
- The records table is a sequence of rows, not a keyed map. Uniqueness of
  `(habit_id, date)` is the proved invariant `ValidRecords`, and `Tables.Lookup` reads the
  table as a map.
- `get_completion_rate`: floating point over a 30-day window. `Stats.ComparisonRows`
  therefore has no `completion_rate_30d` field.
- `get_best_weekday`'s aggregation (`strftime('%w')`, `GROUP BY`, `LIMIT 1` with
  unspecified tie-breaking): only the index-to-name lookup is modelled.
- `Stats.BestWeekdayName` requires the index to lie in 0..6. That is the range of
  `strftime('%w')`, so the IndexError (and Python's negative indexing) cannot arise.
- Habit creation, update and lookup, the records listing and the heatmap routes:
  they are outside the modelled core. The `Database` constructor takes the initial
  habits as a parameter instead.
- Tables.CreateCategory: an explicit JSON `null` for `color` or `icon` is treated as
  absent, so the model stores the default. The source's `data.get(k, default)` returns
  None for an explicit null and stores NULL. A `null` name cannot be expressed either:
  in the source it breaks the `name TEXT NOT NULL` constraint, and the handler answers
  400 "Categoria já existe" although no category has that name. The model's error
  case is exactly a taken name.
- Tables.UpsertRecord: an explicit JSON `null` for `completed` or `date` is treated as
  absent, so the model stores completed 1 or today's date. The source stores a NULL
  `completed`, and the day then does not count as completed. For a null `date` the
  source fails the NOT NULL constraint, and its UPDATE with `date = NULL` matches no
  row, yet the route still reports an update. A `null` `habit_id` takes the same
  path in the source: the insert breaks `habit_id INTEGER NOT NULL`, the UPDATE with
  `habit_id = NULL` matches no row, and the route still reports an update. The
  model's `habitId` is always an integer.
- Tables.UpsertRecord: dates are assumed to be canonical ISO `YYYY-MM-DD` text.
  `strptime` also accepts `2024-1-5`, but ORDER BY and UNIQUE compare the text, so
  `2024-1-5` and `2024-01-05` are two keys for one day in the source. In the model
  they are one key.
