# Habito statistics engine, backup check and store, in Dafny

This project models the core of Habito, a habit tracker. It has three parts:

- **The statistics engine** (`frontend/src/utils/streaks.js`). It covers:
  - when a stored completion counts;
  - the current and the longest streak;
  - trailing-window completion rates;
  - the weighted habit strength;
  - the `YYYY-MM-DD` date key;
  - the last-N-days window, "is today" and "is in the future";
  - grid cell status;
  - the per-habit statistics summary.
- **The structural check of a backup file** (`validateBackupData` in `frontend/src/utils/backup.js`), together with the shape of the export it is meant to accept (`exportData` in `frontend/src/utils/db.js`).
- **The store transitions** (`frontend/src/store/habitStore.js`): adding, editing and deleting habits, toggling a day, setting a numeric value, reloading a habit's completion map, and sorting the list by `order`.

How the model represents the system:

- **Days.** A day is an integer day number, where 0001-01-01 is day 0. `today` and the current instant are parameters; no clock is read.
- **Date keys.** `formatDate` works on a (year, month, day) triple. Its padding, its 10-character shape, its round trip through parsing, and the agreement of key order with date order are proved separately (`DateKeys`). That agreement justifies keying each completion map by day number rather than by string.
- **Completion values.** A stored value is `true`, a number, or any other JavaScript value.
- **Habit types.** A habit's `type` may be missing. The streak, rate and strength functions then use their `'yesno'` default, while `getCompletionStatus` has no default.
- **Arithmetic.** Rates and the strength are exact rationals. `Math.round(x)` is modelled as `floor(x + 1/2)`, and the strength weights 0.4/0.3/0.2/0.1 as tenths.
- **Persistence.** Completion records are a map from habit id to day to record. A put under an existing `habitId_date` id replaces the record; a delete removes it. `HabitStore.CompletionIdInjective` shows that the id and the (habit, day) pair determine each other for four-digit years. Habit records are a map from id to habit.

Modules:

| module | file | contents |
|---|---|---|
| `Optional` | optional.dfy | `Option` |
| `Calendar` | calendar.dfy | proleptic Gregorian calendar, day numbers and their inverse |
| `DateKeys` | datekeys.dfy | `formatDate`, its parser, digits, padding, string order |
| `Records` | records.dfy | habits, completion records, values and types |
| `Validity` | validity.dfy | `isCompletionValid`, `getCompletionStatus` |
| `Streaks` | streaks.dfy | current and longest streak |
| `Rates` | rates.dfy | completion rate, rounding, habit strength |
| `Stats` | stats.dfy | `calculateHabitStats` |
| `Dates` | dates.dfy | `getLastNDays`, `isToday`, `isFuture` |
| `Backup` | backup.dfy | JSON values, truthiness, `validateBackupData`, export shape |
| `HabitStore` | store.dfy | store state, transitions, order sort |

## Model

| member | source | states |
|---|---|---|
| Records.TypeNameRoundTrip | frontend/src/utils/streaks.js:103-113 | A habit type and its `type` string determine each other, so every string other than 'yesno' and 'numeric' is an unrecognised type, and those two strings are never one. |
| Validity.IsCompletionValid | frontend/src/utils/streaks.js:103-113 | An absent record never counts. A yes/no record counts exactly when its value is `true`. A numeric record counts exactly when its value is a number above 0. Any other type never counts. |
| Validity.ZeroIsRecordedButInvalid | frontend/src/utils/streaks.js:108-110 | A numeric record holding 0 is a stored key but not a valid day. |
| Validity.ValidDays | frontend/src/utils/streaks.js:29-30 | The filtered keys are the stored days whose record is valid, and no others. |
| Validity.CompletionStatus | frontend/src/utils/streaks.js:163-176 | No record gives `null`. A yes/no habit gives 'completed' exactly when the day is valid, otherwise `null`. A numeric habit gives the raw stored value. Any other or missing type gives `null`. |
| Validity.NumericStatusMatchesValidity | frontend/src/utils/streaks.js:171-172 | For a numeric habit, the cell shows a positive number exactly when the day counts as done. |
| Streaks.StreakFrom | frontend/src/utils/streaks.js:9-20 | The walk from offset i stops at a count n between i and 365. Every day it passed is valid, and below the cap the day it stopped on is not. |
| Streaks.CurrentStreak | frontend/src/utils/streaks.js:2-23 | The result n is at most 365. Days today back to today-(n-1) are valid. Below the cap, day today-n is not. An empty map or an invalid today gives 0. |
| Streaks.CurrentStreakUnique | frontend/src/utils/streaks.js:9-20 | Any count with those properties equals the current streak: it is the longest valid run ending today, cut at 365. |
| Streaks.Insert | frontend/src/utils/streaks.js:31 | Inserting a new day into an increasing list keeps it strictly increasing and adds exactly that day. |
| Streaks.SortedValidDays | frontend/src/utils/streaks.js:29-31 | The sorted filtered keys are strictly increasing and hold exactly the valid days. |
| Streaks.LongestRun | frontend/src/utils/streaks.js:35-51 | For a non-empty increasing list, the scan returns the length of the longest run of consecutive days, between 1 and the list length. |
| Streaks.LongestStreak | frontend/src/utils/streaks.js:26-52 | The result is the length of the longest run of consecutive valid days. It is 0 exactly when no day is valid, and never more than the number of valid days. |
| Streaks.LongestRunZero | frontend/src/utils/streaks.js:33 | The longest run is 0 exactly when there is no valid day. |
| Streaks.CurrentStreakIsRun | frontend/src/utils/streaks.js:9-20 | The current streak is a run of valid days, so it never exceeds the longest streak. |
| Rates.ValidCountFull | frontend/src/utils/streaks.js:88-97 | The window count reaches the window size exactly when every day in the window is valid. |
| Rates.ValidCountEmpty | frontend/src/utils/streaks.js:88-97 | The window count is 0 exactly when no day in the window is valid. |
| Rates.RoundHalfUp | frontend/src/utils/streaks.js:99 | `Math.round(p/q)` is the integer within one half of p/q, with halves rounded up. |
| Rates.RoundHalfUpUnique | frontend/src/utils/streaks.js:99 | At most one integer satisfies that bound, so the rounding is determined. |
| Rates.CompletionRate | frontend/src/utils/streaks.js:83-100 | The rate lies in 0..100 and is 100·(valid days in the window)/days rounded half up. A negative window gives 0. |
| Rates.ComputeCompletionRate | frontend/src/utils/streaks.js:86-99 | The counting loop over today-0 .. today-(days-1) computes exactly that rate. |
| Rates.RateOfFullWindow | frontend/src/utils/streaks.js:83-100 | A window in which every day is valid rates 100. |
| Rates.RateOfEmptyWindow | frontend/src/utils/streaks.js:83-100 | A window without a valid day rates 0. |
| Rates.RateOfHalfWindow | frontend/src/utils/streaks.js:99 | A window that is exactly half valid rates 50, the rounding tie going up. |
| Rates.StreakWindowComplete | frontend/src/utils/streaks.js:9-20 | Every window no longer than the current streak rates 100. |
| Rates.DaysSinceCreation | frontend/src/utils/streaks.js:59-61 | The whole days since creation are the floor of the elapsed milliseconds over 86,400,000. |
| Rates.Blend | frontend/src/utils/streaks.js:72-79 | The strength is the weighted sum 0.4·r7 + 0.3·r30 + 0.2·r90 + 0.1·rAll, rounded half up. It stays in 0..100 when each rate does. |
| Rates.BlendMonotone | frontend/src/utils/streaks.js:72-79 | Raising any one rate never lowers the strength. |
| Rates.HabitStrength | frontend/src/utils/streaks.js:56-80 | An empty map, or a habit whose age rounds down to 0 days (created within the last 24 hours), gives 0. Otherwise the strength is the blend of the 7-, 30-, 90-day and all-time rates. The result is always in 0..100. |
| Rates.StrengthOfPerfectRecord | frontend/src/utils/streaks.js:63-79 | With every day valid in the last 90 days and since creation, the strength is 100. |
| Rates.StrengthOfIdleHabit | frontend/src/utils/streaks.js:57-79 | With no valid day in the last 90 days or since creation, the strength is 0. |
| Stats.CalculateHabitStats | frontend/src/utils/streaks.js:179-192 | Each field is the engine's value under the habit's type. `totalCompletions` counts every stored key, valid or not. The ordering current ≤ longest ≤ valid days ≤ total holds, and strength and rate lie in 0..100. |
| Calendar.NextDate | frontend/src/utils/streaks.js:10-11 | Stepping a date by one calendar day gives a valid, later date whose day number is one more. |
| Calendar.DayNumberOrder | frontend/src/utils/streaks.js:39-43 | Day numbers order dates chronologically, so day differences are calendar distances. |
| Calendar.CivilFromDay | frontend/src/utils/streaks.js:116-118 | Every day number is the day number of a valid calendar date. |
| Calendar.CivilFromDayNumber | frontend/src/utils/streaks.js:116-118 | Converting a date to its day number and back gives the same date. |
| Calendar.NextDayIsNextDate | frontend/src/utils/streaks.js:130-133 | Adding one to a day number is moving to the next calendar date. |
| DateKeys.FormatDate | frontend/src/utils/streaks.js:116-122 | The key is the year, a dash, the month in 2 digits, a dash, the day in 2 digits. For 4-digit years it has 10 characters with dashes at positions 4 and 7. |
| DateKeys.PadStart | frontend/src/utils/streaks.js:119-120 | `padStart` keeps the string as a suffix and fills up to the width with the fill character. |
| DateKeys.PaddedTwoDigits | frontend/src/utils/streaks.js:119-120 | Padding the decimal form of a number below 100 to 2 characters with '0' gives its 2-digit form. |
| DateKeys.ParseFormatRoundTrip | frontend/src/utils/streaks.js:116-122 | Parsing the key of a date with a 4-digit year gives the date back. |
| DateKeys.FormatParseRoundTrip | frontend/src/utils/streaks.js:116-122 | A well-formed key with a 4-digit year is the key of the date it parses to. |
| DateKeys.KeyOrder | frontend/src/utils/streaks.js:29-31 | For 4-digit years, string order of keys is chronological order of dates, which the key `.sort()` relies on. |
| DateKeys.DateKeyOrder | frontend/src/utils/streaks.js:29-31 | For 4-digit years, string order of the keys of two day numbers is their numeric order. |
| DateKeys.DateKeyInjective | frontend/src/utils/streaks.js:116-122 | Different days with 4-digit years have different keys. |
| Dates.StartOfDay | frontend/src/utils/streaks.js:155-158 | `setHours(0,0,0,0)` stays on the same day, at or before the instant and less than a day earlier. |
| Dates.IsToday | frontend/src/utils/streaks.js:147-151 | Two instants print the same date string exactly when they fall on the same day. |
| Dates.IsFuture | frontend/src/utils/streaks.js:154-160 | An instant is in the future exactly when it falls on a later day than now, whatever the time of day. |
| Dates.TodayIsNotFuture | frontend/src/utils/streaks.js:147-160 | Today is never the future, and every instant is past, today or future. |
| Dates.LastNDays | frontend/src/utils/streaks.js:125-137 | The window has n days, or none for n ≤ 0. It runs oldest first, position j holding today-(n-1-j), so it ends today. |
| Dates.LastNDaysShape | frontend/src/utils/streaks.js:125-137 | Such a window ends today, holds no future day, and each day is the calendar date after its predecessor. |
| Backup.Truthy | frontend/src/utils/backup.js:34-51 | `undefined`, `null`, `false`, `0` and the empty string are falsy; `true`, every other number and string, arrays and objects are truthy. |
| Backup.CheckHabits | frontend/src/utils/backup.js:43-47 | The habit loop passes exactly when every entry is non-null with truthy `id`, `name` and `type`. Otherwise the first bad entry decides: `null` throws, and anything else is 'Invalid habit structure'. |
| Backup.ValidateBackupData | frontend/src/utils/backup.js:33-54 | Each error message appears exactly when its check is the first to fail, in the fixed order format, habits array, habit structure, completions array. `{valid: true}` appears exactly when all checks pass. |
| Backup.NullHabitThrows | frontend/src/utils/backup.js:43-44 | `{habits: [null]}` makes the validator throw rather than report an invalid habit. |
| Backup.ValidateBackupDataGuarded | frontend/src/utils/backup.js:43-47 | With a `null` guard the validator never throws. It agrees with the unguarded validator wherever that one returns, and reports 'Invalid habit structure' where it throws. |
| Backup.ExportValidates | frontend/src/utils/db.js:162-181 | An exported document passes validation exactly when every habit has a non-empty id, name and type. |
| HabitStore.CompletionIdInjective | frontend/src/utils/db.js:133-136 | For 4-digit years, the record id `habitId_date` determines the habit and the day, so keying records by the pair is keying them by id. |
| HabitStore.Put | frontend/src/utils/db.js:133-146 | A put leaves exactly the new record on that day and changes no other day or habit. |
| HabitStore.Remove | frontend/src/utils/db.js:148-159 | A delete leaves no record on that day and changes no other day or habit. |
| HabitStore.BuildCompletionMap | frontend/src/store/habitStore.js:110-117 | The fold has one entry per date that occurs. Each entry is a record with that date, and it is the last such record. |
| HabitStore.RebuildIsView | frontend/src/store/habitStore.js:110-122 | Folding any listing of a habit's stored records gives the habit's stored records by day, whatever the listing order. |
| HabitStore.LoadCompletions | frontend/src/store/habitStore.js:110-123 | Loading sets the habit's map to its stored records, leaves every other habit's map alone, and changes no stored data. |
| HabitStore.LoadCompletionsIdempotent | frontend/src/store/habitStore.js:110-123 | Loading twice is loading once. |
| HabitStore.ToggleCompletion | frontend/src/store/habitStore.js:67-89 | A stored day is deleted whatever its value, and an empty day gets `true`. No other day or habit changes. The habit's map is refreshed, so the day is valid for a yes/no habit exactly when it was empty. |
| HabitStore.ToggleTwiceRestores | frontend/src/store/habitStore.js:67-89 | Toggling twice restores the habit id, date and value of every stored record when the day was empty or held `true`. |
| HabitStore.ToggleTwiceOverwrites | frontend/src/store/habitStore.js:70-74 | Toggling a stored day twice leaves `true` there, so a stored number is lost. |
| HabitStore.SetNumericValue | frontend/src/store/habitStore.js:92-107 | The day's record holds exactly the given value and no other day or habit changes. For a numeric habit the day is valid exactly when the value is positive. |
| HabitStore.SetNumericValueLastWins | frontend/src/store/habitStore.js:92-93 | Setting two values in a row is setting the second. |
| HabitStore.AddHabit | frontend/src/store/habitStore.js:34-45 | A habit is appended with the supplied fields, the generated or supplied id, and `order` equal to the old list length. Existing habits stay in place. A duplicate id is refused and nothing changes. The list and the database stay in step. |
| HabitStore.AddedHabitCanSortFirst | frontend/src/store/habitStore.js:40 | After deletions, a newly added habit can get an order below an existing one, so sorting by order (as the next load does) lists it first. |
| HabitStore.AddHabitLast | frontend/src/store/habitStore.js:34-45 | Ordering the new habit after the largest existing order places it last in the sorted list. |
| HabitStore.FindIndex | frontend/src/store/habitStore.js:50 | `findIndex` gives the first position with the id, or -1 when there is none. |
| HabitStore.ApplyPatch | frontend/src/store/habitStore.js:52 | The spread keeps id and creation time, takes each supplied field from the update, and keeps the rest. |
| HabitStore.UpdateHabit | frontend/src/store/habitStore.js:48-58 | An unknown id changes nothing. Otherwise only the first habit with the id is replaced, by its patched copy; length and positions are kept, and list and database stay in step. |
| HabitStore.UpdateHabitIdempotent | frontend/src/store/habitStore.js:48-58 | Applying the same edit twice is applying it once. |
| HabitStore.FilterOut | frontend/src/store/habitStore.js:63 | The filter never lengthens the list, and a list without the id comes back unchanged. |
| HabitStore.FilterOutMembers | frontend/src/store/habitStore.js:63 | The filter keeps exactly the habits with another id. |
| HabitStore.FilterOutAppend | frontend/src/store/habitStore.js:63 | Filtering works piecewise, so the kept habits keep their relative order. |
| HabitStore.FilterOutRemovesOne | frontend/src/store/habitStore.js:63 | With distinct ids, deleting removes exactly the one matching habit. |
| HabitStore.DeleteHabit | frontend/src/store/habitStore.js:61-64 | The list is the old list filtered by id, so the other habits keep their relative order. The habit leaves the list and the database, and all its stored completions are deleted. Other habits' records and the in-memory maps are untouched. The list and the database stay in step. |
| HabitStore.DeleteKeepsMirror | frontend/src/store/habitStore.js:61-64 | Filtering the list and deleting the record keep list and database in step, and remove exactly one habit when the id is present. |
| HabitStore.InsertFront | frontend/src/store/habitStore.js:153 | Inserting into a sorted list keeps it sorted and adds exactly that habit. |
| HabitStore.InsertFrontClass | frontend/src/store/habitStore.js:153 | Insertion keeps every group of equal orders in its order, with the inserted habit first in its group. |
| HabitStore.SortByOrder | frontend/src/store/habitStore.js:153 | The sort returns a permutation, ascending by `order`, and keeps habits of equal order in their original order, since `Array.prototype.sort` is stable. |
| HabitStore.GetFilteredHabits | frontend/src/store/habitStore.js:143-158 | The result is always a permutation of the list. Sorted by order it is ascending and stable; with an unknown sort key it is the list unchanged. |
| HabitStore.AppendedSortsLast | frontend/src/store/habitStore.js:153 | A habit whose order is at least every other order sorts last. |

## Left out

- Floating point. Rates and strength are exact rationals, so results that differ from `Math.round` on a float only by binary rounding error are not modelled.
- Rates.CompletionRate: requires a non-zero window. The source divides by zero at 0 days and returns NaN. A negative window, reachable from the strength when `createdAt` lies in the future, gives -0 in the source and 0 here.
- Rates.HabitStrength: `createdAt` is epoch milliseconds. The source stores an ISO string and parses it with `new Date`. An unparsable `createdAt` (NaN days) is not modelled.
- Clock and time zone. `today` and the current instant are parameters. Every day is taken to be 24 hours long, so daylight-saving shifts in `setDate`, `setHours` and the millisecond difference in the strength are not modelled.
- Date keys for years outside 1000..9999. Their shape and order lemmas require four-digit years; the formatter itself is defined for all years.
- Malformed keys. A completion map is keyed by day number, so keys that are not dates (which `new Date` would parse to NaN in the longest-streak scan) do not arise.
- `calculateHabitStats` with `completions` undefined. The source's `calculateCompletionRate` would then throw; the model always passes a map.
- The name sort of `getFilteredHabits` (`localeCompare`) and its unused filter. Only the order sort and the unsorted case are modelled.
- Id generation (`Date.now().toString()`) and the creation timestamp. Both are parameters of `AddHabit`.
- HabitStore.UpdateHabit: the edit covers name, description, type, colour and order. An update that overrides `id` or `createdAt` is not modelled.
- Completion `notes` and `timestamp` fields, and a habit's `createdAt` in exported JSON. No validity, streak, rate or store lookup reads them.
- HabitStore.ToggleTwiceRestores: restores habit id, date and value only. `setCompletion` (frontend/src/utils/db.js:133-146) writes a fresh record with empty `notes` and the current `timestamp`, so a day that held `true` gets a new record on the second toggle, not its old one.
- IndexedDB and localStorage plumbing: `initDB`, the localStorage fallback, indexes, the load in `getAllHabits` (its `a.order - b.order` sort is the comparator `HabitStore.SortByOrder` models), `importData`, and the asynchrony of every store action. Each transition is one atomic step.
- `downloadBackup` and `readBackupFile` (Blob, FileReader, `JSON.parse`), and the UI components.
- The separate streak code in StatsView.jsx and HabitList.jsx. It uses UTC keys and counts any truthy record, which is a different rule from the engine's.

## Findings

| source | as written | input that shows it | evidently intended | confidence | as-written member | corrected member |
|---|---|---|---|---|---|---|
| frontend/src/utils/backup.js:43-44 | `habit.id` is read on every entry of `habits`, including `null` | `{"habits": [null]}` throws a TypeError instead of returning an error | report 'Invalid habit structure' for a `null` entry | high, not executed | Backup.NullHabitThrows | Backup.ValidateBackupDataGuarded |
| frontend/src/store/habitStore.js:40 | a new habit gets `order: habits.length` | habits with orders 0, 1, 2; delete the first two; add a habit, which gets order 1; reload, and the `a.order - b.order` sort of `getAllHabits` (frontend/src/utils/db.js:51) lists it before the habit with order 2. In the same session the array still shows it last, and in this snapshot App.js mounts the add dialog without `onAdd`, so the store's `addHabit` is not reached from the interface | a new habit goes to the end of the list | low, not executed | HabitStore.AddedHabitCanSortFirst | HabitStore.AddHabitLast |
