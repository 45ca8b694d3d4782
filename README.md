# Habit tracker: completion keys and streaks

This project models the part of the habit tracker that records on which
days a habit was done and derives a streak from those records.

**Server side.** A `Habit` document holds a `completed` map from
`YYYY-MM-DD` keys to booleans and a stored `streak`.
- `markComplete` sets a date's key to true, then recomputes the streak.
- `calculateStreak` walks back one calendar day at a time from today's
  key while the day is marked done.
- `getCompletionDates` lists the keys marked true.

**Browser side.** The client keeps its own `habits` array.
- `toggleHabitCompletion` flips one date on one habit and nudges that
  habit's streak up or down by one.
- `getDatesForView` produces the seven day keys the calendar shows.
- The statistics view reads two integer figures: `currentStreak`, the
  largest streak, and `completedDays`, the number of done dates summed
  over all habits.

**Model.**
- A day is an integer count of days since 1970-01-01. An instant is an
  integer count of milliseconds.
- The key of an instant is the date part of `toISOString`: the UTC
  calendar date in the proleptic Gregorian calendar. The year is written
  with four digits, or with a sign and six digits outside 0..9999.
- `Dates.CivilOf` walks the calendar from 1970-01-01, one `Next` or
  `Prev` step at a time.
- `Dates.ParseKey` reads a key back. Their round trip shows that distinct
  days have distinct keys. Every streak property rests on this.
- The streak is specified by `HabitModel.IsStreak(m, today, n)`: the n days
  ending today are done, and the day before them is not. The backend
  method is proved to compute it, and to terminate because a run of done
  days can be no longer than the number of done keys.
- The client's array is the `habits` field of `Dashboard.Tracker`. A habit
  entry whose `completed` is `undefined` has `None` there.

Modules:
- `wrappers.dfy`: `Option`.
- `dates.dfy`: days, calendar dates, keys, parsing.
- `completion.dfy`: done keys, shared by both sides.
- `habit.dfy`: the server's `Habit` document.
- `dashboard.dfy`: the client's `habits` array and statistics.

## Model

| member | source | states |
|---|---|---|
| Dates.UtcDay | habit-tracker-backend/models/Habit.js:48 | the day of an instant is the one whose 24-hour UTC window contains it (floor division, also for instants before 1970) |
| Dates.FormatDateSameDay | habit-tracker-backend/models/Habit.js:47-49 | `formatDate` gives two instants the same key exactly when they fall on the same UTC day |
| Dates.DateKeyInjective | habit-tracker-backend/models/Habit.js:47-49 | two days have the same `YYYY-MM-DD` key if and only if they are the same day |
| Dates.ParseDateText | habit-tracker-backend/models/Habit.js:64 | reading back the text `formatDate` writes for a valid calendar date gives that date |
| Dates.FormatDate | habit-tracker-backend/models/Habit.js:47-49 | the key of an instant reads back as the instant's UTC calendar date, so `new Date(formatDate(now))` at line 64 is today's UTC midnight |
| Dates.DateKeyParses | frontend/script.js:479 | the key written for any day reads back as that day's calendar date |
| Dates.ParseKey | habit-tracker-backend/models/Habit.js:64 | a key that parses names a valid calendar date (month 1..12, day within the month) |
| Dates.ParseKeyExact | habit-tracker-backend/models/Habit.js:64 | a text parses to a date if and only if it is exactly the key `formatDate` writes for that valid date |
| Dates.Prev | habit-tracker-backend/models/Habit.js:70 | stepping back one day gives a valid date strictly earlier in calendar order |
| Dates.Next | frontend/script.js:478 | stepping forward one day gives a valid date strictly later in calendar order |
| Dates.PrevIsAdjacent | habit-tracker-backend/models/Habit.js:70 | no valid date lies strictly between `Prev(c)` and `c`: the step back skips no date |
| Dates.NextIsAdjacent | frontend/script.js:478 | no valid date lies strictly between `c` and `Next(c)`: the step forward skips no date |
| Dates.NextPrevInverse | habit-tracker-backend/models/Habit.js:70 | stepping a day forward and a day back, in either order, returns to the same date |
| Dates.CivilOfPrevious | habit-tracker-backend/models/Habit.js:70 | the day before day d is the calendar day before d's date, so the backward walk moves one calendar day per step |
| Dates.CivilOfFollowing | frontend/script.js:478 | day d + 1 is the calendar day after d's date |
| Dates.CivilOfInjective | habit-tracker-backend/models/Habit.js:66 | distinct days have distinct calendar dates (if and only if) |
| Dates.DaysInMonth | habit-tracker-backend/models/Habit.js:70 | a month has 28 to 31 days, and 29 only for February of a leap year |
| Dates.EpochKey | habit-tracker-backend/models/Habit.js:48 | day 0 has the key `1970-01-01` |
| Dates.DayBeforeEpochKey | habit-tracker-backend/models/Habit.js:48 | day -1 has the key `1969-12-31` (year, month and day all roll back) |
| Completion.TrueKeysWithin | frontend/script.js:455 | the done dates are among the map's dates, and there are none exactly when no date is done |
| Completion.TrueKeysAfterSet | habit-tracker-backend/models/Habit.js:55 | setting one key changes the set of done keys by that key alone, and the count by at most one |
| HabitModel.Habit.constructor | habit-tracker-backend/models/Habit.js:31-39 | a new habit has streak 0 and an empty completion map |
| HabitModel.Habit.MarkComplete | habit-tracker-backend/models/Habit.js:53-57 | the date's key is set to true, nothing else in the map changes, and the stored streak is the streak of the new map as of now |
| HabitModel.Habit.CalculateStreak | habit-tracker-backend/models/Habit.js:61-77 | the map is untouched; the value stored and returned is the streak: the length of the run of done days ending today, stopping at the first day that is not done |
| HabitModel.RunBound | habit-tracker-backend/models/Habit.js:65-74 | a run of done days is no longer than the number of done keys, so the walk back always stops |
| HabitModel.StreakBound | habit-tracker-backend/models/Habit.js:61-77 | the streak never exceeds the number of dates marked done |
| HabitModel.StreakUnique | habit-tracker-backend/models/Habit.js:65-74 | the map and today determine the streak: two values meeting its definition are equal |
| HabitModel.StreakZeroIffTodayMissing | habit-tracker-backend/models/Habit.js:64-72 | the streak is 0 if and only if today is not done, however long a run ends yesterday |
| HabitModel.StreakOfThree | habit-tracker-backend/models/Habit.js:65-74 | today, yesterday and the day before done, and the day before those not done, give a streak of 3 |
| HabitModel.MarkIdempotent | habit-tracker-backend/models/Habit.js:53-57 | marking the same date twice leaves the same map and the same streak as marking it once |
| HabitModel.MarkTodayStreakPositive | habit-tracker-backend/models/Habit.js:53-57 | after marking today the streak is at least 1 |
| HabitModel.MarkOutsideRunKeepsStreak | habit-tracker-backend/models/Habit.js:53-57 | marking a day after today, or before the miss that ends the run, leaves the streak unchanged |
| HabitModel.MarkNeverShortens | habit-tracker-backend/models/Habit.js:53-57 | marking a date never decreases the streak |
| HabitModel.Habit.GetCompletionDates | habit-tracker-backend/models/Habit.js:80-84 | the result holds exactly the keys marked true, each once, so its length is the number of done dates |
| HabitModel.ThreeDaysStreak | habit-tracker-backend/models/Habit.js:53-77 | a habit marked on three consecutive days has streak 3 on the third |
| HabitModel.GapResetsStreak | habit-tracker-backend/models/Habit.js:53-77 | after a missed day, marking the next day brings the streak back to 1 |
| HabitModel.ThreeDaysThenGap | habit-tracker-backend/models/Habit.js:53-77 | a new habit marked on three consecutive days, then again after skipping a day, reports streak 3 and then 1 |
| Dashboard.Entries | frontend/script.js:498 | a missing `completed` reads as a map with no dates; otherwise the habit's own map, with the same keys and the same done dates |
| Dashboard.CountDone | frontend/script.js:455 | a habit's count of true values is at most its number of dates, and is 0 exactly when no date is done |
| Dashboard.FindHabit | frontend/script.js:496 | the result is the index of the first habit with the id, or none when no habit has it |
| Dashboard.Toggled | frontend/script.js:497-500 | the habit keeps its id and now has a map; the date flips between done and not done; other dates are unchanged; the streak rises by 1 when the date becomes done, and otherwise falls by 1 but not below 0 |
| Dashboard.ToggleIn | frontend/script.js:495-504 | only the first habit with the id changes, as `Toggled` says; with no such habit the array is unchanged |
| Dashboard.Tracker.ToggleHabitCompletion | frontend/script.js:495-504 | the habits array becomes `ToggleIn` of the old array |
| Dashboard.ToggleTwiceRestoresEntry | frontend/script.js:499 | toggling a date twice restores whether it is done and leaves every other date as it was |
| Dashboard.ToggleTwiceStreak | frontend/script.js:500 | toggling twice restores a non-negative streak if and only if the first toggle does not clamp at 0, that is unless the date was done with streak 0 |
| Dashboard.ToggleTwiceInArray | frontend/script.js:495-504 | toggling the same id and date twice on the array leaves the other habits equal and restores the toggled habit's dates |
| Dashboard.FindHabitSameIds | frontend/script.js:496 | arrays with the same ids in the same order find the same habit, so a toggle does not change which habit the next toggle finds |
| Dashboard.CompletedDays | frontend/script.js:455 | the total of done dates is 0 exactly when no habit has a done date |
| Dashboard.CompletedDaysReplace | frontend/script.js:455 | replacing one habit changes the total by the difference between the two habits' counts |
| Dashboard.ToggleCountDone | frontend/script.js:499 | a toggle changes a habit's number of done dates by exactly one |
| Dashboard.ToggleCompletedDays | frontend/script.js:455 | after a toggle, `completedDays` is one lower if the date was done, one higher if not, and unchanged when no habit has the id |
| Dashboard.CurrentStreak | frontend/script.js:452 | the figure is the maximum of 0 and every habit's streak: at least each of them, and equal to 0 or to one of them |
| Dashboard.ToggleCurrentStreak | frontend/script.js:452 | when all streaks are non-negative, a toggle keeps them so and moves `currentStreak` by at most one |
| Dashboard.Tracker.constructor | frontend/script.js:4-6 | the client starts with no habits and the daily view |
| Dashboard.ViewDays | frontend/script.js:473-488 | seven distinct days ending today, one day apart: oldest first in the daily view and newest first otherwise |
| Dashboard.ViewDaysConsecutive | frontend/script.js:478 | in the daily view each shown date is the calendar day after the previous one; in the other view it is the calendar day before |
| Dashboard.Tracker.GetDatesForView | frontend/script.js:473-488 | seven keys, the j-th being the key of the j-th day of `ViewDays`, all different |
| Dashboard.DailyViewDates | frontend/script.js:476-480 | the loop from 6 down to 0 writes the keys of today-6 .. today, oldest first |
| Dashboard.WeeklyViewDates | frontend/script.js:481-486 | the loop from 0 up to 6 writes the keys of today .. today-6, newest first |
| Dashboard.DistinctDaysDistinctKeys | frontend/script.js:479 | keys of pairwise different days are pairwise different |

## Left out

- Persistence (`this.save()`, `saveHabits`, `localStorage`), the Express routes, authentication, rendering, `fetch` and the chart are not modelled. They are I/O or UI with no logic of the streak's own.
- A route that writes `completed` without recomputing the streak is not part of this model. Only the document methods are modelled.
- HabitModel.Habit.MarkComplete: the source reads the clock once for the default `date` and again inside `calculateStreak`. The model takes the two readings as the separate parameters `date` and `now`.
- Time zones and daylight saving time are not modelled: the model steps back one UTC day at a time. The source starts at UTC midnight (habit-tracker-backend/models/Habit.js:64) and steps with `setDate(getDate() - 1)`, which moves by local calendar day (Habit.js:70). On a server whose zone leaves daylight saving time, the walk then skips one UTC date. In America/New_York on 2024-11-04 it checks 2024-11-04 and then 2024-11-02, so a miss on 2024-11-03 does not end the streak. The model checks every UTC date.
- Dashboard.Tracker.GetDatesForView: the source steps back by local day but writes each key as a UTC date. Near midnight, in a zone far from UTC, the shown keys can be one day off from the local days. The model gives the keys of the UTC days ending at the UTC day of `now`.
- JavaScript's `Date` range is not modelled: the `RangeError` outside ±8.64e15 ms and invalid dates. Years are unbounded, and years that need more than six digits keep all their digits.
- Dates.ParseKey accepts exactly the keys `formatDate` writes (`Dates.ParseKeyExact`) and answers None for every other text. JavaScript's `new Date` reads more strings than these (for instance `+002024-01-01`, or a short year through its fallback parser); the model does not say what it does with them.
- HabitModel.Habit.GetCompletionDates: the source returns keys in the Map's insertion order. The model proves the set, distinctness and count, but not the order.
- `longestStreak` (frontend/script.js:453) is the same expression as `currentStreak`, so `Dashboard.CurrentStreak` covers it.
- `completionRate` (frontend/script.js:456) is not modelled, because it uses floating-point division and `Math.round`.
- The frontend `formatDate` (frontend/script.js:490-493) is not modelled. It is locale-dependent display text and not a key.
- Dashboard.HabitEntry: streaks are integers. Non-numeric or `NaN` streaks, and `completed` values other than booleans, are not modelled. A done date is one whose value is `true`.
- Schema fields other than `streak` and `completed` (name, time, frequency, reminder, userId, createdAt) are not modelled, because the streak logic does not read them.
- Concurrent updates to one document are not modelled.
