/**
 * The browser client's in-memory `habits` array: the local completion
 * toggle, the seven day keys of the calendar view, and the two integer
 * figures of the statistics view.
 */
module Dashboard {
  import opened Wrappers
  import opened Dates
  import opened Completion

  /** A habit as the client holds it; `completed` may be missing (`undefined`). */
  datatype HabitEntry = HabitEntry(id: string, completed: Option<map<string, bool>>, streak: int)

  /** The completion map (`habit.completed || {}`): an absent one has no date at all. */
  function Entries(h: HabitEntry): (m: map<string, bool>)
    ensures forall k :: k in m <==> h.completed.Some? && k in h.completed.value
    ensures forall k :: Done(m, k) <==> h.completed.Some? && Done(h.completed.value, k)
  {
    match h.completed
    case None => map[]
    case Some(m) => m
  }

  function Max(a: int, b: int): int {
    if a >= b then a else b
  }

  /** `habits.find(h => h.id === id)`: the index of the first habit with that id. */
  function FindHabit(hs: seq<HabitEntry>, id: string): (r: Option<nat>)
    ensures r.Some? ==> r.value < |hs| && hs[r.value].id == id
    ensures r.Some? ==> forall j :: 0 <= j < r.value ==> hs[j].id != id
    ensures r.None? ==> forall j :: 0 <= j < |hs| ==> hs[j].id != id
  {
    if hs == [] then None
    else if hs[0].id == id then Some(0)
    else match FindHabit(hs[1..], id)
      case None => None
      case Some(i) => Some(i + 1)
  }

  /** One habit after `toggleHabitCompletion` has flipped `date` on it. */
  function Toggled(h: HabitEntry, date: string): (r: HabitEntry)
    ensures r.id == h.id && r.completed.Some?
    ensures date in Entries(r) && Done(Entries(r), date) == !Done(Entries(h), date)
    ensures Entries(r) - {date} == Entries(h) - {date}
    ensures Done(Entries(r), date) ==> r.streak == h.streak + 1
    ensures !Done(Entries(r), date) ==> r.streak == Max(0, h.streak - 1)
  {
    var m := Entries(h);
    var now := !Done(m, date);
    h.(completed := Some(m[date := now]), streak := if now then h.streak + 1 else Max(0, h.streak - 1))
  }

  /** The whole array after toggling `date` on the habit `id`: that habit alone changes, and only if it exists. */
  function ToggleIn(hs: seq<HabitEntry>, id: string, date: string): (r: seq<HabitEntry>)
    ensures |r| == |hs| && forall j :: 0 <= j < |hs| ==> r[j].id == hs[j].id
    ensures FindHabit(hs, id).None? ==> r == hs
    ensures FindHabit(hs, id).Some? ==>
      var i := FindHabit(hs, id).value;
      r[i] == Toggled(hs[i], date) && forall j :: 0 <= j < |hs| && j != i ==> r[j] == hs[j]
  {
    match FindHabit(hs, id)
    case None => hs
    case Some(i) => hs[i := Toggled(hs[i], date)]
  }

  /** The number of dates a habit has marked done (`Object.values(h.completed).filter(Boolean).length`). */
  function CountDone(h: HabitEntry): (n: nat)
    ensures n <= |Entries(h)|
    ensures n == 0 <==> forall k :: !Done(Entries(h), k)
  {
    TrueKeysWithin(Entries(h));
    |TrueKeys(Entries(h))|
  }

  /** `completedDays`: done dates summed over all habits. */
  function CompletedDays(hs: seq<HabitEntry>): (r: nat)
    ensures r == 0 <==> forall i :: 0 <= i < |hs| ==> CountDone(hs[i]) == 0
  {
    if hs == [] then 0 else CompletedDays(hs[..|hs| - 1]) + CountDone(hs[|hs| - 1])
  }

  /** `currentStreak`: `Math.max(...habits.map(h => h.streak), 0)`. */
  function CurrentStreak(hs: seq<HabitEntry>): (r: int)
    ensures r >= 0
    ensures forall i :: 0 <= i < |hs| ==> hs[i].streak <= r
    ensures r == 0 || exists i :: 0 <= i < |hs| && hs[i].streak == r
  {
    if hs == [] then 0 else Max(CurrentStreak(hs[..|hs| - 1]), hs[|hs| - 1].streak)
  }

  /** The client's global state: the habits array and the calendar view mode. */
  class Tracker {
    var habits: seq<HabitEntry>
    var trackerView: string

    constructor ()
      ensures habits == [] && trackerView == "daily"
    {
      habits := [];
      trackerView := "daily";
    }

    /**
     * `toggleHabitCompletion(id, date)`: on the first habit with that id,
     * create the map if missing, flip the date, and move the streak by one
     * (never below 0). No habit with that id: nothing changes.
     */
    method ToggleHabitCompletion(id: string, date: string)
      modifies this`habits
      ensures habits == ToggleIn(old(habits), id, date)
    {
      var found := FindHabit(habits, id);
      if found.Some? {
        var i := found.value;
        var habit := habits[i];
        var completed := Entries(habit);
        completed := completed[date := !Done(completed, date)];
        var streak := if Done(completed, date) then habit.streak + 1 else Max(0, habit.streak - 1);
        habits := habits[i := habit.(completed := Some(completed), streak := streak)];
      }
    }

    /**
     * `getDatesForView()`: the keys of the seven days ending today, oldest
     * first in the daily view and newest first otherwise.
     */
    method GetDatesForView(now: Instant) returns (dates: seq<string>)
      ensures |dates| == 7
      ensures forall j :: 0 <= j < 7 ==> dates[j] == DateKey(ViewDays(UtcDay(now), trackerView == "daily")[j])
      ensures forall j, k :: 0 <= j < k < 7 ==> dates[j] != dates[k]
    {
      var today := UtcDay(now);
      var daily := trackerView == "daily";
      if daily {
        dates := DailyViewDates(today);
      } else {
        dates := WeeklyViewDates(today);
      }
      DistinctDaysDistinctKeys(ViewDays(today, daily), dates);
    }
  }

  /** The daily view's loop: `i` from 6 down to 0, the key of `today - i`. */
  method DailyViewDates(today: Day) returns (dates: seq<string>)
    ensures |dates| == 7 && forall j :: 0 <= j < 7 ==> dates[j] == DateKey(ViewDays(today, true)[j])
  {
    ghost var days := ViewDays(today, true);
    dates := [];
    var i := 6;
    while i >= 0
      invariant -1 <= i <= 6 && |dates| == 6 - i
      invariant forall j :: 0 <= j < |dates| ==> dates[j] == DateKey(days[j])
    {
      var day := today - i;
      assert days[|dates|] == day;
      dates := dates + [DateKey(day)];
      i := i - 1;
    }
  }

  /** The other view's loop: `i` from 0 up to 6, the key of `today - i`. */
  method WeeklyViewDates(today: Day) returns (dates: seq<string>)
    ensures |dates| == 7 && forall j :: 0 <= j < 7 ==> dates[j] == DateKey(ViewDays(today, false)[j])
  {
    ghost var days := ViewDays(today, false);
    dates := [];
    var i := 0;
    while i < 7
      invariant 0 <= i <= 7 && |dates| == i
      invariant forall j :: 0 <= j < |dates| ==> dates[j] == DateKey(days[j])
    {
      var day := today - i;
      assert days[i] == day;
      dates := dates + [DateKey(day)];
      i := i + 1;
    }
  }

  /** The seven day numbers the calendar view shows. */
  function ViewDays(today: Day, daily: bool): (days: seq<Day>)
    ensures |days| == 7
    ensures days[0] == (if daily then today - 6 else today)
    ensures days[6] == (if daily then today else today - 6)
    ensures forall j :: 0 <= j < 6 ==> days[j + 1] == days[j] + (if daily then 1 else -1)
    ensures forall j, k :: 0 <= j < k < 7 ==> days[j] != days[k]
  {
    seq(7, j => if daily then today - 6 + j else today - j)
  }

  // ---------------------------------------------------------------------
  // Properties of the toggle

  /** Toggling twice restores whether the date is done, and leaves every other date as it was. */
  lemma ToggleTwiceRestoresEntry(h: HabitEntry, date: string)
    ensures Done(Entries(Toggled(Toggled(h, date), date)), date) == Done(Entries(h), date)
    ensures Entries(Toggled(Toggled(h, date), date)) - {date} == Entries(h) - {date}
  {
  }

  /**
   * Toggling twice gives the streak back exactly when it does not hit the
   * floor at 0 on the way: a done date with streak 0 comes back as 1.
   */
  lemma ToggleTwiceStreak(h: HabitEntry, date: string)
    requires h.streak >= 0
    ensures Toggled(Toggled(h, date), date).streak == h.streak <==> (Done(Entries(h), date) ==> h.streak >= 1)
  {
  }

  /** Toggling `(id, date)` twice on the array: same habits, same ids, the toggled habit's date restored. */
  lemma ToggleTwiceInArray(hs: seq<HabitEntry>, id: string, date: string)
    ensures var twice := ToggleIn(ToggleIn(hs, id, date), id, date);
      |twice| == |hs| &&
      match FindHabit(hs, id)
      case None => twice == hs
      case Some(i) =>
        && Done(Entries(twice[i]), date) == Done(Entries(hs[i]), date)
        && Entries(twice[i]) - {date} == Entries(hs[i]) - {date}
        && forall j :: 0 <= j < |hs| && j != i ==> twice[j] == hs[j]
  {
    var once := ToggleIn(hs, id, date);
    FindHabitSameIds(hs, once, id);
    if FindHabit(hs, id).Some? {
      ToggleTwiceRestoresEntry(hs[FindHabit(hs, id).value], date);
    }
  }

  /** Arrays with the same ids in the same order find the same habit. */
  lemma {:induction false} FindHabitSameIds(hs: seq<HabitEntry>, other: seq<HabitEntry>, id: string)
    requires |hs| == |other| && forall j :: 0 <= j < |hs| ==> hs[j].id == other[j].id
    ensures FindHabit(hs, id) == FindHabit(other, id)
  {
    if hs != [] && hs[0].id != id {
      FindHabitSameIds(hs[1..], other[1..], id);
    }
  }

  /** A toggle moves a habit's done count by exactly one. */
  lemma ToggleCountDone(h: HabitEntry, date: string)
    ensures CountDone(Toggled(h, date)) == CountDone(h) + (if Done(Entries(h), date) then -1 else 1)
  {
    TrueKeysAfterSet(Entries(h), date, !Done(Entries(h), date));
  }

  /** Replacing one habit changes the total by the difference of the two habits' counts. */
  lemma {:induction false} CompletedDaysReplace(hs: seq<HabitEntry>, i: nat, h: HabitEntry)
    requires i < |hs|
    ensures CompletedDays(hs[i := h]) == CompletedDays(hs) - CountDone(hs[i]) + CountDone(h)
  {
    var last := |hs| - 1;
    if i < last {
      assert hs[i := h][..last] == hs[..last][i := h];
      CompletedDaysReplace(hs[..last], i, h);
    } else {
      assert hs[i := h][..last] == hs[..last];
    }
  }

  /** `completedDays` after a toggle: one more or one fewer, or the same when no habit has the id. */
  lemma ToggleCompletedDays(hs: seq<HabitEntry>, id: string, date: string)
    ensures CompletedDays(ToggleIn(hs, id, date)) ==
      match FindHabit(hs, id)
      case None => CompletedDays(hs)
      case Some(i) => CompletedDays(hs) + (if Done(Entries(hs[i]), date) then -1 else 1)
  {
    if FindHabit(hs, id).Some? {
      var i := FindHabit(hs, id).value;
      CompletedDaysReplace(hs, i, Toggled(hs[i], date));
      ToggleCountDone(hs[i], date);
    }
  }

  /** With every streak non-negative, a toggle keeps it so and moves `currentStreak` by at most one. */
  lemma ToggleCurrentStreak(hs: seq<HabitEntry>, id: string, date: string)
    requires forall j :: 0 <= j < |hs| ==> hs[j].streak >= 0
    ensures forall j :: 0 <= j < |hs| ==> ToggleIn(hs, id, date)[j].streak >= 0
    ensures CurrentStreak(hs) - 1 <= CurrentStreak(ToggleIn(hs, id, date)) <= CurrentStreak(hs) + 1
  {
    var after := ToggleIn(hs, id, date);
    if FindHabit(hs, id).Some? {
      var i := FindHabit(hs, id).value;
      var r := CurrentStreak(hs);
      if r > 0 {
        var k :| 0 <= k < |hs| && hs[k].streak == r;
        assert after[k].streak >= r - 1;
      }
    }
  }

  // ---------------------------------------------------------------------
  // Properties of the calendar view

  /** Keys of different days are different keys. */
  lemma DistinctDaysDistinctKeys(days: seq<Day>, keys: seq<string>)
    requires |keys| == |days| && forall j :: 0 <= j < |days| ==> keys[j] == DateKey(days[j])
    requires forall j, k :: 0 <= j < k < |days| ==> days[j] != days[k]
    ensures forall j, k :: 0 <= j < k < |keys| ==> keys[j] != keys[k]
  {
    forall j, k | 0 <= j < k < |keys| ensures keys[j] != keys[k] {
      DateKeyInjective(days[j], days[k]);
    }
  }

  /** In the daily view each shown day is the calendar day after the one before it; otherwise the day before it. */
  lemma ViewDaysConsecutive(today: Day, daily: bool, j: int)
    requires 0 <= j < 6
    ensures var days := ViewDays(today, daily);
      CivilOf(days[j + 1]) == if daily then Next(CivilOf(days[j])) else Prev(CivilOf(days[j]))
  {
    var days := ViewDays(today, daily);
    if daily {
      CivilOfFollowing(days[j]);
    } else {
      CivilOfPrevious(days[j]);
    }
  }
}
