/**
 * The server-side habit document: its completion map, the streak derived
 * from it, and the three model methods `markComplete`, `calculateStreak`
 * and `getCompletionDates`.
 */
module HabitModel {
  import opened Dates
  import opened Completion

  /** Days today-n+1, ..., today-1, today are all done. */
  ghost predicate DoneRun(m: map<string, bool>, today: Day, n: int) {
    forall d: Day :: today - n < d <= today ==> Done(m, DateKey(d))
  }

  /** `n` is the streak of `m` seen from `today`: a run of n done days ending today, and day today-n not done. */
  ghost predicate IsStreak(m: map<string, bool>, today: Day, n: int) {
    0 <= n && DoneRun(m, today, n) && !Done(m, DateKey(today - n))
  }

  /** The keys of days first, first+1, ..., last. */
  ghost function RangeKeys(first: Day, last: Day): set<string> {
    set d: Day | first <= d <= last :: DateKey(d)
  }

  lemma RangeKeysStep(first: Day, last: Day)
    requires first <= last
    ensures RangeKeys(first, last) == RangeKeys(first + 1, last) + {DateKey(first)}
  {
    var shorter := RangeKeys(first + 1, last);
    forall k | k in RangeKeys(first, last) ensures k in shorter + {DateKey(first)} {
      var d: Day :| first <= d <= last && DateKey(d) == k;
    }
  }

  lemma FirstKeyNotInRest(first: Day, last: Day)
    ensures DateKey(first) !in RangeKeys(first + 1, last)
  {
    if DateKey(first) in RangeKeys(first + 1, last) {
      var d: Day :| first + 1 <= d <= last && DateKey(d) == DateKey(first);
      DateKeyInjective(d, first);
    }
  }

  /** Distinct days have distinct keys, so a range of days has as many keys as days. */
  lemma {:induction false} RangeKeysCount(first: Day, last: Day)
    requires first <= last + 1
    ensures |RangeKeys(first, last)| == last - first + 1
    decreases last - first
  {
    if first <= last {
      RangeKeysCount(first + 1, last);
      RangeKeysStep(first, last);
      FirstKeyNotInRest(first, last);
    } else {
      assert RangeKeys(first, last) == {};
    }
  }

  /** A run of done days is no longer than the number of done keys: the backward walk must stop. */
  lemma RunBound(m: map<string, bool>, today: Day, n: nat)
    requires DoneRun(m, today, n)
    ensures n <= |TrueKeys(m)|
  {
    RangeKeysCount(today - n + 1, today);
    var run, done := RangeKeys(today - n + 1, today), TrueKeys(m);
    assert run <= done;
    assert done == run + (done - run);
  }

  /** At most one n is the streak: where the walk stops is fixed by the map and today. */
  lemma StreakUnique(m: map<string, bool>, today: Day, a: int, b: int)
    requires IsStreak(m, today, a) && IsStreak(m, today, b)
    ensures a == b
  {
  }

  /** The streak never exceeds the number of days marked done. */
  lemma StreakBound(m: map<string, bool>, today: Day, n: int)
    requires IsStreak(m, today, n)
    ensures n <= |TrueKeys(m)|
  {
    RunBound(m, today, n);
  }

  /** The streak is 0 exactly when today is not done, however long a run ends yesterday. */
  lemma StreakZeroIffTodayMissing(m: map<string, bool>, today: Day, n: int)
    requires IsStreak(m, today, n)
    ensures n == 0 <==> !Done(m, DateKey(today))
  {
  }

  /** Three done days ending today and a miss before them make a streak of 3. */
  lemma StreakOfThree(m: map<string, bool>, today: Day)
    requires Done(m, DateKey(today)) && Done(m, DateKey(today - 1)) && Done(m, DateKey(today - 2))
    requires !Done(m, DateKey(today - 3))
    ensures IsStreak(m, today, 3)
  {
    forall d: Day | today - 3 < d <= today ensures Done(m, DateKey(d)) {
      assert d == today || d == today - 1 || d == today - 2;
    }
  }

  /** Marking a day is idempotent: the map, and so the streak, is the same after a second mark. */
  lemma MarkIdempotent(m: map<string, bool>, d: Day, today: Day, once: int, twice: int)
    requires IsStreak(m[DateKey(d) := true], today, once)
    requires IsStreak(m[DateKey(d) := true][DateKey(d) := true], today, twice)
    ensures m[DateKey(d) := true][DateKey(d) := true] == m[DateKey(d) := true]
    ensures once == twice
  {
    var k := DateKey(d);
    assert m[k := true][k := true] == m[k := true];
    StreakUnique(m[k := true], today, once, twice);
  }

  /** Marking today gives a streak of at least 1. */
  lemma MarkTodayStreakPositive(m: map<string, bool>, today: Day, n: int)
    requires IsStreak(m[DateKey(today) := true], today, n)
    ensures n >= 1
  {
  }

  /**
   * The streak is measured from today, not from the marked day: marking a
   * day after today, or a day before the miss that ends the run, leaves it as it was.
   */
  lemma MarkOutsideRunKeepsStreak(m: map<string, bool>, today: Day, n: int, d: Day)
    requires IsStreak(m, today, n)
    requires d > today || d < today - n
    ensures IsStreak(m[DateKey(d) := true], today, n)
  {
    AllDateKeysDistinct();
  }

  /** Marking a day never shortens the streak. */
  lemma MarkNeverShortens(m: map<string, bool>, d: Day, today: Day, before: int, after: int)
    requires IsStreak(m, today, before)
    requires IsStreak(m[DateKey(d) := true], today, after)
    ensures before <= after
  {
  }

  /** The server-side habit document (only the fields the streak logic touches). */
  class Habit {
    var completed: map<string, bool>
    var streak: int

    /** A new habit: schema defaults `streak: 0` and `completed: {}`. */
    constructor ()
      ensures completed == map[] && streak == 0
    {
      completed := map[];
      streak := 0;
    }

    /**
     * `markComplete(date)`: set the date's key to true, then recompute the
     * streak as seen at `now` (`date` defaults to `now` in the source).
     */
    method MarkComplete(date: Instant, now: Instant)
      modifies this
      ensures completed == old(completed)[FormatDate(date) := true]
      ensures IsStreak(completed, UtcDay(now), streak)
    {
      var dateStr := FormatDate(date);
      completed := completed[dateStr := true];
      var _ := CalculateStreak(now);
    }

    /**
     * `calculateStreak()`: walk back from today's key one day at a time while
     * the day is done; store and return the count. `completed` is untouched.
     */
    method CalculateStreak(now: Instant) returns (count: int)
      modifies this`streak
      ensures count == streak
      ensures IsStreak(completed, UtcDay(now), count)
    {
      count := 0;
      var current := UtcDay(now);  // new Date(formatDate(new Date())): today's UTC midnight
      while true
        invariant 0 <= count && current == UtcDay(now) - count
        invariant DoneRun(completed, UtcDay(now), count)
        decreases |TrueKeys(completed)| - count
      {
        var dateStr := DateKey(current);
        if Done(completed, dateStr) {
          RunBound(completed, UtcDay(now), count + 1);
          count := count + 1;
          current := current - 1;
        } else {
          break;
        }
      }
      streak := count;
    }

    /** `getCompletionDates()`: every key marked true, each once. */
    method GetCompletionDates() returns (dates: seq<string>)
      ensures forall k :: k in dates <==> Done(completed, k)
      ensures forall i, j :: 0 <= i < j < |dates| ==> dates[i] != dates[j]
      ensures |dates| == |TrueKeys(completed)|
    {
      dates := [];
      var rest := completed.Keys;
      while rest != {}
        invariant rest <= completed.Keys
        invariant forall k :: k in dates <==> Done(completed, k) && k !in rest
        invariant forall i, j :: 0 <= i < j < |dates| ==> dates[i] != dates[j]
        decreases rest
      {
        var k :| k in rest;
        if completed[k] {
          dates := dates + [k];
        }
        rest := rest - {k};
      }
      DistinctCount(dates, TrueKeys(completed));
    }
  }

  /** A sequence without repeats has as many elements as the set of its elements. */
  lemma {:induction false} DistinctCount(s: seq<string>, elems: set<string>)
    requires forall i, j :: 0 <= i < j < |s| ==> s[i] != s[j]
    requires forall k :: k in s <==> k in elems
    ensures |s| == |elems|
  {
    if s != [] {
      var last := s[|s| - 1];
      var init := s[..|s| - 1];
      assert forall k :: k in init <==> k in elems - {last} by {
        forall k ensures k in init <==> k in elems - {last} {
          if k in init {
            var i :| 0 <= i < |init| && init[i] == k;
            assert s[i] == k;
          }
          if k in elems - {last} {
            var i :| 0 <= i < |s| && s[i] == k;
            assert i < |s| - 1;
            assert init[i] == k;
          }
        }
      }
      DistinctCount(init, elems - {last});
    } else {
      assert forall k :: k !in elems;
    }
  }

  /** The map after marking days d, d+1 and d+2. */
  function ThreeDays(d: Day): map<string, bool> {
    map[DateKey(d) := true, DateKey(d + 1) := true, DateKey(d + 2) := true]
  }

  /** A day outside d..d+2 is not in `ThreeDays(d)`. */
  lemma OutsideThreeDays(d: Day, x: Day)
    requires x < d || d + 2 < x
    ensures DateKey(x) !in ThreeDays(d)
  {
    DateKeyInjective(x, d);
    DateKeyInjective(x, d + 1);
    DateKeyInjective(x, d + 2);
    AbsentFromThree(DateKey(x), DateKey(d), DateKey(d + 1), DateKey(d + 2));
  }

  lemma AbsentFromThree(k: string, a: string, b: string, c: string)
    requires k != a && k != b && k != c
    ensures k !in map[a := true, b := true, c := true]
  {
  }

  /** Marked on d, d+1 and d+2, the habit has a streak of 3 on day d+2. */
  lemma ThreeDaysStreak(d: Day)
    ensures IsStreak(ThreeDays(d), d + 2, 3)
  {
    OutsideThreeDays(d, d - 1);
    StreakOfThree(ThreeDays(d), d + 2);
  }

  /** After missing day d+3 and marking d+4, the streak on day d+4 is back to 1. */
  lemma GapResetsStreak(d: Day)
    ensures IsStreak(ThreeDays(d)[DateKey(d + 4) := true], d + 4, 1)
  {
    var m := ThreeDays(d)[DateKey(d + 4) := true];
    OutsideThreeDays(d, d + 3);
    DateKeyInjective(d + 3, d + 4);
    assert !Done(m, DateKey(d + 3));
    assert DoneRun(m, d + 4, 1) by {
      forall x: Day | d + 3 < x <= d + 4 ensures Done(m, DateKey(x)) {
        assert x == d + 4;
      }
    }
  }

  /**
   * A habit marked on three consecutive days, then on the day after a
   * missed one: its streak goes to 3, then back to 1.
   */
  method ThreeDaysThenGap(d: Day) returns (afterThree: int, afterGap: int)
    ensures afterThree == 3 && afterGap == 1
  {
    var h := new Habit();
    UtcDayOfMidnight(d);
    h.MarkComplete(d * MsPerDay, d * MsPerDay);
    UtcDayOfMidnight(d + 1);
    h.MarkComplete((d + 1) * MsPerDay, (d + 1) * MsPerDay);
    UtcDayOfMidnight(d + 2);
    h.MarkComplete((d + 2) * MsPerDay, (d + 2) * MsPerDay);
    assert h.completed == ThreeDays(d);
    afterThree := h.streak;
    ThreeDaysStreak(d);
    StreakUnique(ThreeDays(d), d + 2, afterThree, 3);
    UtcDayOfMidnight(d + 4);
    h.MarkComplete((d + 4) * MsPerDay, (d + 4) * MsPerDay);
    afterGap := h.streak;
    GapResetsStreak(d);
    StreakUnique(h.completed, d + 4, afterGap, 1);
  }
}
