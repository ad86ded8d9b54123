/** The habit list: today's completion toggle, the derived streak and the
    completions counter of the statistics view. Dates are day numbers. */
module Habits {
  import opened Wrappers
  import opened Text
  import opened Dates

  /** A habit record; a missing `completions` list reads as empty. */
  datatype Habit = Habit(
    name: string,
    created: int,
    active: bool,
    description: Option<string>,
    completions: seq<int>)

  /** `add_habit`: a blank name is rejected; a new habit is active, has no
      completions, and keeps the stripped description when that is not blank. */
  function NewHabit(name: string, created: int, description: string): (r: Result<Habit, string>)
    ensures r.Ok? <==> !AllSpace(name)
    ensures r.Ok? ==> r.value.name == Strip(name) && r.value.name != []
    ensures r.Ok? ==> r.value.active && r.value.completions == [] && r.value.created == created
    ensures r.Ok? ==> r.value.description == if AllSpace(description) then None else Some(Strip(description))
  {
    StripEmptyIffBlank(name);
    StripEmptyIffBlank(description);
    var n := Strip(name);
    var d := Strip(description);
    if n == [] then Err("Habit name cannot be empty!")
    else Ok(Habit(n, created, true, if d == [] then None else Some(d), []))
  }

  predicate NoDup(s: seq<int>) {
    forall i, j :: 0 <= i < j < |s| ==> s[i] != s[j]
  }

  /** Position of the first occurrence of `x`. */
  function IndexOf(s: seq<int>, x: int): (i: nat)
    requires x in s
    ensures i < |s| && s[i] == x && x !in s[..i]
  {
    if s[0] == x then 0
    else
      var i := IndexOf(s[1..], x) + 1;
      assert s[..i] == [s[0]] + s[1..][..i - 1];
      i
  }

  /** Python's `list.remove(x)`: drops the first occurrence of `x` and keeps
      the order of everything else; a list without `x` is returned as is
      (the source only calls it after checking `x in list`). */
  function RemoveFirst(s: seq<int>, x: int): (r: seq<int>)
    ensures x !in s ==> r == s
    ensures x in s ==> r == s[..IndexOf(s, x)] + s[IndexOf(s, x) + 1..]
  {
    if s == [] then []
    else if s[0] == x then s[1..]
    else
      var t := RemoveFirst(s[1..], x);
      if x in s then
        assert x in s[1..];
        SkipAfterHead(s, IndexOf(s[1..], x));
        [s[0]] + t
      else
        assert s == [s[0]] + s[1..];
        [s[0]] + t
  }

  /** As a bag, the result is the input with one copy of `x` taken out. */
  lemma RemoveFirstMultiset(s: seq<int>, x: int)
    ensures multiset(RemoveFirst(s, x)) == multiset(s) - multiset{x}
    ensures |RemoveFirst(s, x)| == if x in s then |s| - 1 else |s|
  {
    if x in s {
      var i := IndexOf(s, x);
      Around(s, i);
      DropOne(s[..i], x, s[i + 1..]);
    } else {
      assert x !in multiset(s);
    }
  }

  /** Dropping element `j` of the tail, with the head put back, is dropping
      element `j + 1` of the whole. */
  lemma SkipAfterHead<T>(s: seq<T>, j: int)
    requires 0 <= j < |s| - 1
    ensures [s[0]] + (s[1..][..j] + s[1..][j + 1..]) == s[..j + 1] + s[j + 2..]
  {
    assert s[..j + 1] == [s[0]] + s[1..][..j];
  }

  /** A sequence is the part before `i`, element `i` and the part after. */
  lemma Around<T>(s: seq<T>, i: int)
    requires 0 <= i < |s|
    ensures s == s[..i] + [s[i]] + s[i + 1..]
  {
  }

  /** Taking one `x` out of the middle of a sequence. */
  lemma DropOne<T>(a: seq<T>, x: T, b: seq<T>)
    ensures multiset(a + b) == multiset(a + [x] + b) - multiset{x}
  {
  }

  lemma NoDupMultiset(s: seq<int>)
    ensures NoDup(s) <==> forall x :: multiset(s)[x] <= 1
  {
    if NoDup(s) {
      forall x ensures multiset(s)[x] <= 1 {
        NoDupCount(s, x);
      }
    } else {
      var i, j :| 0 <= i < j < |s| && s[i] == s[j];
      TwoCopies(s, i, j);
    }
  }

  lemma {:induction false} NoDupCount(s: seq<int>, x: int)
    requires NoDup(s)
    ensures multiset(s)[x] <= 1
  {
    if s != [] {
      assert s == [s[0]] + s[1..];
      NoDupCount(s[1..], x);
      if s[0] == x {
        assert x !in s[1..];
      }
    }
  }

  lemma {:induction false} TwoCopies(s: seq<int>, i: int, j: int)
    requires 0 <= i < j < |s| && s[i] == s[j]
    ensures multiset(s)[s[i]] >= 2
  {
    assert s == s[..i] + [s[i]] + s[i + 1..];
    assert s[j] in s[i + 1..];
  }

  /** The habit `toggle_completion` callback on the completions list: when
      checked, today is appended unless present; when unchecked, its first
      occurrence is removed. */
  function ToggleToday(completions: seq<int>, today: int, checked: bool): (r: seq<int>)
    ensures checked ==> today in r
    ensures checked ==> r == if today in completions then completions else completions + [today]
    ensures !checked ==> multiset(r) == multiset(completions) - multiset{today}
  {
    RemoveFirstMultiset(completions, today);
    if checked then
      if today in completions then completions else completions + [today]
    else if today in completions then RemoveFirst(completions, today)
    else completions
  }

  /** A toggle never creates a duplicate date, and on a list without
      duplicates unchecking leaves today out. */
  lemma ToggleKeepsDatesUnique(completions: seq<int>, today: int, checked: bool)
    requires NoDup(completions)
    ensures NoDup(ToggleToday(completions, today, checked))
    ensures today in ToggleToday(completions, today, checked) <==> checked
  {
    var r := ToggleToday(completions, today, checked);
    NoDupMultiset(completions);
    if checked && today !in completions {
      assert multiset(r) == multiset(completions) + multiset{today};
    }
    NoDupMultiset(r);
    if !checked {
      assert multiset(completions)[today] <= 1;
      assert multiset(r)[today] == 0;
    }
  }

  /** Whether the toggle earns the 15 XP: only when today was newly added. */
  function ToggleEarnsXp(completions: seq<int>, today: int, checked: bool): (r: bool)
    ensures r <==> |ToggleToday(completions, today, checked)| == |completions| + 1
  {
    checked && today !in completions
  }

  // ----- Streak -----

  predicate Descending(s: seq<int>) {
    forall i, j :: 0 <= i < j < |s| ==> s[i] >= s[j]
  }

  function InsertDesc(x: int, s: seq<int>): (r: seq<int>)
    ensures multiset(r) == multiset(s) + multiset{x}
    ensures |r| == |s| + 1
  {
    if s == [] || x >= s[0] then [x] + s
    else
      assert s == [s[0]] + s[1..];
      [s[0]] + InsertDesc(x, s[1..])
  }

  /** `sorted(dates, reverse=True)`. */
  function SortDesc(s: seq<int>): (r: seq<int>)
    ensures multiset(r) == multiset(s)
    ensures |r| == |s|
  {
    if s == [] then []
    else
      assert s == [s[0]] + s[1..];
      InsertDesc(s[0], SortDesc(s[1..]))
  }

  lemma {:induction false} InsertDescSorted(x: int, s: seq<int>)
    requires Descending(s)
    ensures Descending(InsertDesc(x, s))
  {
    if s != [] && x < s[0] {
      InsertDescSorted(x, s[1..]);
      var r := InsertDesc(x, s);
      var tail := InsertDesc(x, s[1..]);
      assert r == [s[0]] + tail;
      forall j | 0 < j < |r| ensures s[0] >= r[j] {
        assert r[j] in multiset(s[1..]) + multiset{x};
        if r[j] != x {
          assert r[j] in s[1..];
        }
      }
    }
  }

  lemma {:induction false} SortDescSorted(s: seq<int>)
    ensures Descending(SortDesc(s))
  {
    if s != [] {
      SortDescSorted(s[1..]);
      InsertDescSorted(s[0], SortDesc(s[1..]));
    }
  }

  /** The length of the leading run `today, today-1, ...` of a list. */
  function LeadingRun(dates: seq<int>, today: int): (r: nat)
    ensures r <= |dates|
  {
    if dates == [] || dates[0] != today then 0 else 1 + LeadingRun(dates[1..], today - 1)
  }

  /** `calculate_habit_streak`: walks the dates, newest first, while each
      is the day expected next. */
  method CalculateHabitStreak(completions: seq<int>, today: int) returns (streak: nat)
    ensures streak == LeadingRun(SortDesc(completions), today)
  {
    if |completions| == 0 {
      return 0;
    }
    var dates := SortDesc(completions);
    streak := CountRun(dates, today);
  }

  /** The loop of `calculate_habit_streak` over the sorted dates. */
  method CountRun(dates: seq<int>, today: int) returns (streak: nat)
    ensures streak == LeadingRun(dates, today)
  {
    streak := 0;
    var expected := today;
    var i := 0;
    while i < |dates|
      invariant 0 <= i <= |dates| && streak == i && expected == today - i
      invariant LeadingRun(dates, today) == i + LeadingRun(dates[i..], expected)
    {
      if dates[i] == expected {
        assert dates[i..][1..] == dates[i + 1..];
        streak := streak + 1;
        expected := expected - 1;
        i := i + 1;
      } else {
        break;
      }
    }
  }

  /** `k` consecutive days ending today are all in `dates`, and the day
      before them is not. */
  predicate IsRun(dates: seq<int>, today: int, k: int) {
    (forall day :: today - k < day <= today ==> day in dates) && today - k !in dates
  }

  /** On a list of distinct dates none after today, the run counts exactly
      the consecutive days ending today that are present. */
  lemma {:induction false} LeadingRunMeaning(dates: seq<int>, today: int)
    requires forall i, j :: 0 <= i < j < |dates| ==> dates[i] > dates[j]
    requires forall i :: 0 <= i < |dates| ==> dates[i] <= today
    ensures IsRun(dates, today, LeadingRun(dates, today))
  {
    if dates != [] && dates[0] == today {
      var rest := dates[1..];
      LeadingRunMeaning(rest, today - 1);
      var k := LeadingRun(dates, today);
      forall day | today - k < day <= today ensures day in dates {
        if day < today {
          assert day in rest;
        }
      }
      assert today - k !in rest;
    }
  }

  /** The streak of a habit whose dates are distinct and none in the
      future: `k` such that today, today-1, ..., today-k+1 are all
      completion dates and today-k is not. */
  lemma HabitStreakMeaning(completions: seq<int>, today: int)
    requires NoDup(completions)
    requires forall i :: 0 <= i < |completions| ==> completions[i] <= today
    ensures IsRun(completions, today, LeadingRun(SortDesc(completions), today))
  {
    SortDescStrict(completions, today);
    SameDates(completions);
    RunOfSameDates(completions, SortDesc(completions), today);
  }

  /** `LeadingRunMeaning` carried over to any list holding the same dates. */
  lemma RunOfSameDates(c: seq<int>, d: seq<int>, today: int)
    requires forall x :: x in d <==> x in c
    requires forall i, j :: 0 <= i < j < |d| ==> d[i] > d[j]
    requires forall i :: 0 <= i < |d| ==> d[i] <= today
    ensures IsRun(c, today, LeadingRun(d, today))
  {
    LeadingRunMeaning(d, today);
  }

  /** Sorting keeps exactly the same dates. */
  lemma SameDates(s: seq<int>)
    ensures forall x :: x in SortDesc(s) <==> x in s
  {
    forall x ensures x in SortDesc(s) <==> x in s {
      assert x in SortDesc(s) <==> x in multiset(SortDesc(s));
    }
  }

  /** Sorting distinct dates none after today gives a strictly descending
      list of the same dates. */
  lemma SortDescStrict(completions: seq<int>, today: int)
    requires NoDup(completions)
    requires forall i :: 0 <= i < |completions| ==> completions[i] <= today
    ensures forall i, j :: 0 <= i < j < |SortDesc(completions)| ==> SortDesc(completions)[i] > SortDesc(completions)[j]
    ensures forall i :: 0 <= i < |SortDesc(completions)| ==> SortDesc(completions)[i] <= today
  {
    var d := SortDesc(completions);
    SortDescSorted(completions);
    forall i | 0 <= i < |d| ensures d[i] <= today {
      assert d[i] in multiset(completions);
    }
    NoDupMultiset(completions);
    NoDupMultiset(d);
    forall i, j | 0 <= i < j < |d| ensures d[i] > d[j] {
      assert d[i] >= d[j];
    }
  }

  /** A completion dated after today puts the newest date first, so the
      streak is 0 whatever else the list holds. */
  lemma FutureDateZeroesStreak(completions: seq<int>, today: int, i: int)
    requires 0 <= i < |completions| && completions[i] > today
    ensures LeadingRun(SortDesc(completions), today) == 0
  {
    var d := SortDesc(completions);
    SortDescSorted(completions);
    assert completions[i] in multiset(d);
    var j :| 0 <= j < |d| && d[j] == completions[i];
    assert d[0] >= d[j];
  }

  /** At most one run length fits a list of dates. */
  lemma IsRunUnique(dates: seq<int>, today: int, k: nat, n: nat)
    requires IsRun(dates, today, k) && IsRun(dates, today, n)
    ensures k == n
  {
    assert !(today - n < today - k <= today);
    assert !(today - k < today - n <= today);
  }

  /** Conversely: when exactly the `n` days ending today are present (and
      the day before them is not), the streak is `n`. */
  lemma StreakOfRun(completions: seq<int>, today: int, n: nat)
    requires NoDup(completions)
    requires forall i :: 0 <= i < |completions| ==> completions[i] <= today
    requires IsRun(completions, today, n)
    ensures LeadingRun(SortDesc(completions), today) == n
  {
    HabitStreakMeaning(completions, today);
    IsRunUnique(completions, today, LeadingRun(SortDesc(completions), today), n);
  }

  /** Completions on today, yesterday and the day before give a streak of 3. */
  lemma ThreeDayStreakExample(today: int)
    ensures LeadingRun(SortDesc([today, today - 1, today - 2]), today) == 3
  {
    var c := [today, today - 1, today - 2];
    forall day | today - 3 < day <= today ensures day in c {
      assert day == c[today - day];
    }
    StreakOfRun(c, today, 3);
  }

  /** Completions on today and three days ago give a streak of 1. */
  lemma GapStreakExample(today: int)
    ensures LeadingRun(SortDesc([today, today - 3]), today) == 1
  {
    var c := [today, today - 3];
    assert forall day :: today - 1 < day <= today ==> day in c by {
      assert c[0] == today;
    }
    StreakOfRun(c, today, 1);
  }

  // ----- Statistics -----

  function DatesInRange(dates: seq<int>, start: Option<int>, end: Option<int>): (r: nat)
    ensures r <= |dates|
  {
    if dates == [] then 0
    else
      var last := if InRange(dates[|dates| - 1], start, end) then 1 else 0;
      DatesInRange(dates[..|dates| - 1], start, end) + last
  }

  /** Completions in the range over all habits, active or not. */
  function CompletionsInRange(hs: seq<Habit>, start: Option<int>, end: Option<int>): nat
  {
    if hs == [] then 0
    else CompletionsInRange(hs[..|hs| - 1], start, end) + DatesInRange(hs[|hs| - 1].completions, start, end)
  }

  /** `get_habit_completions_in_range`. */
  method GetHabitCompletionsInRange(hs: seq<Habit>, start: Option<int>, end: Option<int>)
    returns (count: nat)
    ensures count == CompletionsInRange(hs, start, end)
  {
    count := 0;
    var h := 0;
    while h < |hs|
      invariant 0 <= h <= |hs|
      invariant count == CompletionsInRange(hs[..h], start, end)
    {
      assert hs[..h + 1][..h] == hs[..h];
      var n := CountDates(hs[h].completions, start, end);
      count := count + n;
      h := h + 1;
    }
    assert hs[..|hs|] == hs;
  }

  /** The inner loop of `get_habit_completions_in_range`, over one habit. */
  method CountDates(dates: seq<int>, start: Option<int>, end: Option<int>) returns (count: nat)
    ensures count == DatesInRange(dates, start, end)
  {
    count := 0;
    var i := 0;
    while i < |dates|
      invariant 0 <= i <= |dates|
      invariant count == DatesInRange(dates[..i], start, end)
    {
      assert dates[..i + 1][..i] == dates[..i];
      var day := dates[i];
      if (start.None? || day >= start.value) && (end.None? || day <= end.value) {
        count := count + 1;
      }
      i := i + 1;
    }
    assert dates[..|dates|] == dates;
  }

  /** Without bounds every stored completion is counted. */
  lemma {:induction false} UnboundedCountsAll(dates: seq<int>)
    ensures DatesInRange(dates, None, None) == |dates|
  {
    if dates != [] {
      UnboundedCountsAll(dates[..|dates| - 1]);
    }
  }

  /** Splitting the range at a day adds up. */
  lemma {:induction false} DatesInRangeSplit(dates: seq<int>, lo: int, mid: int, hi: int)
    requires lo <= mid < hi
    ensures DatesInRange(dates, Some(lo), Some(hi))
         == DatesInRange(dates, Some(lo), Some(mid)) + DatesInRange(dates, Some(mid + 1), Some(hi))
  {
    if dates != [] {
      DatesInRangeSplit(dates[..|dates| - 1], lo, mid, hi);
    }
  }
}
