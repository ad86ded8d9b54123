/** Tasks: the filters and orderings the views show, the dropdown
    of selectable tasks, session notes, completion, validation of a new
    task and the completed-tasks counter of the statistics view. */
module Tasks {
  import opened Wrappers
  import opened Text
  import opened Dates

  /** A note saved with a session: when (seconds) and what. */
  datatype Note = Note(date: int, content: string)

  /** A task record. `priority` and `created` stay optional because the
      readers default them differently; a missing `completed` reads as false;
      `completedDate` and `dueDate` are day numbers, `created` a timestamp. */
  datatype Task = Task(
    name: string,
    priority: Option<int>,
    created: Option<int>,
    completed: bool,
    completedDate: Option<int>,
    dueDate: Option<int>,
    description: Option<string>,
    notes: seq<Note>)

  /** The incomplete tasks, in stored order. */
  function Active(ts: seq<Task>): (r: seq<Task>)
    ensures |r| <= |ts|
    ensures forall t :: t in r <==> t in ts && !t.completed
  {
    if ts == [] then [] else (if ts[0].completed then [] else [ts[0]]) + Active(ts[1..])
  }

  /** The completed tasks, in stored order. */
  function Completed(ts: seq<Task>): (r: seq<Task>)
    ensures |r| <= |ts|
    ensures forall t :: t in r <==> t in ts && t.completed
  {
    if ts == [] then [] else (if ts[0].completed then [ts[0]] else []) + Completed(ts[1..])
  }

  /** Both filters keep stored order: filtering a list made of two parts
      gives the filtered first part followed by the filtered second part
      (with one-element parts this pins down every position). */
  lemma {:induction false} FiltersKeepOrder(a: seq<Task>, b: seq<Task>)
    ensures Active(a + b) == Active(a) + Active(b)
    ensures Completed(a + b) == Completed(a) + Completed(b)
  {
    ActiveKeepsOrder(a, b);
    CompletedKeepsOrder(a, b);
  }

  lemma {:induction false} ActiveKeepsOrder(a: seq<Task>, b: seq<Task>)
    ensures Active(a + b) == Active(a) + Active(b)
  {
    if a == [] {
      assert a + b == b;
    } else {
      ConcatTail(a, b);
      ActiveKeepsOrder(a[1..], b);
      var h := if a[0].completed then [] else [a[0]];
      Regroup(h, Active(a[1..]), Active(b));
    }
  }

  lemma {:induction false} CompletedKeepsOrder(a: seq<Task>, b: seq<Task>)
    ensures Completed(a + b) == Completed(a) + Completed(b)
  {
    if a == [] {
      assert a + b == b;
    } else {
      ConcatTail(a, b);
      CompletedKeepsOrder(a[1..], b);
      var h := if a[0].completed then [a[0]] else [];
      Regroup(h, Completed(a[1..]), Completed(b));
    }
  }

  /** Head and tail of a concatenation whose first part is not empty. */
  lemma ConcatTail<T>(a: seq<T>, b: seq<T>)
    requires a != []
    ensures a + b != [] && (a + b)[0] == a[0] && (a + b)[1..] == a[1..] + b
  {
  }

  lemma Regroup<T>(h: seq<T>, x: seq<T>, y: seq<T>)
    ensures h + (x + y) == (h + x) + y
  {
  }

  /** Every task is either active or completed, and appears once. */
  lemma {:induction false} ActiveCompletedPartition(ts: seq<Task>)
    ensures multiset(Active(ts)) + multiset(Completed(ts)) == multiset(ts)
  {
    if ts != [] {
      var rest := ts[1..];
      ActiveCompletedPartition(rest);
      HeadTail(ts);
      ConsSplit(ts[0], rest, Active(rest), Completed(rest));
    }
  }

  /** Adding one element in front of a split list adds it to one side. */
  lemma ConsSplit<T>(x: T, rest: seq<T>, a: seq<T>, c: seq<T>)
    requires multiset(a) + multiset(c) == multiset(rest)
    ensures multiset([x] + a) + multiset(c) == multiset([x] + rest)
    ensures multiset(a) + multiset([x] + c) == multiset([x] + rest)
  {
  }

  function Names(ts: seq<Task>): (r: seq<string>)
    ensures |r| == |ts| && forall i :: 0 <= i < |ts| ==> r[i] == ts[i].name
  {
    seq(|ts|, i requires 0 <= i < |ts| => ts[i].name)
  }

  /** `get_task_options`: "None", then the names of the incomplete tasks in
      stored order. */
  function TaskOptions(ts: seq<Task>): (r: seq<string>)
    ensures |r| == |Active(ts)| + 1 && r[0] == "None"
    ensures forall i :: 0 < i < |r| ==> r[i] == Active(ts)[i - 1].name
  {
    ["None"] + Names(Active(ts))
  }

  /** Every incomplete task can be picked by name for session notes, and
      every name offered after "None" belongs to an incomplete task. */
  lemma TaskOptionsListActive(ts: seq<Task>)
    ensures forall t :: t in ts && !t.completed ==> t.name in TaskOptions(ts)[1..]
    ensures forall i :: 0 < i < |TaskOptions(ts)| ==>
              exists t :: t in ts && !t.completed && t.name == TaskOptions(ts)[i]
  {
    var a := Active(ts);
    var r := TaskOptions(ts);
    forall t | t in ts && !t.completed ensures t.name in r[1..] {
      var i :| 0 <= i < |a| && a[i] == t;
      assert r[1..][i] == t.name;
    }
    forall i | 0 < i < |r| ensures exists t :: t in ts && !t.completed && t.name == r[i] {
      assert a[i - 1] in a;
    }
  }

  // ----- Orderings -----

  /** The two sort keys: `priority` alone (dashboard), or `(priority,
      created)` (task list). A missing priority sorts as 3 (Low); a missing
      `created` sorts as the empty string, before every timestamp. */
  datatype Order = ByPriority | ByPriorityThenCreated

  function PriorityKey(t: Task): int { t.priority.GetOr(3) }

  predicate CreatedLe(a: Option<int>, b: Option<int>) {
    a.None? || (b.Some? && a.value <= b.value)
  }

  predicate Le(o: Order, a: Task, b: Task) {
    PriorityKey(a) < PriorityKey(b)
    || (PriorityKey(a) == PriorityKey(b) && (o == ByPriority || CreatedLe(a.created, b.created)))
  }

  /** Equal sort keys. */
  predicate SameKey(o: Order, a: Task, b: Task) { Le(o, a, b) && Le(o, b, a) }

  lemma LeTotal(o: Order, a: Task, b: Task)
    ensures Le(o, a, b) || Le(o, b, a)
  {
  }

  lemma LeTransitive(o: Order, a: Task, b: Task, c: Task)
    requires Le(o, a, b) && Le(o, b, c)
    ensures Le(o, a, c)
  {
  }

  predicate Sorted(o: Order, s: seq<Task>) {
    forall i, j :: 0 <= i < j < |s| ==> Le(o, s[i], s[j])
  }

  /** Places `x` before the first element it does not rank after, so that
      it stays ahead of the elements with the same key. */
  function Insert(o: Order, x: Task, s: seq<Task>): (r: seq<Task>)
    ensures |r| == |s| + 1
    ensures multiset(r) == multiset(s) + multiset{x}
  {
    if s == [] then [x]
    else if Le(o, x, s[0]) then [x] + s
    else
      HeadTail(s);
      [s[0]] + Insert(o, x, s[1..])
  }

  /** Python's stable `sorted` by key, as an insertion sort. */
  function Sort(o: Order, s: seq<Task>): (r: seq<Task>)
    ensures |r| == |s|
    ensures multiset(r) == multiset(s)
  {
    if s == [] then []
    else
      HeadTail(s);
      Insert(o, s[0], Sort(o, s[1..]))
  }

  /** `a` ranks no lower than any element of `s`. */
  predicate LowerBound(o: Order, a: Task, s: seq<Task>) {
    forall j :: 0 <= j < |s| ==> Le(o, a, s[j])
  }

  lemma {:induction false} InsertLowerBound(o: Order, a: Task, x: Task, s: seq<Task>)
    requires LowerBound(o, a, s) && Le(o, a, x)
    ensures LowerBound(o, a, Insert(o, x, s))
  {
    if s != [] && !Le(o, x, s[0]) {
      InsertLowerBound(o, a, x, s[1..]);
      assert Insert(o, x, s) == [s[0]] + Insert(o, x, s[1..]);
    }
  }

  lemma SortedCons(o: Order, a: Task, s: seq<Task>)
    requires LowerBound(o, a, s) && Sorted(o, s)
    ensures Sorted(o, [a] + s)
  {
    forall i, j | 0 <= i < j < |[a] + s| ensures Le(o, ([a] + s)[i], ([a] + s)[j]) {
      assert ([a] + s)[j] == s[j - 1];
      if i > 0 {
        assert ([a] + s)[i] == s[i - 1];
      }
    }
  }

  lemma {:induction false} InsertSorted(o: Order, x: Task, s: seq<Task>)
    requires Sorted(o, s)
    ensures Sorted(o, Insert(o, x, s))
  {
    if s == [] {
    } else if Le(o, x, s[0]) {
      forall j | 0 <= j < |s| ensures Le(o, x, s[j]) {
        LeTransitive(o, x, s[0], s[j]);
      }
      SortedCons(o, x, s);
    } else {
      var rest := s[1..];
      assert Sorted(o, rest);
      InsertSorted(o, x, rest);
      assert LowerBound(o, s[0], rest);
      LeTotal(o, x, s[0]);
      InsertLowerBound(o, s[0], x, rest);
      SortedCons(o, s[0], Insert(o, x, rest));
    }
  }

  lemma {:induction false} SortSorted(o: Order, s: seq<Task>)
    ensures Sorted(o, Sort(o, s))
  {
    if s != [] {
      SortSorted(o, s[1..]);
      InsertSorted(o, s[0], Sort(o, s[1..]));
    }
  }

  /** The elements of `s` whose key equals the key of `k`, in order. */
  function KeyClass(o: Order, k: Task, s: seq<Task>): seq<Task>
  {
    if s == [] then [] else (if SameKey(o, s[0], k) then [s[0]] else []) + KeyClass(o, k, s[1..])
  }

  lemma KeyClassCons(o: Order, k: Task, a: Task, s: seq<Task>)
    ensures KeyClass(o, k, [a] + s) == (if SameKey(o, a, k) then [a] else []) + KeyClass(o, k, s)
  {
    assert ([a] + s)[1..] == s;
  }

  /** Two tasks of which the first ranks strictly before the second cannot
      both share the key of `k`. */
  lemma StrictlyBeforeNotSameKey(o: Order, k: Task, a: Task, b: Task)
    requires !Le(o, b, a)
    ensures !(SameKey(o, a, k) && SameKey(o, b, k))
  {
    if SameKey(o, a, k) && SameKey(o, b, k) {
      LeTransitive(o, b, k, a);
    }
  }

  lemma HeadTail<T>(s: seq<T>)
    requires s != []
    ensures [s[0]] + s[1..] == s
  {
  }

  /** The sequence algebra of the step below: an empty part can move past
      the other. */
  lemma SwapAroundEmpty<T>(c0: seq<T>, cx: seq<T>, tail: seq<T>, ins: seq<T>, rest: seq<T>, whole: seq<T>)
    requires c0 == [] || cx == []
    requires ins == c0 + rest && rest == cx + tail && whole == c0 + tail
    ensures ins == cx + whole
  {
    if c0 == [] {
      assert c0 + rest == rest;
      assert c0 + tail == tail;
    } else {
      assert cx + tail == tail;
      assert cx + whole == whole;
    }
  }

  /** The inductive step of `InsertKeyClass`, when `x` goes after the head. */
  lemma InsertKeyClassStep(o: Order, k: Task, x: Task, s: seq<Task>)
    requires s != [] && !Le(o, x, s[0])
    requires KeyClass(o, k, Insert(o, x, s[1..]))
          == (if SameKey(o, x, k) then [x] else []) + KeyClass(o, k, s[1..])
    ensures KeyClass(o, k, Insert(o, x, s))
         == (if SameKey(o, x, k) then [x] else []) + KeyClass(o, k, s)
  {
    var cx := if SameKey(o, x, k) then [x] else [];
    var c0 := if SameKey(o, s[0], k) then [s[0]] else [];
    var rest := Insert(o, x, s[1..]);
    var ins := Insert(o, x, s);
    assert ins == [s[0]] + rest;
    KeyClassCons(o, k, s[0], rest);
    KeyClassCons(o, k, s[0], s[1..]);
    HeadTail(s);
    StrictlyBeforeNotSameKey(o, k, s[0], x);
    SwapAroundEmpty(c0, cx, KeyClass(o, k, s[1..]), KeyClass(o, k, ins), KeyClass(o, k, rest), KeyClass(o, k, s));
  }

  lemma {:induction false} InsertKeyClass(o: Order, k: Task, x: Task, s: seq<Task>)
    ensures KeyClass(o, k, Insert(o, x, s))
         == (if SameKey(o, x, k) then [x] else []) + KeyClass(o, k, s)
  {
    if s == [] || Le(o, x, s[0]) {
      KeyClassCons(o, k, x, s);
    } else {
      InsertKeyClass(o, k, x, s[1..]);
      InsertKeyClassStep(o, k, x, s);
    }
  }

  /** The sort is stable: tasks with equal keys keep their stored order. */
  lemma {:induction false} SortStable(o: Order, k: Task, s: seq<Task>)
    ensures KeyClass(o, k, Sort(o, s)) == KeyClass(o, k, s)
  {
    if s != [] {
      SortStable(o, k, s[1..]);
      InsertKeyClass(o, k, s[0], Sort(o, s[1..]));
    }
  }

  // ----- Views -----

  const DashboardSize := 5

  /** `update_task_list`: the first five incomplete tasks by priority. */
  function DashboardTasks(ts: seq<Task>): (r: seq<Task>)
    ensures |r| == if |Active(ts)| < DashboardSize then |Active(ts)| else DashboardSize
    ensures forall t :: t in r ==> t in ts && !t.completed
  {
    var sorted := Sort(ByPriority, Active(ts));
    var r := if |sorted| <= DashboardSize then sorted else sorted[..DashboardSize];
    assert forall t :: t in r ==> t in multiset(sorted);
    r
  }

  /** The dashboard shows the five best-ranked incomplete tasks: each shown
      task ranks no lower than each incomplete task left out. */
  lemma DashboardIsTopFive(ts: seq<Task>)
    ensures Sorted(ByPriority, DashboardTasks(ts))
    ensures multiset(DashboardTasks(ts)) <= multiset(Active(ts))
    ensures forall t, u ::
              t in DashboardTasks(ts) && u in multiset(Active(ts)) - multiset(DashboardTasks(ts))
              ==> PriorityKey(t) <= PriorityKey(u)
  {
    var sorted := Sort(ByPriority, Active(ts));
    SortSorted(ByPriority, Active(ts));
    var r := DashboardTasks(ts);
    var n := |r|;
    assert r == sorted[..n];
    SplitAt(sorted, n);
    SortedPrefixFirst(ByPriority, sorted, n);
    forall t, u | t in r && u in multiset(Active(ts)) - multiset(r)
      ensures PriorityKey(t) <= PriorityKey(u)
    {
      assert u in sorted[n..];
      assert Le(ByPriority, t, u);
    }
  }

  /** Ties are broken by stored order: for every priority, the dashboard's
      tasks of that priority are the first incomplete tasks of that priority
      in stored order, so when several compete for the last slot, the one
      stored first wins. */
  lemma DashboardTiesInStoredOrder(ts: seq<Task>, k: Task)
    ensures KeyClass(ByPriority, k, DashboardTasks(ts)) <= KeyClass(ByPriority, k, Active(ts))
  {
    var sorted := Sort(ByPriority, Active(ts));
    var n := |DashboardTasks(ts)|;
    assert DashboardTasks(ts) == sorted[..n];
    KeyClassPrefix(ByPriority, k, sorted, n);
    SortStable(ByPriority, k, Active(ts));
  }

  /** The key class of a prefix is a prefix of the key class. */
  lemma {:induction false} KeyClassPrefix(o: Order, k: Task, s: seq<Task>, n: nat)
    requires n <= |s|
    ensures KeyClass(o, k, s[..n]) <= KeyClass(o, k, s)
  {
    if n > 0 {
      KeyClassPrefix(o, k, s[1..], n - 1);
      assert s[..n] == [s[0]] + s[1..][..n - 1];
      KeyClassCons(o, k, s[0], s[1..][..n - 1]);
      assert s == [s[0]] + s[1..];
      KeyClassCons(o, k, s[0], s[1..]);
    }
  }

  lemma SplitAt<T>(s: seq<T>, n: nat)
    requires n <= |s|
    ensures s == s[..n] + s[n..]
    ensures multiset(s) == multiset(s[..n]) + multiset(s[n..])
  {
    assert s == s[..n] + s[n..];
  }

  /** In a sorted list every element of a prefix ranks no lower than every
      element after it. */
  lemma SortedPrefixFirst(o: Order, s: seq<Task>, n: nat)
    requires Sorted(o, s) && n <= |s|
    ensures forall t, u :: t in s[..n] && u in s[n..] ==> Le(o, t, u)
  {
    forall t, u | t in s[..n] && u in s[n..] ensures Le(o, t, u) {
      var i :| 0 <= i < n && s[..n][i] == t;
      var j :| 0 <= j < |s| - n && s[n..][j] == u;
      assert s[i] == t && s[n + j] == u;
    }
  }

  /** `update_tasks_list`: the incomplete tasks ordered by (priority,
      created), then the completed ones in stored order. Every task is
      shown exactly once. */
  function FullList(ts: seq<Task>): (r: seq<Task>)
    ensures |r| == |Active(ts)| + |Completed(ts)|
    ensures multiset(r) == multiset(ts)
    ensures Sorted(ByPriorityThenCreated, r[..|Active(ts)|])
    ensures forall t :: t in r[..|Active(ts)|] ==> !t.completed
    ensures r[|Active(ts)|..] == Completed(ts)
  {
    ActiveCompletedPartition(ts);
    SortSorted(ByPriorityThenCreated, Active(ts));
    var s := Sort(ByPriorityThenCreated, Active(ts));
    var r := s + Completed(ts);
    assert r[..|Active(ts)|] == s;
    assert forall t :: t in s ==> t in multiset(Active(ts));
    r
  }

  // ----- Changes to the list -----

  /** The session-notes block of `stop_session` / `complete_session`: a
      non-blank note is appended to every task named like the selected one,
      unless the selection is "None". */
  function SaveSessionNotes(ts: seq<Task>, selected: string, text: string, now: int): (r: seq<Task>)
    ensures |r| == |ts|
    ensures forall i :: 0 <= i < |ts| ==>
      if !AllSpace(text) && selected != "None" && ts[i].name == selected
      then r[i] == ts[i].(notes := ts[i].notes + [Note(now, Strip(text))])
      else r[i] == ts[i]
  {
    StripEmptyIffBlank(text);
    var content := Strip(text);
    if content == [] || selected == "None" then ts
    else
      seq(|ts|, i requires 0 <= i < |ts| =>
            if ts[i].name == selected then ts[i].(notes := ts[i].notes + [Note(now, content)]) else ts[i])
  }

  /** The `toggle_completion` callback on one task record: takes the new
      checkbox state, and dates the completion when checked (an unchecked
      task keeps its old completion date). */
  function SetCompleted(t: Task, checked: bool, today: int): (r: Task)
    ensures r.completed == checked
    ensures r.completedDate == if checked then Some(today) else t.completedDate
    ensures r.(completed := t.completed, completedDate := t.completedDate) == t
  {
    if checked then t.(completed := true, completedDate := Some(today)) else t.(completed := false)
  }

  /** The due-date field of the add dialog after `strptime`. */
  datatype DueInput = Blank | Date(day: int) | Malformed

  /** `add_task`: a blank name or a malformed due date rejects it; a
      new task is incomplete, has no notes, and keeps the stripped name and
      the stripped description when that is not blank. */
  function NewTask(name: string, priority: int, created: int, due: DueInput, description: string)
    : (r: Result<Task, string>)
    ensures r.Ok? <==> !AllSpace(name) && !due.Malformed?
    ensures r.Ok? ==> r.value.name == Strip(name) && r.value.name != []
    ensures r.Ok? ==> !r.value.completed && r.value.notes == [] && r.value.priority == Some(priority)
    ensures r.Ok? ==> r.value.dueDate == (if due.Date? then Some(due.day) else None)
    ensures r.Ok? ==> r.value.created == Some(created) && r.value.completedDate == None
    ensures r.Ok? ==> r.value.description == if AllSpace(description) then None else Some(Strip(description))
  {
    StripEmptyIffBlank(name);
    StripEmptyIffBlank(description);
    var n := Strip(name);
    if n == [] then Err("Task name cannot be empty!")
    else if due.Malformed? then Err("Invalid date format. Use MM/DD/YYYY")
    else
      var d := Strip(description);
      Ok(Task(n, Some(priority), Some(created), false, None,
              if due.Date? then Some(due.day) else None,
              if d == [] then None else Some(d), []))
  }

  // ----- Statistics -----

  predicate CountsInRange(t: Task, start: Option<int>, end: Option<int>) {
    t.completed && t.completedDate.Some? && InRange(t.completedDate.value, start, end)
  }

  /** Number of tasks completed on a day in the range. */
  function CompletedInRange(ts: seq<Task>, start: Option<int>, end: Option<int>): (r: nat)
    ensures r <= |ts|
  {
    if ts == [] then 0
    else
      var last := if CountsInRange(ts[|ts| - 1], start, end) then 1 else 0;
      CompletedInRange(ts[..|ts| - 1], start, end) + last
  }

  /** `get_completed_tasks_in_range`. */
  method GetCompletedTasksInRange(ts: seq<Task>, start: Option<int>, end: Option<int>)
    returns (count: nat)
    ensures count == CompletedInRange(ts, start, end)
  {
    count := 0;
    var i := 0;
    while i < |ts|
      invariant 0 <= i <= |ts|
      invariant count == CompletedInRange(ts[..i], start, end)
    {
      assert ts[..i + 1][..i] == ts[..i];
      if ts[i].completed && ts[i].completedDate.Some? {
        var day := ts[i].completedDate.value;
        if (start.None? || day >= start.value) && (end.None? || day <= end.value) {
          count := count + 1;
        }
      }
      i := i + 1;
    }
    assert ts[..|ts|] == ts;
  }

  /** Only completed tasks are counted. */
  lemma {:induction false} CompletedInRangeBound(ts: seq<Task>, start: Option<int>, end: Option<int>)
    ensures CompletedInRange(ts, start, end) <= |Completed(ts)|
  {
    if ts != [] {
      var n := |ts|;
      CompletedInRangeBound(ts[..n - 1], start, end);
      CompletedSnoc(ts[..n - 1], ts[n - 1]);
      assert ts[..n - 1] + [ts[n - 1]] == ts;
    }
  }

  lemma {:induction false} CompletedSnoc(ts: seq<Task>, t: Task)
    ensures |Completed(ts + [t])| == |Completed(ts)| + (if t.completed then 1 else 0)
  {
    if ts != [] {
      assert (ts + [t])[1..] == ts[1..] + [t];
      CompletedSnoc(ts[1..], t);
    }
  }

  /** Splitting the range at a day adds up. */
  lemma {:induction false} CompletedInRangeSplit(ts: seq<Task>, lo: int, mid: int, hi: int)
    requires lo <= mid < hi
    ensures CompletedInRange(ts, Some(lo), Some(hi))
         == CompletedInRange(ts, Some(lo), Some(mid)) + CompletedInRange(ts, Some(mid + 1), Some(hi))
  {
    if ts != [] {
      CompletedInRangeSplit(ts[..|ts| - 1], lo, mid, hi);
    }
  }
}
