/** The application object: the in-memory document (user profile, settings,
    tasks, habits) together with the state of the three timers, updated in
    place by the button callbacks. Every callback that reads the clock takes
    `now` (whole seconds); one that reads the calendar takes `today`, the
    local day number of `now`. Display, sounds and saving are not modelled. */
module App {
  import opened Wrappers
  import opened Text
  import opened Timing
  import opened Ledger
  import opened Pomodoro
  import opened Tasks
  import opened Habits

  /** A task priority comes from the radio buttons 1, 2 and 3, or is missing. */
  predicate PriorityOk(t: Task) {
    t.priority.None? || 1 <= t.priority.value <= 3
  }

  class FocusFlick {
    // The document
    var user: User
    var settings: Settings
    var tasks: seq<Task>
    var habits: seq<Habit>

    // Focus-session timer
    var sessionActive: bool
    var startTime: int
    var pausedTime: int
    var selectedDuration: int

    // Stopwatch
    var swRunning: bool
    var swStartTime: int
    var swPauseTime: int
    var lapTimes: seq<int>

    // Pomodoro
    var pomoRunning: bool
    var pomoStartTime: int
    var pomoPauseTime: Option<int>
    var pomoCycle: Cycle
    var pomoRemaining: int

    /** The ranges the callbacks keep. */
    predicate Valid()
      reads this
    {
      Ledger.Valid(user) && ValidSettings(settings)
      && selectedDuration >= 0 && pomoCycle.completed >= 0 && pomoRemaining >= 0
      && (forall i :: 0 <= i < |tasks| ==> PriorityOk(tasks[i]))
      && (forall i :: 0 <= i < |habits| ==> NoDup(habits[i].completions))
    }

    /** A fresh document and idle timers. Timestamps the source only sets
        when a timer starts read as 0 here; the Pomodoro pause instant, which
        a callback can read before it was ever set, is `None`. */
    constructor (today: int)
      ensures Valid()
      ensures user == DefaultUser(today) && settings == Pomodoro.DefaultSettings
      ensures tasks == [] && habits == []
      ensures !sessionActive && !swRunning && !pomoRunning
      ensures lapTimes == [] && pomoCycle == Cycle(Focus, 0) && pomoPauseTime == None
    {
      user := DefaultUser(today);
      settings := Pomodoro.DefaultSettings;
      tasks := [];
      habits := [];
      sessionActive := false;
      startTime := 0;
      pausedTime := 0;
      selectedDuration := 0;
      swRunning := false;
      swStartTime := 0;
      swPauseTime := 0;
      lapTimes := [];
      pomoRunning := false;
      pomoStartTime := 0;
      pomoPauseTime := None;
      pomoCycle := Cycle(Focus, 0);
      pomoRemaining := 0;
    }

    // ----- Focus-session timer -----

    /** `start_session`: the countdown of `minutes` starts now. */
    method StartSession(now: int, minutes: int)
      requires Valid() && minutes > 0
      modifies this`sessionActive, this`startTime, this`selectedDuration
      ensures Valid()
      ensures sessionActive && startTime == now && selectedDuration == minutes * 60
      ensures Remaining(selectedDuration, startTime, now) == selectedDuration > 0
    {
      sessionActive := true;
      startTime := now;
      selectedDuration := minutes * 60;
    }

    /** `complete_session`: always credits the configured duration, whatever
        the clock says, and files the note. */
    method CompleteSession(now: int, today: int, note: string, selected: string)
      requires Valid()
      modifies this`sessionActive, this`user, this`tasks
      ensures Valid()
      ensures !sessionActive
      ensures user == CreditSession(old(user), selectedDuration, today)
      ensures tasks == SaveSessionNotes(old(tasks), selected, note, now)
    {
      sessionActive := false;
      user := CreditSession(user, selectedDuration, today);
      tasks := SaveSessionNotes(tasks, selected, note, now);
      NotesKeepPriorities(old(tasks), selected, note, now);
    }

    /** `update_timer`, one tick: while the session runs, the remaining
        seconds; once none are left, the session completes. A paused or
        stopped session ignores the tick (`None`). */
    method UpdateTimer(now: int, today: int, note: string, selected: string)
      returns (remaining: Option<int>)
      requires Valid()
      modifies this`sessionActive, this`user, this`tasks
      ensures Valid()
      ensures remaining.Some? <==> old(sessionActive)
      ensures remaining.Some? ==> remaining.value == Remaining(selectedDuration, startTime, now)
      ensures sessionActive <==> remaining.Some? && remaining.value > 0
      ensures remaining == Some(0) ==>
        user == CreditSession(old(user), selectedDuration, today)
        && tasks == SaveSessionNotes(old(tasks), selected, note, now)
      ensures remaining != Some(0) ==> user == old(user) && tasks == old(tasks)
    {
      if !sessionActive {
        return None;
      }
      var r := Remaining(selectedDuration, startTime, now);
      remaining := Some(r);
      if r <= 0 {
        CompleteSession(now, today, note, selected);
      }
    }

    /** `pause_session`, a toggle. Pausing records the instant; resuming
        moves the start forward by the pause and ticks at once. */
    method PauseSession(now: int, today: int, note: string, selected: string)
      requires Valid()
      modifies this`sessionActive, this`pausedTime, this`startTime, this`user, this`tasks
      ensures Valid()
      ensures old(sessionActive) ==>
        !sessionActive && pausedTime == now && startTime == old(startTime)
        && user == old(user) && tasks == old(tasks)
      ensures !old(sessionActive) ==>
        startTime == ResumedStart(old(startTime), old(pausedTime), now)
        && now - startTime == old(pausedTime) - old(startTime)
        && pausedTime == old(pausedTime)
        && (sessionActive <==> Remaining(selectedDuration, startTime, now) > 0)
        && user == (if sessionActive then old(user) else CreditSession(old(user), selectedDuration, today))
        && tasks == (if sessionActive then old(tasks) else SaveSessionNotes(old(tasks), selected, note, now))
    {
      if sessionActive {
        sessionActive := false;
        pausedTime := now;
      } else {
        startTime := ResumedStart(startTime, pausedTime, now);
        sessionActive := true;
        var _ := UpdateTimer(now, today, note, selected);
      }
    }

    /** `stop_session`: credits the elapsed seconds, and files the note,
        only when at least a minute has passed since the (shifted) start. */
    method StopSession(now: int, today: int, note: string, selected: string)
      requires Valid()
      modifies this`sessionActive, this`user, this`tasks
      ensures Valid()
      ensures !sessionActive
      ensures user == StopCredit(old(user), now - startTime, today)
      ensures tasks == if now - startTime >= MinCreditedSeconds
                       then SaveSessionNotes(old(tasks), selected, note, now) else old(tasks)
    {
      var elapsed := now - startTime;
      var credited := StopCredit(user, elapsed, today);
      var filed := if elapsed >= MinCreditedSeconds then SaveSessionNotes(tasks, selected, note, now) else tasks;
      NotesKeepPriorities(tasks, selected, note, now);
      assert forall i :: 0 <= i < |filed| ==> PriorityOk(filed[i]);
      sessionActive, user, tasks := false, credited, filed;
    }

    // ----- Stopwatch -----

    /** `start_stopwatch`: runs from now; earlier laps stay listed. */
    method StartStopwatch(now: int)
      requires Valid()
      modifies this`swRunning, this`swStartTime
      ensures Valid()
      ensures swRunning && swStartTime == now
    {
      swRunning := true;
      swStartTime := now;
    }

    /** `update_stopwatch`, one tick: the HH:MM:SS display while running. */
    method UpdateStopwatch(now: int) returns (display: Option<string>)
      ensures display.Some? <==> swRunning
      ensures display.Some? ==> display.value == FormatTime(now - swStartTime)
      ensures display.Some? && now >= swStartTime ==> ClockValue(display.value) == now - swStartTime
    {
      if !swRunning {
        return None;
      }
      var shown := FormatTime(now - swStartTime);
      display := Some(shown);
    }

    /** `pause_stopwatch`: stops the display and records the instant. */
    method PauseStopwatch(now: int)
      requires Valid()
      modifies this`swRunning, this`swPauseTime
      ensures Valid()
      ensures !swRunning && swPauseTime == now
    {
      swRunning := false;
      swPauseTime := now;
    }

    /** `resume_stopwatch`: the start moves forward by the pause. */
    method ResumeStopwatch(now: int)
      requires Valid()
      modifies this`swRunning, this`swStartTime
      ensures Valid()
      ensures swRunning
      ensures swStartTime == ResumedStart(old(swStartTime), swPauseTime, now)
      ensures now - swStartTime == swPauseTime - old(swStartTime)
    {
      swStartTime := ResumedStart(swStartTime, swPauseTime, now);
      swRunning := true;
    }

    /** `stop_stopwatch`: the one-minute credit rule, then the laps are cleared. */
    method StopStopwatch(now: int, today: int)
      requires Valid()
      modifies this`swRunning, this`user, this`lapTimes
      ensures Valid()
      ensures !swRunning && lapTimes == []
      ensures user == StopCredit(old(user), now - swStartTime, today)
    {
      swRunning := false;
      user := StopCredit(user, now - swStartTime, today);
      lapTimes := [];
    }

    /** `record_lap`: while running, appends the elapsed time and returns the
        delta shown beside it; otherwise nothing happens. */
    method RecordLap(now: int) returns (delta: Option<int>)
      requires Valid()
      modifies this`lapTimes
      ensures Valid()
      ensures delta.Some? <==> swRunning
      ensures swRunning ==> lapTimes == old(lapTimes) + [now - swStartTime]
      ensures !swRunning ==> lapTimes == old(lapTimes)
      ensures delta.Some? ==> delta.value == LapDeltas(lapTimes)[|lapTimes| - 1]
      ensures delta.Some? && |lapTimes| > 1 ==> delta.value == now - swStartTime - old(lapTimes)[|old(lapTimes)| - 1]
    {
      if !swRunning {
        return None;
      }
      var elapsed := now - swStartTime;
      lapTimes := lapTimes + [elapsed];
      if |lapTimes| > 1 {
        delta := Some(elapsed - lapTimes[|lapTimes| - 2]);
      } else {
        delta := Some(elapsed);
      }
    }

    // ----- Pomodoro -----

    /** `start_pomodoro`: stores the four menu values in the settings and
        starts the first focus phase from a zero count. */
    method StartPomodoro(now: int, focus: int, shortBreak: int, longBreak: int, cycles: int)
      requires Valid()
      requires focus > 0 && shortBreak > 0 && longBreak > 0 && cycles > 0
      modifies this`pomoRunning, this`pomoStartTime, this`pomoCycle, this`settings, this`pomoRemaining
      ensures Valid()
      ensures pomoRunning && pomoStartTime == now && pomoCycle == Cycle(Focus, 0)
      ensures settings == old(settings).(focusDuration := focus, shortBreak := shortBreak,
                                          longBreak := longBreak, pomodoroCycles := cycles)
      ensures pomoRemaining == PhaseSeconds(Focus, settings) == focus * 60
    {
      pomoRunning := true;
      pomoStartTime := now;
      pomoCycle := Cycle(Focus, 0);
      settings := settings.(focusDuration := focus, shortBreak := shortBreak,
                            longBreak := longBreak, pomodoroCycles := cycles);
      pomoRemaining := PhaseSeconds(Focus, settings);
    }

    /** `next_pomodoro_phase`: credits a focus phase that ran out (never a
        skipped one) with the configured focus length, moves the phase
        machine on, and restarts the countdown for the new phase. The new
        phase keeps running only if its auto-start setting is on. */
    method NextPomodoroPhase(skipped: bool, now: int, today: int)
      requires Valid()
      modifies this`user, this`pomoCycle, this`pomoRemaining, this`pomoStartTime, this`pomoRunning
      ensures Valid()
      ensures pomoCycle == Advance(old(pomoCycle), skipped, settings.pomodoroCycles)
      ensures user == if CreditsFocus(old(pomoCycle), skipped)
                      then CreditSession(old(user), PhaseSeconds(Focus, settings), today)
                      else old(user)
      ensures pomoRemaining == PhaseSeconds(pomoCycle.phase, settings) && pomoStartTime == now
      ensures pomoRunning == (old(pomoRunning) && AutoStarts(pomoCycle.phase, settings))
    {
      if CreditsFocus(pomoCycle, skipped) {
        user := CreditSession(user, PhaseSeconds(Focus, settings), today);
      }
      pomoCycle := Advance(pomoCycle, skipped, settings.pomodoroCycles);
      pomoRemaining := PhaseSeconds(pomoCycle.phase, settings);
      pomoStartTime := now;
      // With auto-start the source ticks once more, which finds the full
      // phase still to run and changes nothing.
      if !AutoStarts(pomoCycle.phase, settings) {
        pomoRunning := false;
      }
    }

    /** `skip_pomodoro_phase`. */
    method SkipPomodoroPhase(now: int, today: int)
      requires Valid()
      modifies this`user, this`pomoCycle, this`pomoRemaining, this`pomoStartTime, this`pomoRunning
      ensures Valid()
      ensures user == old(user)
      ensures pomoCycle.completed == old(pomoCycle).completed
      ensures pomoCycle == Advance(old(pomoCycle), true, settings.pomodoroCycles)
      ensures pomoRemaining == PhaseSeconds(pomoCycle.phase, settings) && pomoStartTime == now
      ensures pomoRunning == (old(pomoRunning) && AutoStarts(pomoCycle.phase, settings))
    {
      NextPomodoroPhase(true, now, today);
    }

    /** `update_pomodoro`, one tick: the remaining seconds of the phase while
        running; when none are left, the next phase begins. */
    method UpdatePomodoro(now: int, today: int) returns (remaining: Option<int>)
      requires Valid()
      modifies this`user, this`pomoCycle, this`pomoRemaining, this`pomoStartTime, this`pomoRunning
      ensures Valid()
      ensures remaining.Some? <==> old(pomoRunning)
      ensures remaining.Some? ==> remaining.value == Remaining(old(pomoRemaining), old(pomoStartTime), now)
      ensures remaining == Some(0) ==>
        pomoCycle == Advance(old(pomoCycle), false, settings.pomodoroCycles)
        && user == (if old(pomoCycle).phase == Focus
                    then CreditSession(old(user), PhaseSeconds(Focus, settings), today)
                    else old(user))
        && pomoRemaining == PhaseSeconds(pomoCycle.phase, settings) && pomoStartTime == now
        && pomoRunning == AutoStarts(pomoCycle.phase, settings)
      ensures remaining != Some(0) ==>
        user == old(user) && pomoCycle == old(pomoCycle) && pomoRunning == old(pomoRunning)
        && pomoRemaining == old(pomoRemaining) && pomoStartTime == old(pomoStartTime)
    {
      if !pomoRunning {
        return None;
      }
      var r := Remaining(pomoRemaining, pomoStartTime, now);
      remaining := Some(r);
      if r <= 0 {
        NextPomodoroPhase(false, now, today);
      }
    }

    /** `pause_pomodoro`, a toggle like `pause_session`. The Resume side
        reads the last pause instant, which may belong to an earlier pause
        when the button reads "Resume" because a phase did not auto-start;
        with no pause ever recorded the source raises before changing
        anything, so nothing changes. */
    method PausePomodoro(now: int, today: int)
      requires Valid()
      modifies this`pomoRunning, this`pomoPauseTime, this`pomoStartTime, this`user,
               this`pomoCycle, this`pomoRemaining
      ensures Valid()
      ensures old(pomoRunning) ==>
        !pomoRunning && pomoPauseTime == Some(now) && pomoStartTime == old(pomoStartTime)
        && user == old(user) && pomoCycle == old(pomoCycle) && pomoRemaining == old(pomoRemaining)
      ensures !old(pomoRunning) && old(pomoPauseTime).None? ==>
        !pomoRunning && pomoPauseTime == None && pomoStartTime == old(pomoStartTime)
        && user == old(user) && pomoCycle == old(pomoCycle) && pomoRemaining == old(pomoRemaining)
      ensures !old(pomoRunning) && old(pomoPauseTime).Some? ==>
        var start := ResumedStart(old(pomoStartTime), old(pomoPauseTime).value, now);
        pomoPauseTime == old(pomoPauseTime)
        && (Remaining(old(pomoRemaining), start, now) > 0 ==>
              pomoRunning && pomoStartTime == start
              && now - pomoStartTime == old(pomoPauseTime).value - old(pomoStartTime)
              && user == old(user) && pomoCycle == old(pomoCycle)
              && pomoRemaining == old(pomoRemaining))
        && (Remaining(old(pomoRemaining), start, now) == 0 ==>
              pomoCycle == Advance(old(pomoCycle), false, settings.pomodoroCycles)
              && user == (if old(pomoCycle).phase == Focus
                          then CreditSession(old(user), PhaseSeconds(Focus, settings), today)
                          else old(user))
              && pomoStartTime == now && pomoRemaining == PhaseSeconds(pomoCycle.phase, settings)
              && pomoRunning == AutoStarts(pomoCycle.phase, settings))
    {
      if pomoRunning {
        pomoRunning := false;
        pomoPauseTime := Some(now);
      } else if pomoPauseTime.Some? {
        pomoStartTime := ResumedStart(pomoStartTime, pomoPauseTime.value, now);
        pomoRunning := true;
        var _ := UpdatePomodoro(now, today);
      }
    }

    /** `stop_pomodoro`: credits the measured time of a focus phase of at
        least a minute; a break is never credited. Phase and count stay. */
    method StopPomodoro(now: int, today: int)
      requires Valid()
      modifies this`pomoRunning, this`user
      ensures Valid()
      ensures !pomoRunning
      ensures user == if pomoCycle.phase == Focus
                      then StopCredit(old(user), now - pomoStartTime, today) else old(user)
    {
      pomoRunning := false;
      if pomoCycle.phase == Focus {
        user := StopCredit(user, now - pomoStartTime, today);
      }
    }

    // ----- Ledger, tasks and habits -----

    /** `check_daily_reset`. */
    method CheckDailyReset(today: int)
      requires Valid()
      modifies this`user
      ensures Valid()
      ensures user == Ledger.CheckDailyReset(old(user), today)
    {
      user := Ledger.CheckDailyReset(user, today);
    }

    /** The `toggle_completion` callback for task `i`: checking it
        (again) awards `priority * 25` XP every time. */
    method ToggleTask(i: int, checked: bool, today: int)
      requires Valid() && 0 <= i < |tasks|
      modifies this`tasks, this`user
      ensures Valid()
      ensures tasks == old(tasks)[i := SetCompleted(old(tasks)[i], checked, today)]
      ensures user == if checked then AwardXp(old(user), TaskXp(old(tasks)[i].priority)) else old(user)
    {
      var t := tasks[i];
      tasks := tasks[i := SetCompleted(t, checked, today)];
      if checked {
        user := AwardXp(user, TaskXp(t.priority));
      }
    }

    /** `add_task`: appends the new task, or reports why it was rejected. */
    method AddTask(now: int, name: string, priority: int, due: DueInput, description: string)
      returns (error: Option<string>)
      requires Valid() && 1 <= priority <= 3
      modifies this`tasks
      ensures Valid()
      ensures var r := NewTask(name, priority, now, due, description);
        (error.None? <==> r.Ok?) && tasks == if r.Ok? then old(tasks) + [r.value] else old(tasks)
    {
      var r := NewTask(name, priority, now, due, description);
      if r.Ok? {
        var added := tasks + [r.value];
        assert forall k :: 0 <= k < |added| ==> PriorityOk(added[k]);
        tasks := added;
        error := None;
      } else {
        error := Some(r.error);
      }
    }

    /** The habit `toggle_completion` callback for habit `i`: 15 XP only
        when today is newly recorded. */
    method ToggleHabit(i: int, checked: bool, today: int)
      requires Valid() && 0 <= i < |habits|
      modifies this`habits, this`user
      ensures Valid()
      ensures habits == old(habits)[i := old(habits)[i].(completions := ToggleToday(old(habits)[i].completions, today, checked))]
      ensures today in habits[i].completions <==> checked
      ensures user == if checked && today !in old(habits)[i].completions
                      then AwardXp(old(user), HabitXp) else old(user)
    {
      var h := habits[i];
      ToggleKeepsDatesUnique(h.completions, today, checked);
      if ToggleEarnsXp(h.completions, today, checked) {
        user := AwardXp(user, HabitXp);
      }
      habits := habits[i := h.(completions := ToggleToday(h.completions, today, checked))];
    }

    /** `add_habit`: appends the new habit, or reports why it was rejected. */
    method AddHabit(now: int, name: string, description: string) returns (error: Option<string>)
      requires Valid()
      modifies this`habits
      ensures Valid()
      ensures var r := NewHabit(name, now, description);
        (error.None? <==> r.Ok?) && habits == if r.Ok? then old(habits) + [r.value] else old(habits)
    {
      var r := NewHabit(name, now, description);
      if r.Ok? {
        var added := habits + [r.value];
        assert forall k :: 0 <= k < |added| ==> NoDup(added[k].completions);
        habits := added;
        error := None;
      } else {
        error := Some(r.error);
      }
    }

    /** `update_daily_goal`: the goal changes only to a positive integer
        read from the text. */
    method UpdateDailyGoal(text: string) returns (error: Option<string>)
      requires Valid()
      modifies this`user
      ensures Valid()
      ensures error.None? <==> ParseInt(text).Some? && ParseInt(text).value > 0
      ensures error.None? ==> user == old(user).(dailyGoal := ParseInt(text).value)
      ensures error.Some? ==> user == old(user)
    {
      var r := SetDailyGoal(user, ParseInt(text));
      if r.Ok? {
        user := r.value;
        error := None;
      } else {
        error := Some(r.error);
      }
    }

    /** `update_user_name`: a blank name is refused and the old one kept. */
    method UpdateUserName(text: string) returns (error: Option<string>)
      requires Valid()
      modifies this`user
      ensures Valid()
      ensures error.None? <==> !AllSpace(text)
      ensures error.None? ==> user == old(user).(name := Strip(text))
      ensures error.Some? ==> user == old(user)
    {
      var r := SetUserName(user, text);
      if r.Ok? {
        user := r.value;
        error := None;
      } else {
        error := Some(r.error);
      }
    }

    /** `on_closing`: a running focus session of at least a minute adds its
        seconds to the total, and nothing else (no session, XP or streak). */
    method OnClosing(now: int)
      requires Valid()
      modifies this`user
      ensures Valid()
      ensures sessionActive && now - startTime >= MinCreditedSeconds ==>
        user == old(user).(totalSeconds := old(user).totalSeconds + (now - startTime))
      ensures !(sessionActive && now - startTime >= MinCreditedSeconds) ==> user == old(user)
    {
      if sessionActive {
        var elapsed := now - startTime;
        if elapsed >= MinCreditedSeconds {
          user := user.(totalSeconds := user.totalSeconds + elapsed);
        }
      }
    }
  }

  /** Filing a note never touches a task's priority, so the priority
      range the callbacks keep survives it. */
  lemma NotesKeepPriorities(ts: seq<Task>, selected: string, text: string, now: int)
    ensures var r := SaveSessionNotes(ts, selected, text, now);
      |r| == |ts| && forall i :: 0 <= i < |r| ==> r[i].priority == ts[i].priority
    ensures (forall i :: 0 <= i < |ts| ==> PriorityOk(ts[i])) ==>
      var r := SaveSessionNotes(ts, selected, text, now);
      forall i :: 0 <= i < |r| ==> PriorityOk(r[i])
  {
  }
}
