# FocusFlick timer and progression engine in Dafny

FocusFlick is a single-user desktop focus app. One window class, `FocusFlickPro`,
holds a JSON document (`user` profile with tasks and habits, plus `settings`)
and three timers: a focus-session countdown, a stopwatch with laps and a
Pomodoro cycle. The timers credit finished work to the profile. A credit adds
to the session count and to the total seconds. It also awards XP, runs one
level-up step and updates the daily streak. Task and habit check-boxes award
XP as well.

This project models that engine:

- `wrappers.dfy`: `Option` and `Result`.
- `text.dfy`: Python's `str.strip()`, and `int()` applied to a text field.
- `dates.dfy`: the date-range filter of the statistics views.
- `timing.dfy`: the countdown, the pause shift, the `HH:MM:SS` / `MM:SS` displays and the lap deltas.
- `ledger.dfy`: the `user` record and the rules for credits, XP, level, streak, daily reset, goal and name.
- `pomodoro.dfy`: the Pomodoro phase machine.
- `tasks.dfy`: tasks. It covers filtering, the two sort orders, the dashboard's top five, note filing, completion, the add dialog and the completed-in-range counter.
- `habits.dfy`: habits. It covers today's toggle, the per-habit streak loop and the completions-in-range counter.
- `defaults.dfy`: the recursive defaults merge applied when a saved document is loaded.
- `app.dfy`: class `App.FocusFlick`. It has the source's mutable fields, and one method per button callback or timer tick.

The clock is a parameter: `now` is whole seconds, and `today` is the local
day number of `now`. Stored timestamps keep only the part the code reads
back (the date for `last_session`, `last_reset`, task completion and habit
completions). Each timer tick that the source re-schedules with `after(1000, …)`
is one method call here.

Level-ups take one step per award. `check_level_up` (FocusFlick.py:2729-2741)
compares xp with `level*1000` once, with an `if` rather than a loop. When it
fires, it raises the level by one and pays the threshold out of xp. One large
award can therefore leave xp at or above the next threshold until the next
award. `Ledger.CheckLevelUp` and `Ledger.LevelUpIsOneStep` state this.

## Model

| member | source | states |
|---|---|---|
| Defaults.Merge | FocusFlick.py:129-137 | result keys are the union of both sides; a key only in the defaults keeps its default; a loaded value wins unless both sides hold dictionaries, whose result is then the recursive merge of the two; at every depth where both sides hold dictionaries, each default key is present and a default-only key keeps its default value |
| Defaults.MergeKeepsLoaded | FocusFlick.py:129-137 | no loaded value is lost at any depth: every non-dictionary value of the loaded document sits unchanged at the same path of the result |
| Defaults.MergeKeepsDefaultKeys | FocusFlick.py:129-137 | every default key survives, at every depth where the result still holds a dictionary |
| Defaults.MergeSelf | FocusFlick.py:129-137 | merging a document into itself returns it unchanged |
| Defaults.MergeIdempotent | FocusFlick.py:129-137 | loading a document that was saved after a merge gives the same document again |
| Defaults.Load | FocusFlick.py:116-127 | no readable file, or a top level that is not a dictionary, gives the defaults; otherwise the result keeps all loaded values and all default keys, and a key present only in the defaults keeps its default value at every nested depth |
| Defaults.OldSettingsFileExample | FocusFlick.py:104-114 | a settings section saved before `auto_start_breaks` existed gains it, with value true, and keeps the user's focus length |
| Text.Strip | FocusFlick.py:1830-1833 | the stripped text is a slice `s[i..j]` of the input with only whitespace before `i` and after `j`, and it neither starts nor ends with whitespace |
| Text.StripPadded | FocusFlick.py:1830-1833 | padding a text that has no whitespace at either end with blanks on both sides strips back to that text |
| Text.StripEmptyIffBlank | FocusFlick.py:2928-2938 | `s.strip()` is empty exactly when every character of `s` is whitespace |
| Text.ParseInt | FocusFlick.py:2918 | `int()` of a text field succeeds exactly when the stripped text is an optional sign followed by one or more ASCII digits; a blank text never parses |
| Text.ParseIntShape | FocusFlick.py:2918 | a successful parse means the text is blanks, an integer literal, then blanks |
| Text.ParseIgnoresBlanks | FocusFlick.py:2918 | conversely, blanks around an integer literal do not change what it parses to |
| Text.ParseRejectsLetter | FocusFlick.py:2917-2926 | `"12a"` is refused |
| Text.ParseKeepsSign | FocusFlick.py:2917-2926 | `"-7"` parses to -7, which the goal check then refuses |
| Text.ParseDigits | FocusFlick.py:2915-2926 | `int()` of a non-empty digit string is its decimal value |
| Text.ParseMinusDigits | FocusFlick.py:2915-2926 | `int()` of a minus sign followed by digits is the negated value |
| Text.ParsePlusDigits | FocusFlick.py:2918 | `int()` of a plus sign followed by digits is their value |
| Text.ParseDecimal | FocusFlick.py:2915-2926 | `int(str(n))` is `n` for every natural `n` |
| Text.DecimalRoundTrip | FocusFlick.py:2915-2926 | the decimal digits of `n` read back as `n` |
| Timing.Remaining | FocusFlick.py:1164-1166 | `max(0, duration - elapsed)`: zero exactly when the elapsed time reaches the duration, otherwise remaining plus elapsed is the duration |
| Timing.ResumedStart | FocusFlick.py:1184-1186 | after a resume, `now - start` equals its value at the pause instant |
| Timing.ResumeKeepsRemaining | FocusFlick.py:1177-1191 | a countdown shows the same remaining time right after a resume as at the pause |
| Timing.Hms | FocusFlick.py:1413-1418 | hours, minutes and seconds recombine to the input, with minutes and seconds in 0..59 |
| Timing.FormatTime | FocusFlick.py:1413-1418 | colons at the two field boundaries, the last two fields two characters wide; eight characters below 100 hours; for a non-negative time, reading the `HH:MM:SS` display back gives the seconds that were formatted |
| Timing.FormatTimeFields | FocusFlick.py:1413-1418 | for a non-negative time, the three fields of `format_time`'s display are digit strings holding the hours, the minutes 0..59 and the seconds 0..59 of `Hms` |
| Timing.FormatMinSec | FocusFlick.py:1168-1170 | a colon before the two-digit seconds field; five characters below 100 minutes; for a non-negative time the fields are digit strings holding `remaining // 60` and `remaining % 60`, so reading the `MM:SS` display back gives the remaining seconds |
| Timing.FormatTimeExample | FocusFlick.py:1413-1418 | 70 s shows as `00:01:10` |
| Timing.LapDeltas | FocusFlick.py:1373-1386 | one delta per lap; the deltas add up to the last lap time, and their running totals give back the recorded lap times |
| Timing.TwoLapExample | FocusFlick.py:1373-1386 | laps at 30 s and 70 s show deltas 30 and 40 |
| Ledger.DefaultUser | FocusFlick.py:90-102 | a fresh profile is valid: name "Student", level 1, no XP, sessions, seconds or streak, no last session, a daily goal of 120 and today as the last reset |
| Ledger.CheckLevelUp | FocusFlick.py:2729-2741 | level rises by exactly one iff xp reaches `level*1000`, and that threshold is paid out of xp; total XP earned is unchanged; valid profiles stay valid; nothing else changes |
| Ledger.LevelUpRestoresBound | FocusFlick.py:2729-2741 | one step restores `xp < level*1000` when xp was below two thresholds |
| Ledger.LevelUpIsOneStep | FocusFlick.py:2729-2741 | 5000 XP at level 1 gives level 2 with 4000 XP, still above the next threshold |
| Ledger.UpdateStreak | FocusFlick.py:2743-2755 | same day: streak unchanged; no last session or yesterday: streak + 1; any other date, a future one included: 1; the last session becomes today; nothing else changes |
| Ledger.UpdateStreakIdempotent | FocusFlick.py:2743-2755 | a second credit on the same day leaves the streak alone |
| Ledger.StreakCountsRunDays | FocusFlick.py:2743-2755 | credits on a gap-free run of days, several per day allowed, raise the streak by the number of calendar days in the run |
| Ledger.CheckDailyReset | FocusFlick.py:2757-2769 | the last reset date becomes today; nothing else changes |
| Ledger.SessionXp | FocusFlick.py:1203 | `elapsed // 60 * 10`: a non-negative multiple of 10 within 10 of `elapsed / 6` |
| Ledger.CreditSession | FocusFlick.py:1199-1209 | one more session, the seconds added to the total, total XP grows by exactly their session XP; the level rises by one exactly when xp plus the award reaches `level*1000`, otherwise it stays; the streak is the one `update_streak` computes; last session today; name, goal and reset kept; validity kept |
| Ledger.StopCredit | FocusFlick.py:1193-1209 | under 60 elapsed seconds the profile is untouched; from 60 on it is the session credit of the elapsed seconds |
| Ledger.StopCreditChangesIff | FocusFlick.py:1196-1203 | a stop changes the profile exactly when at least 60 seconds elapsed |
| Ledger.AwardXp | FocusFlick.py:1660-1661 | total XP grows by the award; the level rises by one exactly when xp plus the award reaches `level*1000`, otherwise it stays; sessions, totals, streak, last session, name, goal and reset are untouched |
| Ledger.TaskXp | FocusFlick.py:1660 | `priority * 25`, a task without a priority counting as priority 1 |
| Ledger.SetDailyGoal | FocusFlick.py:2915-2926 | accepted iff the parsed value exists and is positive, and then only the goal changes |
| Ledger.SetUserName | FocusFlick.py:2928-2938 | accepted iff the text is not blank; the new name is the stripped text and is never empty |
| Pomodoro.Advance | FocusFlick.py:1523-1554 | the count grows only for a focus phase that was not skipped; after focus comes a long break iff the count is a multiple of the cycle setting, else a short break; after any break comes focus |
| Pomodoro.PhaseSeconds | FocusFlick.py:1542-1554 | a focus phase lasts `focus_duration` minutes, a short break `short_break`, a long break `long_break`; always a whole, and with valid settings positive, number of minutes |
| Pomodoro.AutoStarts | FocusFlick.py:1569-1575 | a focus phase follows `auto_start_pomodoros`, a break follows `auto_start_breaks` |
| Pomodoro.UninterruptedAlternates | FocusFlick.py:1523-1554 | without skips the phases alternate focus and break, and the break after the k-th focus phase is long iff k is a multiple of the cycle setting |
| Pomodoro.FourCycleBreaks | FocusFlick.py:1542-1549 | with four cycles the first breaks are short, short, short, long |
| Pomodoro.SkipFirstFocusGivesLongBreak | FocusFlick.py:1519-1545 | skipping the first focus phase leads to a long break, since `0 % n == 0` |
| Pomodoro.SkipKeepsCount | FocusFlick.py:1525-1531 | skipping never changes the completed count |
| Tasks.Active | FocusFlick.py:1618 | holds exactly the incomplete tasks |
| Tasks.Completed | FocusFlick.py:1619 | holds exactly the completed tasks |
| Tasks.FiltersKeepOrder | FocusFlick.py:1618-1619 | both filters distribute over concatenation, so each keeps the stored order |
| Tasks.ActiveCompletedPartition | FocusFlick.py:1618-1619 | active and completed tasks together hold every stored task exactly once |
| Tasks.TaskOptions | FocusFlick.py:1578-1580 | "None" first, then one entry per incomplete task holding its name |
| Tasks.TaskOptionsListActive | FocusFlick.py:1578-1580 | every incomplete task is offered by name, and every offered name belongs to an incomplete task |
| Tasks.Sort | FocusFlick.py:1621 | the sort keeps length and contents |
| Tasks.SortSorted | FocusFlick.py:1621 | the result is ordered by the key |
| Tasks.SortStable | FocusFlick.py:1621 | tasks with equal keys keep their stored order, like Python's stable sort |
| Tasks.DashboardTasks | FocusFlick.py:1588-1589 | at most five incomplete tasks, fewer only when fewer exist |
| Tasks.DashboardIsTopFive | FocusFlick.py:1588-1589 | the shown tasks are ordered by priority, come from the incomplete tasks, and none ranks below a task left out |
| Tasks.DashboardTiesInStoredOrder | FocusFlick.py:1588-1589 | for every priority, the dashboard's tasks of that priority are the first incomplete ones of that priority in stored order, so a tie for the last slot goes to the task stored first |
| Tasks.FullList | FocusFlick.py:1617-1622 | every task is listed once (a permutation); incomplete ones first, sorted by (priority, created), then the completed ones in stored order |
| Tasks.SaveSessionNotes | FocusFlick.py:1211-1223 | a non-blank note, stripped and dated, is appended to every task named like the selection unless it is "None"; all other tasks are unchanged |
| Tasks.SetCompleted | FocusFlick.py:1655-1658 | the completed flag follows the check-box; checking dates the completion; nothing else changes |
| Tasks.NewTask | FocusFlick.py:1829-1856 | rejected iff the name is blank or the due date malformed; a new task is incomplete, without completion date or notes, created now, and carries the stripped name, the priority and the due date; the description is the stripped text, or absent when blank |
| Tasks.GetCompletedTasksInRange | FocusFlick.py:2603-2612 | the loop counts the completed tasks whose completion date lies in the inclusive range |
| Tasks.CompletedInRangeBound | FocusFlick.py:2603-2612 | only completed tasks are counted |
| Tasks.CompletedInRangeSplit | FocusFlick.py:2603-2612 | counts over two adjacent ranges add up to the count over their union |
| Habits.NewHabit | FocusFlick.py:2261-2277 | rejected iff the name is blank; a new habit is active, created now, has no completions and carries the stripped name; the description is the stripped text, or absent when blank |
| Habits.RemoveFirst | FocusFlick.py:2136-2137 | `list.remove`: the first occurrence is dropped and the rest keeps its order; without an occurrence the list is unchanged |
| Habits.RemoveFirstMultiset | FocusFlick.py:2136-2137 | exactly one copy of the date leaves the list |
| Habits.ToggleToday | FocusFlick.py:2126-2137 | checking adds today unless present; unchecking removes one occurrence |
| Habits.ToggleKeepsDatesUnique | FocusFlick.py:2126-2137 | on a list without duplicate dates a toggle keeps it so, and today is then listed iff the box is checked |
| Habits.ToggleEarnsXp | FocusFlick.py:2129-2134 | the 15 XP are earned exactly when the toggle adds a date |
| Habits.SortDesc | FocusFlick.py:2213 | the sorted dates are a permutation of the completions |
| Habits.SortDescSorted | FocusFlick.py:2213 | the sorted dates are in descending order, newest first |
| Habits.CalculateHabitStreak | FocusFlick.py:2207-2226 | the walk over the dates sorted newest first returns the length of the leading run today, today-1, … |
| Habits.CountRun | FocusFlick.py:2217-2224 | the loop stops at the first date that is not the expected day, and the count is the length of the leading run |
| Habits.LeadingRunMeaning | FocusFlick.py:2207-2226 | on strictly descending dates not after today, the run covers consecutive days ending today and the day before it is absent |
| Habits.HabitStreakMeaning | FocusFlick.py:2207-2226 | for distinct completion dates not after today, the streak k has today … today-k+1 all completed and today-k not |
| Habits.StreakOfRun | FocusFlick.py:2207-2226 | conversely, if exactly the n days ending today are completed, the streak is n |
| Habits.FutureDateZeroesStreak | FocusFlick.py:2207-2226 | one completion dated after today makes the streak 0 |
| Habits.ThreeDayStreakExample | FocusFlick.py:2207-2226 | completions today, yesterday and the day before give a streak of 3 |
| Habits.GapStreakExample | FocusFlick.py:2207-2226 | completions today and three days ago give a streak of 1 |
| Habits.GetHabitCompletionsInRange | FocusFlick.py:2614-2623 | the nested loops count every completion date in the inclusive range, over all habits |
| Habits.CountDates | FocusFlick.py:2618-2622 | the inner loop counts one habit's completion dates in the range |
| Habits.UnboundedCountsAll | FocusFlick.py:2614-2623 | with no bounds every stored completion is counted |
| Habits.DatesInRangeSplit | FocusFlick.py:2614-2623 | counts over two adjacent ranges add up |
| App.NotesKeepPriorities | FocusFlick.py:1211-1223 | filing a note keeps the number of tasks and every task's priority, so priorities in 1..3 stay so |
| App.FocusFlick.constructor | FocusFlick.py:89-114 | the default profile and settings, no tasks or habits, all timers idle |
| App.FocusFlick.StartSession | FocusFlick.py:1146-1160 | the session runs from now for `minutes*60` seconds, all of them still to go |
| App.FocusFlick.UpdateTimer | FocusFlick.py:1162-1175 | a running session reports its remaining seconds; at zero it completes and is credited; a paused or stopped session ignores the tick |
| App.FocusFlick.PauseSession | FocusFlick.py:1177-1191 | pausing records the instant and leaves profile and tasks alone; resuming shifts the start so elapsed time is as at the pause, then ticks: with time left the session runs on and nothing else changes, otherwise it completes, crediting the configured duration and filing the note |
| App.FocusFlick.StopSession | FocusFlick.py:1193-1241 | the profile gets the stop credit of `now - start`; the note is filed only when that credit applies |
| App.FocusFlick.CompleteSession | FocusFlick.py:1243-1290 | always credits the configured duration, whatever the clock says, and files the note |
| App.FocusFlick.StartStopwatch | FocusFlick.py:1293-1303 | the stopwatch runs from now |
| App.FocusFlick.UpdateStopwatch | FocusFlick.py:1305-1313 | a display exactly while running; it is the `HH:MM:SS` rendering of the elapsed seconds (the same formula as `format_time`, written inline) and reads back as them |
| App.FocusFlick.PauseStopwatch | FocusFlick.py:1315-1320 | stops and records the pause instant |
| App.FocusFlick.ResumeStopwatch | FocusFlick.py:1322-1329 | the start moves forward by the pause length |
| App.FocusFlick.StopStopwatch | FocusFlick.py:1331-1371 | the stop credit of the elapsed time, and the laps are cleared |
| App.FocusFlick.RecordLap | FocusFlick.py:1373-1386 | while running, the elapsed time is appended and the returned delta is the last of the lap deltas; otherwise nothing changes |
| App.FocusFlick.StartPomodoro | FocusFlick.py:1421-1448 | the four menu values are stored, the count is 0 and a full focus phase starts now |
| App.FocusFlick.UpdatePomodoro | FocusFlick.py:1450-1463 | a running phase reports its remaining seconds; at zero the next phase begins as `Advance` says, a finished focus phase being credited |
| App.FocusFlick.PausePomodoro | FocusFlick.py:1465-1479 | pausing records the instant and stops; resuming shifts the start by the time since the last recorded pause, then ticks; with no pause ever recorded, Resume changes nothing |
| App.FocusFlick.StopPomodoro | FocusFlick.py:1481-1505 | only a focus phase gets the stop credit; phase and count stay |
| App.FocusFlick.SkipPomodoroPhase | FocusFlick.py:1519-1521 | the profile and the completed count are untouched; the phase moves on |
| App.FocusFlick.NextPomodoroPhase | FocusFlick.py:1523-1575 | a non-skipped focus phase is credited with the configured focus length; the phase follows `Advance`; the new phase runs only if it was running and its auto-start setting is on |
| App.FocusFlick.CheckDailyReset | FocusFlick.py:2757-2769 | the profile's reset date becomes today |
| App.FocusFlick.ToggleTask | FocusFlick.py:1655-1662 | task `i` follows the check-box, and every check awards `TaskXp` again |
| App.FocusFlick.AddTask | FocusFlick.py:1829-1856 | a new task is appended iff `NewTask` accepts it, otherwise an error is returned |
| App.FocusFlick.ToggleHabit | FocusFlick.py:2126-2137 | today is listed iff checked; 15 XP only when today was newly added |
| App.FocusFlick.AddHabit | FocusFlick.py:2261-2277 | the habit is appended iff `NewHabit` accepts it |
| App.FocusFlick.UpdateDailyGoal | FocusFlick.py:2915-2926 | the goal becomes the parsed value iff it is a positive integer; otherwise nothing changes |
| App.FocusFlick.UpdateUserName | FocusFlick.py:2928-2938 | the name becomes the stripped text iff it is not blank; otherwise nothing changes |
| App.FocusFlick.OnClosing | FocusFlick.py:3017-3025 | a running session of at least a minute adds its seconds to the total, with no session, XP or streak credit |

Every `App.FocusFlick` method also keeps `Valid()`. That covers the profile
ranges (`xp >= 0`, `level >= 1`, counters non-negative, goal positive),
positive Pomodoro settings, task priorities in 1..3 and habit completion
lists without duplicate dates.

## Left out

- Widgets, dialogs, view switching, animations and status messages are presentation only.
- Sounds, notifications and the level-up pop-up are foreign side effects.
- `save_data` is an opaque write and is not modelled.
- `export_data` and `import_data` are file I/O. So are the file reads of `load_data`; `Defaults.Load` takes the parsed file, or `None`, as a parameter.
- `get_daily_focus_data` uses random numbers, and the greetings are random picks. Neither is modelled.
- `get_focus_time_in_range` and `get_sessions_in_range` are stand-in approximations (`total // 4`, `// 2`) and are not modelled.
- Floating-point time: `time.time()` becomes whole seconds, so `int(elapsed)` is the identity. The XP bar ratio and the float hour display are not modelled.
- ISO timestamp parsing and `strptime`: dates are day numbers. A due date arrives as `Tasks.DueInput`, already parsed or marked malformed.
- Task editing, task and habit deletion, and the settings switches are outside the modelled callbacks.
- Fields read before they were ever set would raise `AttributeError` in the source. The focus timer's and stopwatch's pause buttons start disabled and are only enabled by their start buttons, and `resume_stopwatch` is not connected to any button, so those reads cannot happen; the constructor sets those fields to 0.
- The Pomodoro pause instant is different: when a phase ends without auto-start, the button reads "Resume" (FocusFlick.py:1575) with no pause of this phase recorded. The model keeps that instant as an `Option`. With none recorded, Resume raises at FocusFlick.py:1474 before changing anything, and the model changes nothing. With an older one recorded, the new phase's start is shifted by the time since that older pause, as the code does.
- The source starts from `default_data`; the constructor does the same. Loading a saved file is modelled separately, by `Defaults.Load`.
- Defaults.Json: numbers are integers and dictionary key order is not represented.
- Text.ParseInt: does not accept `_` between digits or non-ASCII digits, both of which Python's `int()` accepts; such inputs are rejected here.
- Text.ParseDecimal: the round trip is stated for natural numbers only, not for negative ones.
- Habits.Habit: a missing `completions` list is the empty list, which every modelled reader treats the same way.
- Tasks.Active, Tasks.Completed: their own contracts state which tasks they hold; that they keep the stored order is stated by `Tasks.FiltersKeepOrder`.
- Tasks.Task: a missing `completed` flag reads as false, and a missing priority stays `None`. It sorts as 3 and earns XP as 1.
- App.FocusFlick.UpdateTimer: returns the remaining seconds; the `MM:SS` text is `Timing.FormatMinSec` of that value.
- App.FocusFlick.NextPomodoroPhase: with auto-start on, the source ticks once more; that tick sees the full new phase still to run and changes nothing, so it is not repeated here.
