/** The Pomodoro phase machine: which phase follows which, when a focus
    phase is credited, and whether the next phase starts by itself. */
module Pomodoro {

  datatype Phase = Focus | ShortBreak | LongBreak

  /** The Pomodoro part of the `settings` section (durations in minutes). */
  datatype Settings = Settings(
    focusDuration: int,
    shortBreak: int,
    longBreak: int,
    pomodoroCycles: int,
    autoStartBreaks: bool,
    autoStartPomodoros: bool)

  predicate ValidSettings(s: Settings) {
    s.focusDuration > 0 && s.shortBreak > 0 && s.longBreak > 0 && s.pomodoroCycles > 0
  }

  const DefaultSettings := Settings(25, 5, 15, 4, true, true)

  /** The phase and the number of completed focus phases. */
  datatype Cycle = Cycle(phase: Phase, completed: int)

  /** Only a focus phase that ran to its end (not skipped) is credited. */
  predicate CreditsFocus(c: Cycle, skipped: bool) {
    !skipped && c.phase == Focus
  }

  /** The phase after `c` for `next_pomodoro_phase`: the completed count
      grows for a credited focus phase; after focus comes a long break when
      the count (after that increment) is a multiple of `cyclesPerLong`,
      otherwise a short break; after any break comes focus. */
  function Advance(c: Cycle, skipped: bool, cyclesPerLong: int): (r: Cycle)
    requires cyclesPerLong > 0
    ensures r.completed == if CreditsFocus(c, skipped) then c.completed + 1 else c.completed
    ensures c.phase != Focus ==> r.phase == Focus
    ensures c.phase == Focus ==> r.phase != Focus
    ensures c.phase == Focus ==> (r.phase == LongBreak <==> r.completed % cyclesPerLong == 0)
  {
    var completed := if CreditsFocus(c, skipped) then c.completed + 1 else c.completed;
    var next :=
      if c.phase == Focus then
        (if completed % cyclesPerLong == 0 then LongBreak else ShortBreak)
      else Focus;
    Cycle(next, completed)
  }

  /** Seconds a phase lasts under the settings: the minutes of the setting
      that belongs to the phase. */
  function PhaseSeconds(p: Phase, s: Settings): (r: int)
    ensures ValidSettings(s) ==> r > 0
    ensures r % 60 == 0
    ensures p == Focus ==> r / 60 == s.focusDuration
    ensures p == ShortBreak ==> r / 60 == s.shortBreak
    ensures p == LongBreak ==> r / 60 == s.longBreak
  {
    match p
    case Focus => s.focusDuration * 60
    case ShortBreak => s.shortBreak * 60
    case LongBreak => s.longBreak * 60
  }

  /** Whether the phase entered starts counting down by itself. */
  function AutoStarts(p: Phase, s: Settings): (r: bool)
    ensures p == Focus ==> (r <==> s.autoStartPomodoros)
    ensures p != Focus ==> (r <==> s.autoStartBreaks)
  {
    if p == Focus then s.autoStartPomodoros else s.autoStartBreaks
  }

  /** The state after `m` phases that all ran to their end, from the state
      `start_pomodoro` sets up. */
  function Uninterrupted(m: nat, cyclesPerLong: int): Cycle
    requires cyclesPerLong > 0
  {
    if m == 0 then Cycle(Focus, 0) else Advance(Uninterrupted(m - 1, cyclesPerLong), false, cyclesPerLong)
  }

  /** Without skips the machine alternates focus and break; the break after
      the k-th focus phase is long exactly when k is a multiple of the cycle
      count. */
  lemma {:induction false} UninterruptedAlternates(k: nat, cyclesPerLong: int)
    requires cyclesPerLong > 0
    ensures Uninterrupted(2 * k, cyclesPerLong) == Cycle(Focus, k)
    ensures Uninterrupted(2 * k + 1, cyclesPerLong).completed == k + 1
    ensures Uninterrupted(2 * k + 1, cyclesPerLong).phase
      == if (k + 1) % cyclesPerLong == 0 then LongBreak else ShortBreak
  {
    if k > 0 {
      UninterruptedAlternates(k - 1, cyclesPerLong);
      assert 2 * k == 2 * (k - 1) + 1 + 1;
    }
  }

  /** With four cycles per long break the first four breaks are short,
      short, short, long. */
  lemma FourCycleBreaks()
    ensures Uninterrupted(1, 4).phase == ShortBreak
    ensures Uninterrupted(3, 4).phase == ShortBreak
    ensures Uninterrupted(5, 4).phase == ShortBreak
    ensures Uninterrupted(7, 4).phase == LongBreak
  {
    UninterruptedAlternates(0, 4);
    UninterruptedAlternates(1, 4);
    UninterruptedAlternates(2, 4);
    UninterruptedAlternates(3, 4);
  }

  /** Skipping the very first focus phase leads to a long break, because
      the completed count is still 0 and `0 % n == 0`. */
  lemma SkipFirstFocusGivesLongBreak(cyclesPerLong: int)
    requires cyclesPerLong > 0
    ensures Advance(Cycle(Focus, 0), true, cyclesPerLong) == Cycle(LongBreak, 0)
  {
  }

  /** Skipping never changes the completed count. */
  lemma SkipKeepsCount(c: Cycle, cyclesPerLong: int)
    requires cyclesPerLong > 0
    ensures Advance(c, true, cyclesPerLong).completed == c.completed
  {
  }
}
