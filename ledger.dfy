/** The progress ledger: the `user` section of the document and the rules
    that credit sessions, award XP, level up and keep the daily streak.
    Calendar dates are day numbers; `today` is the date of the clock's `now`. */
module Ledger {
  import opened Wrappers
  import opened Text

  const XpPerLevel := 1000
  /** A stopped session shorter than this many seconds is not credited. */
  const MinCreditedSeconds := 60
  const XpPerMinute := 10
  const HabitXp := 15
  const TaskXpPerPriority := 25

  /** The `user` record. `lastSession` and `lastReset` keep only the date of
      the stored timestamps, the only part the ledger reads back. */
  datatype User = User(
    name: string,
    streak: int,
    totalSeconds: int,
    sessions: int,
    lastSession: Option<int>,
    dailyGoal: int,
    xp: int,
    level: int,
    lastReset: Option<int>)

  /** The ranges every counter keeps. */
  predicate Valid(u: User) {
    u.streak >= 0 && u.totalSeconds >= 0 && u.sessions >= 0 && u.dailyGoal > 0
    && u.xp >= 0 && u.level >= 1
  }

  /** The profile of a fresh document. */
  function DefaultUser(today: int): (u: User)
    ensures Valid(u) && u.xp == 0 && u.level == 1 && u.sessions == 0 && u.streak == 0
    ensures u.totalSeconds == 0 && u.lastSession == None && u.dailyGoal == 120
    ensures u.name == "Student" && u.lastReset == Some(today)
  {
    User("Student", 0, 0, 0, None, 120, 0, 1, Some(today))
  }

  /** XP needed to reach `level` from level 1: 1000 + 2000 + ... + (level-1)*1000. */
  function LevelBase(level: int): int
  {
    if level <= 1 then 0 else LevelBase(level - 1) + (level - 1) * XpPerLevel
  }

  /** All XP ever earned: what the levels reached cost plus the XP in hand. */
  function LifetimeXp(u: User): int
  {
    LevelBase(u.level) + u.xp
  }

  /** `check_level_up`: a single step. At or above the threshold `level*1000`
      the level goes up by exactly one and the threshold is paid out of xp;
      below it nothing changes. No XP is created or lost. */
  function CheckLevelUp(u: User): (r: User)
    ensures r.level == u.level + 1 <==> u.xp >= u.level * XpPerLevel
    ensures r.level == u.level || r.level == u.level + 1
    ensures u.level >= 1 ==> LifetimeXp(r) == LifetimeXp(u)
    ensures Valid(u) ==> Valid(r)
    ensures r.(xp := u.xp, level := u.level) == u
  {
    if u.xp >= u.level * XpPerLevel then
      u.(level := u.level + 1, xp := u.xp - u.level * XpPerLevel)
    else u
  }

  /** The at-rest bound `xp < level*1000` is restored by one step whenever
      the XP in hand is below the next two thresholds together. */
  lemma LevelUpRestoresBound(u: User)
    requires Valid(u)
    requires u.xp < u.level * XpPerLevel + (u.level + 1) * XpPerLevel
    ensures CheckLevelUp(u).xp < CheckLevelUp(u).level * XpPerLevel
  {
  }

  /** One step only: 5000 XP at level 1 reaches level 2 with 4000 XP, still
      above level 2's threshold of 2000. */
  lemma LevelUpIsOneStep()
    ensures var u := DefaultUser(0).(xp := 5000);
      CheckLevelUp(u).level == 2 && CheckLevelUp(u).xp == 4000
  {
  }

  /** `update_streak`. Same date as the last session: unchanged; no last
      session or the day before: one more; any other gap, including a last
      session dated in the future: back to 1. The last session becomes today. */
  function UpdateStreak(u: User, today: int): (r: User)
    ensures r.lastSession == Some(today)
    ensures u.lastSession == Some(today) ==> r.streak == u.streak
    ensures u.lastSession == None || u.lastSession == Some(today - 1) ==> r.streak == u.streak + 1
    ensures u.lastSession.Some? && u.lastSession.value != today && u.lastSession.value != today - 1
      ==> r.streak == 1
    ensures Valid(u) ==> Valid(r)
    ensures r.(streak := u.streak, lastSession := u.lastSession) == u
  {
    var streak :=
      if u.lastSession == Some(today) then u.streak
      else if u.lastSession.None? || u.lastSession.value == today - 1 then u.streak + 1
      else 1;
    u.(streak := streak, lastSession := Some(today))
  }

  /** Updating the streak twice on the same day changes nothing the second time. */
  lemma UpdateStreakIdempotent(u: User, today: int)
    ensures UpdateStreak(UpdateStreak(u, today), today) == UpdateStreak(u, today)
  {
  }

  /** The streak after credited sessions on the days in `days`, in order. */
  function StreakAfter(u: User, days: seq<int>): User
  {
    if days == [] then u else UpdateStreak(StreakAfter(u, days[..|days| - 1]), days[|days| - 1])
  }

  /** Sessions on every day of a run without gaps (several on one day allowed)
      count each calendar day of the run once. */
  predicate NoGaps(days: seq<int>) {
    forall i :: 0 < i < |days| ==> days[i] == days[i - 1] || days[i] == days[i - 1] + 1
  }

  lemma {:induction false} StreakCountsRunDays(u: User, days: seq<int>)
    requires days != [] && NoGaps(days)
    requires u.lastSession == None || u.lastSession == Some(days[0] - 1)
    ensures StreakAfter(u, days).streak == u.streak + (days[|days| - 1] - days[0] + 1)
    ensures StreakAfter(u, days).lastSession == Some(days[|days| - 1])
  {
    var n := |days|;
    if n > 1 {
      var init := days[..n - 1];
      assert NoGaps(init) by {
        forall i | 0 < i < |init| ensures init[i] == init[i - 1] || init[i] == init[i - 1] + 1 {
          assert init[i] == days[i] && init[i - 1] == days[i - 1];
        }
      }
      StreakCountsRunDays(u, init);
    }
  }

  /** `check_daily_reset`: records today as the last reset date when it is not. */
  function CheckDailyReset(u: User, today: int): (r: User)
    ensures r.lastReset == Some(today)
    ensures r.(lastReset := u.lastReset) == u
    ensures u.lastReset == Some(today) ==> r == u
  {
    if u.lastReset != Some(today) then u.(lastReset := Some(today)) else u
  }

  /** XP for `seconds` of focus: `seconds // 60 * 10`. */
  function SessionXp(seconds: int): (r: int)
    requires seconds >= 0
    ensures r >= 0 && r % XpPerMinute == 0
    ensures r <= seconds / 6 < r + XpPerMinute
  {
    seconds / 60 * XpPerMinute
  }

  /** The block shared by every credited session: one more session, the
      seconds added to the total, their XP awarded, then the level-up step
      and the streak update. */
  function CreditSession(u: User, seconds: int, today: int): (r: User)
    requires seconds >= 0
    ensures r.sessions == u.sessions + 1
    ensures r.totalSeconds == u.totalSeconds + seconds
    ensures u.level >= 1 ==> LifetimeXp(r) == LifetimeXp(u) + SessionXp(seconds)
    ensures r.level == u.level + 1 <==> u.xp + SessionXp(seconds) >= u.level * XpPerLevel
    ensures r.level == u.level || r.level == u.level + 1
    ensures r.streak == UpdateStreak(u, today).streak
    ensures r.lastSession == Some(today)
    ensures r.name == u.name && r.dailyGoal == u.dailyGoal && r.lastReset == u.lastReset
    ensures Valid(u) ==> Valid(r)
  {
    var earned := u.(sessions := u.sessions + 1, totalSeconds := u.totalSeconds + seconds,
                     xp := u.xp + SessionXp(seconds));
    UpdateStreak(CheckLevelUp(earned), today)
  }

  /** The stop rule of the focus timer, the stopwatch and the Pomodoro focus
      phase: `int(elapsed) >= 60` credits the elapsed seconds, anything
      shorter leaves the profile exactly as it was. */
  function StopCredit(u: User, elapsed: int, today: int): (r: User)
    ensures elapsed < MinCreditedSeconds ==> r == u
    ensures elapsed >= MinCreditedSeconds ==> r == CreditSession(u, elapsed, today)
    ensures r != u ==> elapsed >= MinCreditedSeconds
    ensures Valid(u) ==> Valid(r)
  {
    if elapsed >= MinCreditedSeconds then CreditSession(u, elapsed, today) else u
  }

  /** A credited stop always changes the profile (the session count grows). */
  lemma StopCreditChangesIff(u: User, elapsed: int, today: int)
    ensures StopCredit(u, elapsed, today) != u <==> elapsed >= MinCreditedSeconds
  {
    if elapsed >= MinCreditedSeconds {
      assert StopCredit(u, elapsed, today).sessions == u.sessions + 1;
    }
  }

  /** XP awarded outside a session (task or habit completion), followed by
      the level-up step. */
  function AwardXp(u: User, amount: int): (r: User)
    ensures u.level >= 1 ==> LifetimeXp(r) == LifetimeXp(u) + amount
    ensures r.level == u.level + 1 <==> u.xp + amount >= u.level * XpPerLevel
    ensures r.level == u.level || r.level == u.level + 1
    ensures r.sessions == u.sessions && r.totalSeconds == u.totalSeconds
    ensures r.streak == u.streak && r.lastSession == u.lastSession
    ensures r.name == u.name && r.dailyGoal == u.dailyGoal && r.lastReset == u.lastReset
    ensures Valid(u) && amount >= 0 ==> Valid(r)
  {
    CheckLevelUp(u.(xp := u.xp + amount))
  }

  /** XP for completing a task: `priority * 25`, a task without a priority
      counting as priority 1. */
  function TaskXp(priority: Option<int>): (r: int)
    ensures priority.None? ==> r == TaskXpPerPriority
    ensures priority.Some? ==> r == priority.value * TaskXpPerPriority
  {
    priority.GetOr(1) * TaskXpPerPriority
  }

  /** `update_daily_goal`: accepted only when the text parsed to a positive
      integer; otherwise the old goal stays. */
  function SetDailyGoal(u: User, parsed: Option<int>): (r: Result<User, string>)
    ensures r.Ok? <==> parsed.Some? && parsed.value > 0
    ensures r.Ok? ==> r.value == u.(dailyGoal := parsed.value)
    ensures Valid(u) && r.Ok? ==> Valid(r.value)
  {
    if parsed.Some? && parsed.value > 0 then Ok(u.(dailyGoal := parsed.value))
    else Err("Daily goal must be a positive number")
  }

  /** `update_user_name`: the stripped text replaces the name unless it is
      blank, in which case the old name stays. */
  function SetUserName(u: User, text: string): (r: Result<User, string>)
    ensures r.Ok? <==> !AllSpace(text)
    ensures r.Ok? ==> r.value == u.(name := Strip(text)) && r.value.name != []
  {
    StripEmptyIffBlank(text);
    var name := Strip(text);
    if name != [] then Ok(u.(name := name)) else Err("Name cannot be empty")
  }
}
