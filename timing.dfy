/** The arithmetic the three timers share: the countdown, the pause shift,
    the clock displays and the stopwatch's lap deltas. Times are whole
    seconds read from an external clock. */
module Timing {
  import opened Wrappers
  import opened Text

  /** Seconds still to run on a countdown of `duration` seconds started at
      `start`, as `max(0, duration - elapsed)`. */
  function Remaining(duration: int, start: int, now: int): (r: int)
    ensures r >= 0
    ensures r == 0 <==> now - start >= duration
    ensures r > 0 ==> r + (now - start) == duration
  {
    if duration - (now - start) > 0 then duration - (now - start) else 0
  }

  /** The start instant after a resume: moved forward by the length of the
      pause, so the elapsed time at the resume instant equals the elapsed
      time at the pause instant. */
  function ResumedStart(start: int, pausedAt: int, now: int): (r: int)
    ensures now - r == pausedAt - start
    ensures r - start == now - pausedAt
  {
    start + (now - pausedAt)
  }

  /** A countdown shows the same remaining time right after a resume as it
      showed when it was paused. */
  lemma ResumeKeepsRemaining(duration: int, start: int, pausedAt: int, now: int)
    ensures Remaining(duration, ResumedStart(start, pausedAt, now), now)
         == Remaining(duration, start, pausedAt)
  {
  }

  /** The hours / minutes / seconds split of `format_time`, with Python's
      floor division (Dafny's `/` and `%` agree with it for a positive divisor). */
  function Hms(seconds: int): (r: (int, int, int))
    ensures r.0 * 3600 + r.1 * 60 + r.2 == seconds
    ensures 0 <= r.1 < 60 && 0 <= r.2 < 60
    ensures seconds >= 0 ==> r.0 >= 0
    ensures seconds < 360000 ==> r.0 < 100
  {
    var rest := seconds % 3600;
    assert rest % 60 == seconds % 60 by {
      assert seconds == 60 * (60 * (seconds / 3600)) + rest;
    }
    (seconds / 3600, rest / 60, seconds % 60)
  }

  /** Python's `f"{n:02d}"`: at least two characters, zero-padded, a minus
      sign counting towards the width. */
  function Pad2(n: int): (r: string)
    ensures |r| >= 2
    ensures n >= 0 ==> AllDigits(r)
    ensures 0 <= n < 100 ==> |r| == 2
  {
    if n < 0 then "-" + Decimal(-n)
    else if n < 10 then "0" + Decimal(n)
    else Decimal(n)
  }

  lemma Pad2Value(n: nat)
    ensures DigitsValue(Pad2(n)) == n
  {
    if n < 10 {
      var r := Pad2(n);
      assert r[..1] == "0";
      assert DigitsValue("0") == 0;
    } else {
      DecimalRoundTrip(n);
    }
  }

  /** A display field: a string of decimal digits denoting `n`. */
  predicate DigitField(f: string, n: int)
  {
    AllDigits(f) && DigitsValue(f) == n
  }

  /** Reads back an `HH:MM:SS` display: hours are everything before the
      last two fields. */
  function ClockValue(r: string): int
  {
    if |r| < 8 then 0
    else
      var h, m, s := r[..|r| - 6], r[|r| - 5..|r| - 3], r[|r| - 2..];
      DigitsValue(h) * 3600 + DigitsValue(m) * 60 + DigitsValue(s)
  }

  /** Reads back an `MM:SS` display: minutes are everything before the
      last field. */
  function MinSecValue(r: string): int
  {
    if |r| < 5 then 0 else DigitsValue(r[..|r| - 3]) * 60 + DigitsValue(r[|r| - 2..])
  }

  /** `format_time`: `HH:MM:SS`, used for the stopwatch, lap times and lap
      deltas. The last two colon-separated fields are two characters wide, and
      reading a non-negative time's display back gives the seconds that were
      formatted; `FormatTimeFields` states what each field holds. */
  function FormatTime(seconds: int): (r: string)
    ensures |r| >= 8 && r[|r| - 3] == ':' && r[|r| - 6] == ':'
    ensures 0 <= seconds < 360000 ==> |r| == 8
    ensures seconds >= 0 ==> ClockValue(r) == seconds
  {
    var hms := Hms(seconds);
    Clock(hms.0, hms.1, hms.2)
  }

  /** The `HH:MM:SS` display of an hours / minutes / seconds split. */
  function Clock(hours: int, mins: int, secs: int): (r: string)
    requires 0 <= mins < 60 && 0 <= secs < 60
    ensures |r| >= 8 && r[|r| - 3] == ':' && r[|r| - 6] == ':'
    ensures 0 <= hours < 100 ==> |r| == 8
    ensures hours >= 0 ==> ClockValue(r) == hours * 3600 + mins * 60 + secs
  {
    var h, m, s := Pad2(hours), Pad2(mins), Pad2(secs);
    if hours >= 0 then
      Pad2Value(hours);
      Pad2Value(mins);
      Pad2Value(secs);
      ClockDigits(h, m, s, hours, mins, secs);
      h + ":" + m + ":" + s
    else
      ClockFields(h, m, s);
      h + ":" + m + ":" + s
  }

  /** Fields denoting `hours`, `mins` and `secs` make a display that reads
      back as their total in seconds. */
  lemma ClockDigits(h: string, m: string, s: string, hours: int, mins: int, secs: int)
    requires |h| >= 2 && |m| == 2 && |s| == 2
    requires DigitsValue(h) == hours && DigitsValue(m) == mins && DigitsValue(s) == secs
    ensures var r := h + ":" + m + ":" + s;
      |r| == |h| + 6 && r[|r| - 3] == ':' && r[|r| - 6] == ':'
      && ClockValue(r) == hours * 3600 + mins * 60 + secs
  {
    ClockFields(h, m, s);
  }

  /** The three fields of a non-negative time's display are digit strings
      holding its hours, minutes and seconds. */
  lemma FormatTimeFields(seconds: int)
    requires seconds >= 0
    ensures var r := FormatTime(seconds);
      DigitField(r[..|r| - 6], Hms(seconds).0)
      && DigitField(r[|r| - 5..|r| - 3], Hms(seconds).1)
      && DigitField(r[|r| - 2..], Hms(seconds).2)
  {
    var hms := Hms(seconds);
    var h, m, s := Pad2(hms.0), Pad2(hms.1), Pad2(hms.2);
    Pad2Value(hms.0);
    Pad2Value(hms.1);
    Pad2Value(hms.2);
    ClockFields(h, m, s);
    var r := FormatTime(seconds);
    assert r == h + ":" + m + ":" + s;
  }

  /** Where the three fields of an `HH:MM:SS` display sit. */
  lemma ClockFields(h: string, m: string, s: string)
    requires |h| >= 2 && |m| == 2 && |s| == 2
    ensures var r := h + ":" + m + ":" + s;
      |r| == |h| + 6 && r[|r| - 3] == ':' && r[|r| - 6] == ':'
      && r[..|r| - 6] == h && r[|r| - 5..|r| - 3] == m && r[|r| - 2..] == s
      && ClockValue(r) == DigitsValue(h) * 3600 + DigitsValue(m) * 60 + DigitsValue(s)
  {
    var hm := h + ":" + m;
    var r := hm + ":" + s;
    Fields(hm, ':', s);
    Fields(h, ':', m);
    assert r[..|r| - 6] == h by { assert r[..|r| - 6] == hm[..|h|]; }
    assert r[|r| - 5..|r| - 3] == m by { assert r[|r| - 5..|r| - 3] == hm[|h| + 1..]; }
    assert r[|r| - 2..] == s;
  }

  /** Where the two fields of an `MM:SS` display sit. */
  lemma MinSecFields(m: string, s: string)
    requires |m| >= 2 && |s| == 2
    ensures var r := m + ":" + s;
      |r| == |m| + 3 && r[|r| - 3] == ':' && r[..|r| - 3] == m && r[|r| - 2..] == s
      && MinSecValue(r) == DigitsValue(m) * 60 + DigitsValue(s)
  {
    Fields(m, ':', s);
  }

  /** Splitting `a + [sep] + b` back at the separator. */
  lemma Fields<T>(a: seq<T>, sep: T, b: seq<T>)
    ensures var r := a + [sep] + b;
      r[..|a|] == a && r[|a|] == sep && r[|a| + 1..] == b
  {
  }

  /** The `MM:SS` countdown display of the focus and Pomodoro timers. For a
      non-negative remaining time the fields are digit strings holding the
      whole minutes and the seconds 0..59, the seconds two digits wide; so the
      remaining time reads back from it. */
  function FormatMinSec(remaining: int): (r: string)
    ensures |r| >= 5 && r[|r| - 3] == ':'
    ensures 0 <= remaining < 6000 ==> |r| == 5
    ensures remaining >= 0 ==>
      DigitField(r[..|r| - 3], remaining / 60) && DigitField(r[|r| - 2..], remaining % 60)
    ensures remaining >= 0 ==> MinSecValue(r) == remaining
  {
    var m, s := Pad2(remaining / 60), Pad2(remaining % 60);
    MinSecFields(m, s);
    if remaining >= 0 then
      Pad2Value(remaining / 60);
      Pad2Value(remaining % 60);
      m + ":" + s
    else m + ":" + s
  }

  function Sum(d: seq<int>): int
  {
    if d == [] then 0 else Sum(d[..|d| - 1]) + d[|d| - 1]
  }

  /** Running totals: element `i` is the sum of `d[0..i+1]`. */
  function RunningTotals(d: seq<int>): (r: seq<int>)
    ensures |r| == |d|
  {
    if d == [] then [] else RunningTotals(d[..|d| - 1]) + [Sum(d)]
  }

  /** Sum and running totals after one more element. */
  lemma SumSnoc(d: seq<int>, x: int)
    ensures Sum(d + [x]) == Sum(d) + x
    ensures RunningTotals(d + [x]) == RunningTotals(d) + [Sum(d) + x]
  {
    assert (d + [x])[..|d|] == d;
  }

  /** The deltas shown beside the laps: the first lap itself, then each
      lap minus the one before. They add up to the last lap, and their
      running totals give the recorded lap times back, so the display
      loses nothing. */
  function LapDeltas(laps: seq<int>): (r: seq<int>)
    ensures |r| == |laps|
    ensures laps != [] ==> Sum(r) == laps[|laps| - 1]
    ensures RunningTotals(r) == laps
  {
    if |laps| <= 1 then
      assert laps != [] ==> laps[..0] == [];
      laps
    else
      var n := |laps|;
      var init := laps[..n - 1];
      var d := LapDeltas(init);
      var x := laps[n - 1] - laps[n - 2];
      SumSnoc(d, x);
      assert init[n - 2] == laps[n - 2];
      assert laps == init + [laps[n - 1]];
      d + [x]
  }

  /** Stopwatch scenario: laps taken at 0:30 and 1:10 show deltas of 30
      and 40 seconds. */
  lemma TwoLapExample()
    ensures LapDeltas([30, 70]) == [30, 40]
  {
    assert [30, 70][..1] == [30];
  }

  /** 70 seconds on the stopwatch display. */
  lemma FormatTimeExample()
    ensures FormatTime(70) == "00:01:10"
  {
    assert Hms(70) == (0, 1, 10);
    assert Pad2(0) == "00" && Pad2(1) == "01" && Pad2(10) == "10";
  }
}
