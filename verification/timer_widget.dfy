/** The compact timer shown beside the reader: the countdown as a clock string
    (`formatTime`), the gate that keeps the timer closed until the text has been read
    (`canStartTimer`), its start/pause toggle and the automatic start after a reading. */
module TimerWidget {
  import opened Wrappers
  import opened JsText
  import opened TimerModel
  import opened TimerControls
  import opened Store

  /** `formatTime(seconds)`: hours from `Math.floor(seconds / 3600)` (Dafny's division agrees
      with the floor for a positive divisor), minutes and seconds from JavaScript's `%`, each
      two-digit field rendered like `formatTimeUnit`, and the hours shown, unpadded, only when
      positive. */
  function FormatTime(seconds: int): (r: string)
    // under an hour the clock reads "mm:ss"; from an hour on, "h:mm:ss" with at least one hour digit
    ensures 0 <= seconds < 3600 ==> |r| == 5 && r[2] == ':' && AllDigits(r[..2]) && AllDigits(r[3..])
    ensures seconds >= 3600 ==> |r| >= 7 && r[|r| - 3] == ':' && r[|r| - 6] == ':' && r[0] != '0'
  {
    var h := seconds / 3600;
    var m := JsRemainder(seconds, 3600) / 60;
    var s := JsRemainder(seconds, 60);
    ClockFacts(seconds);
    ClockShape(IntToString(h), FormatTimeUnit(m), FormatTimeUnit(s));
    if h > 0 then IntToString(h) + ":" + FormatTimeUnit(m) + ":" + FormatTimeUnit(s)
    else FormatTimeUnit(m) + ":" + FormatTimeUnit(s)
  }

  /** Where the separators of a clock string stand, given two-character fields. */
  lemma ClockShape(hh: string, mm: string, ss: string)
    ensures |mm| == 2 && |ss| == 2 ==>
      var long := hh + ":" + mm + ":" + ss;
      && |long| == |hh| + 6 && long[|long| - 3] == ':' && long[|long| - 6] == ':'
      && (|hh| > 0 ==> long[0] == hh[0])
    ensures |mm| == 2 && |ss| == 2 ==>
      var short := mm + ":" + ss;
      |short| == 5 && short[2] == ':' && short[..2] == mm && short[3..] == ss
  {
  }


  /** Reads a clock string back as seconds: "mm:ss", or "h:mm:ss" with any number of hour
      digits; anything else is `None`. */
  function ParseClock(r: string): Option<nat> {
    if |r| == 5 then
      if r[2] == ':' && AllDigits(r[..2]) && AllDigits(r[3..]) then
        Some(ParseDigits(r[..2]) * 60 + ParseDigits(r[3..]))
      else None
    else if |r| >= 7 && r[|r| - 6] == ':' && r[|r| - 3] == ':'
         && AllDigits(r[..|r| - 6]) && AllDigits(r[|r| - 5..|r| - 3]) && AllDigits(r[|r| - 2..]) then
      Some(ParseDigits(r[..|r| - 6]) * 3600 + ParseDigits(r[|r| - 5..|r| - 3]) * 60 + ParseDigits(r[|r| - 2..]))
    else None
  }

  /** The clock fields of a non-negative countdown: minutes and seconds below 60, adding up to
      the countdown. */
  lemma ClockFacts(seconds: int)
    ensures seconds >= 0 ==>
      var h, m, s := seconds / 3600, JsRemainder(seconds, 3600) / 60, JsRemainder(seconds, 60);
      h >= 0 && 0 <= m < 60 && 0 <= s < 60 && h * 3600 + m * 60 + s == seconds
  {
    if seconds >= 0 {
      var q, rest := seconds / 3600, seconds % 3600;
      var k, sec := rest / 60, rest % 60;
      assert rest == k * 60 + sec;
      RemainderOf60(seconds, q * 60 + k, sec);
    }
  }

  lemma RemainderOf60(n: int, k: int, r: int)
    requires 0 <= r < 60 && n == k * 60 + r
    ensures n % 60 == r
  {
  }

  /** "mm:ss" reads back as its two fields. */
  lemma ParseShortClock(mm: string, ss: string)
    requires |mm| == 2 && |ss| == 2 && AllDigits(mm) && AllDigits(ss)
    ensures ParseClock(mm + ":" + ss).Some?
    ensures ParseClock(mm + ":" + ss).value == ParseDigits(mm) * 60 + ParseDigits(ss)
  {
    var r := mm + ":" + ss;
    assert r[..2] == mm && r[2] == ':' && r[3..] == ss;
  }

  /** "h:mm:ss" reads back as its three fields, whatever the number of hour digits. */
  lemma ParseLongClock(hh: string, mm: string, ss: string)
    requires |hh| >= 1 && |mm| == 2 && |ss| == 2 && AllDigits(hh) && AllDigits(mm) && AllDigits(ss)
    ensures ParseClock(hh + ":" + mm + ":" + ss).Some?
    ensures ParseClock(hh + ":" + mm + ":" + ss).value == ParseDigits(hh) * 3600 + ParseDigits(mm) * 60 + ParseDigits(ss)
  {
    LongClockLayout(hh, mm, ss);
    ParseLongLayout(hh + ":" + mm + ":" + ss, hh, mm, ss);
  }

  lemma LongClockLayout(hh: string, mm: string, ss: string)
    requires |hh| >= 1 && |mm| == 2 && |ss| == 2
    ensures var r := hh + ":" + mm + ":" + ss;
      && |r| >= 7 && r[..|r| - 6] == hh && r[|r| - 6] == ':' && r[|r| - 5..|r| - 3] == mm
      && r[|r| - 3] == ':' && r[|r| - 2..] == ss
  {
    var n := |hh|;
    var r := hh + ":" + mm + ":" + ss;
    assert r[..n] == hh;
    assert r[n + 1..n + 3] == mm;
    assert r[n + 4..] == ss;
  }

  lemma ParseLongLayout(r: string, hh: string, mm: string, ss: string)
    requires |hh| >= 1 && |mm| == 2 && |ss| == 2 && AllDigits(hh) && AllDigits(mm) && AllDigits(ss)
    requires |r| >= 7 && r[..|r| - 6] == hh && r[|r| - 6] == ':' && r[|r| - 5..|r| - 3] == mm
      && r[|r| - 3] == ':' && r[|r| - 2..] == ss
    ensures ParseClock(r).Some?
    ensures ParseClock(r).value == ParseDigits(hh) * 3600 + ParseDigits(mm) * 60 + ParseDigits(ss)
  {
  }

  /** The fields a countdown renders to, named. */
  lemma FormatTimeFields(seconds: nat) returns (h: nat, m: nat, sec: nat)
    ensures h * 3600 + m * 60 + sec == seconds && m < 60 && sec < 60
    ensures h > 0 ==> FormatTime(seconds) == Digits(h) + ":" + FormatTimeUnit(m) + ":" + FormatTimeUnit(sec)
    ensures h == 0 ==> FormatTime(seconds) == FormatTimeUnit(m) + ":" + FormatTimeUnit(sec)
  {
    ClockFacts(seconds);
    h, m, sec := seconds / 3600, JsRemainder(seconds, 3600) / 60, JsRemainder(seconds, 60);
  }

  /** The rendering of a countdown parses back to it; under an hour it is exactly "mm:ss", and
      from an hour on it starts with the unpadded hour. */
  lemma ClockRoundTrip(seconds: nat)
    ensures ParseClock(FormatTime(seconds)).Some? && ParseClock(FormatTime(seconds)).value == seconds
    ensures |FormatTime(seconds)| == 5 <==> seconds < 3600
    ensures seconds >= 3600 ==> FormatTime(seconds)[0] != '0' && IsDigit(FormatTime(seconds)[0])
  {
    var h, m, sec := FormatTimeFields(seconds);
    var mm, ss := FormatTimeUnit(m), FormatTimeUnit(sec);
    if h > 0 {
      var hh := Digits(h);
      ParseLongClock(hh, mm, ss);
      assert (hh + ":" + mm + ":" + ss)[0] == hh[0];
    } else {
      ParseShortClock(mm, ss);
    }
  }

  /** Distinct countdowns render differently. */
  lemma FormatTimeInjective(a: nat, b: nat)
    ensures a != b ==> FormatTime(a) != FormatTime(b)
  {
    ClockRoundTrip(a);
    ClockRoundTrip(b);
  }

  lemma NegativeUnit(v: nat)
    requires 1 <= v <= 9
    ensures FormatTimeUnit(-(v as int)) == ['-', DigitChar(v)]
  {
    assert Digits(v) == [DigitChar(v)];
    assert IntToString(-(v as int)) == ['-', DigitChar(v)];
  }

  lemma ShortRendering(seconds: int, m: int, sec: int)
    requires seconds / 3600 <= 0 && m == JsRemainder(seconds, 3600) / 60 && sec == JsRemainder(seconds, 60)
    ensures FormatTime(seconds) == FormatTimeUnit(m) + ":" + FormatTimeUnit(sec)
  {
  }

  /** A negative countdown (which no action produces) renders with negative fields. `%` keeps
      the sign, so the seconds are -5, and `Math.floor` rounds the minutes, -5 / 60, down to -1.
      The hours, also -1, are not shown since they are not positive. */
  lemma NegativeClock()
    ensures FormatTime(-5) == "-1:-5"
  {
    assert JsRemainder(-5, 3600) == -5 && JsRemainder(-5, 60) == -5;
    ShortRendering(-5, -1, -5);
    NegativeUnit(1);
    NegativeUnit(5);
  }

  /** `canStartTimer`: the timer may be used unless the settings ask for the text to be read
      first and the reading has not completed. */
  predicate CanStartTimer(s: Settings, readingComplete: bool) {
    !s.readSuttaBeforeMeditation || readingComplete
  }

  /** The widget's start/pause button: `updateTimer({ isRunning: !isRunning })`, and disabled
      (so nothing happens) while the timer may not be used. */
  function WidgetToggle(t: Timer, s: Settings, readingComplete: bool): (r: Timer)
    ensures CanStartTimer(s, readingComplete) ==> r.isRunning == !t.isRunning && r.(isRunning := t.isRunning) == t
    ensures !CanStartTimer(s, readingComplete) ==> r == t
  {
    if CanStartTimer(s, readingComplete) then UpdateTimer(t, EmptyPatch.(isRunning := Some(!t.isRunning)))
    else t
  }

  /** When enabled, the widget's button does what the full view's start/pause button does. */
  lemma WidgetToggleAgrees(t: Timer, s: Settings, readingComplete: bool)
    requires CanStartTimer(s, readingComplete)
    ensures WidgetToggle(t, s, readingComplete) == StartPauseButton(t)
  {
  }

  /** The gate also blocks pausing: a timer that runs while the reading requirement is unmet
      (started from the full view, say) cannot be paused from the widget. */
  lemma GateBlocksPause(t: Timer, s: Settings)
    requires s.readSuttaBeforeMeditation && t.isRunning
    ensures WidgetToggle(t, s, false).isRunning
  {
  }

  /** With the requirement switched off the timer is always usable. */
  lemma GateOpenWithoutRequirement(s: Settings, readingComplete: bool)
    requires !s.readSuttaBeforeMeditation
    ensures CanStartTimer(s, readingComplete)
  {
  }

  /** The condition of the auto-start effect. */
  predicate AutoStartDue(s: Settings, readingComplete: bool, isReading: bool) {
    s.autoStartTimerAfterSutta && readingComplete && !isReading
  }

  /** The auto-start effect: `updateTimer({ isRunning: true })` when due, which sets only the
      running flag and keeps the countdown. */
  function AutoStart(t: Timer, s: Settings, readingComplete: bool, isReading: bool): (r: Timer)
    ensures r.isRunning <==> AutoStartDue(s, readingComplete, isReading) || t.isRunning
    ensures r.(isRunning := t.isRunning) == t
  {
    if AutoStartDue(s, readingComplete, isReading) then UpdateTimer(t, EmptyPatch.(isRunning := Some(true)))
    else t
  }

  /** The effect re-runs whenever its inputs change; running it again changes nothing more. */
  lemma AutoStartIdempotent(t: Timer, s: Settings, readingComplete: bool, isReading: bool)
    ensures var once := AutoStart(t, s, readingComplete, isReading);
      AutoStart(once, s, readingComplete, isReading) == once
  {
  }
}
