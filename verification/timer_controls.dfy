/** The full timer view: the arrow buttons that step hours, minutes or seconds with
    wrap-around (`adjustTime`), the two-digit field rendering (`formatTimeUnit`) and the
    start/pause button. */
module TimerControls {
  import opened Wrappers
  import opened JsText
  import opened TimerModel

  /** The largest value of each field: 23 for hours (index 0), 59 otherwise. */
  function FieldMax(index: int): nat {
    if index == 0 then 23 else 59
  }

  /** The field an arrow index selects: 0 is hours, 1 is minutes, anything else is seconds. */
  function Field(t: Timer, index: int): int {
    if index == 0 then t.hours else if index == 1 then t.minutes else t.seconds
  }

  /** The field index an arrow index stands for: 0, 1 or 2. */
  function Selected(index: int): nat {
    if index == 0 || index == 1 then index else 2
  }

  /** Up arrow: one more, and 0 past the top (or from anything above it). */
  function WrapInc(v: int, max: nat): (r: int)
    ensures 0 <= v <= max ==> r == (v + 1) % (max + 1)
    ensures v >= max ==> r == 0
  {
    if v >= max then 0 else v + 1
  }

  /** Down arrow: one less, and the top from 0 (or from anything below it). */
  function WrapDec(v: int, max: nat): (r: int)
    ensures 0 <= v <= max ==> r == (v + max) % (max + 1)
    ensures v <= 0 ==> r == max
  {
    if v <= 0 then max else v - 1
  }

  /** On the clock face the two arrows undo each other. */
  lemma WrapInverse(v: int, max: nat)
    requires 0 <= v <= max
    ensures WrapDec(WrapInc(v, max), max) == v
    ensures WrapInc(WrapDec(v, max), max) == v
  {
  }

  function Step(v: int, max: nat, increment: bool): int {
    if increment then WrapInc(v, max) else WrapDec(v, max)
  }

  /** Every field within its clock range. */
  predicate OnClock(t: Timer) {
    0 <= t.hours <= 23 && 0 <= t.minutes <= 59 && 0 <= t.seconds <= 59
  }

  /** `adjustTime(index, increment)`: ignored while the timer runs; otherwise the selected field
      steps with wrap-around and all three fields go through `updateTimer`, which recomputes
      the countdown. */
  function AdjustTime(t: Timer, index: int, increment: bool): (r: Timer)
    ensures t.isRunning ==> r == t
    ensures !t.isRunning ==> Consistent(r) && !r.isRunning
    ensures !t.isRunning ==> Field(r, index) == Step(Field(t, index), FieldMax(index), increment)
    ensures forall j :: 0 <= j <= 2 && j != Selected(index) ==> Field(r, j) == Field(t, j)
    ensures !t.isRunning && OnClock(t) ==> OnClock(r)
  {
    if t.isRunning then t
    else
      var hours := if index == 0 then Step(t.hours, 23, increment) else t.hours;
      var minutes := if index == 1 then Step(t.minutes, 59, increment) else t.minutes;
      var seconds := if index != 0 && index != 1 then Step(t.seconds, 59, increment) else t.seconds;
      UpdateTimer(t, TimerPatch(Some(hours), Some(minutes), Some(seconds), None, None))
  }

  /** On the clock face, the down arrow undoes the up arrow and vice versa: the whole timer
      comes back, countdown included. */
  lemma AdjustRoundTrip(t: Timer, index: int)
    requires !t.isRunning && OnClock(t) && Consistent(t)
    ensures AdjustTime(AdjustTime(t, index, true), index, false) == t
    ensures AdjustTime(AdjustTime(t, index, false), index, true) == t
  {
    WrapInverse(Field(t, index), FieldMax(index));
  }

  /** `formatTimeUnit`: `String(value)` left-padded with '0' to two characters. */
  function FormatTimeUnit(value: int): (r: string)
    // a field on the clock face shows as exactly two digits that read back as the field
    ensures 0 <= value < 100 <==> |r| == 2 && AllDigits(r)
    ensures value >= 0 ==> AllDigits(r) && ParseDigits(r) == value && |r| >= 2
    ensures value < 0 ==> |r| >= 2 && r[0] == '-'
  {
    PaddedDigits(value);
    PadStart(IntToString(value), 2, '0')
  }

  lemma PaddedDigits(value: int)
    ensures var r := PadStart(IntToString(value), 2, '0');
      && (value >= 0 ==> AllDigits(r) && ParseDigits(r) == value)
      && (value < 0 ==> |r| >= 2 && r[0] == '-')
  {
    var r := PadStart(IntToString(value), 2, '0');
    if value >= 0 {
      var d := Digits(value);
      var z := r[..|r| - |d|];
      assert r == z + d;
      ParseLeadingZeros(z, d);
    }
  }

  /** The start/pause button of the full view: it calls `pauseTimer` when running and
      `startTimer` otherwise, so it flips `isRunning` and nothing else. */
  function StartPauseButton(t: Timer): (r: Timer)
    ensures r.isRunning == !t.isRunning
    ensures r.(isRunning := t.isRunning) == t
  {
    if t.isRunning then PauseTimer(t) else StartTimer(t)
  }

  /** Pressing the button twice changes nothing. */
  lemma StartPauseTwice(t: Timer)
    ensures StartPauseButton(StartPauseButton(t)) == t
  {
  }
}
