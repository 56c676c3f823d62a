/** The meditation timer held in the store (`Timer` in the types file and the timer actions of
    the store): a countdown in whole seconds, shown as hours, minutes and seconds. */
module TimerModel {
  import opened Wrappers

  datatype Timer = Timer(hours: int, minutes: int, seconds: int, remainingSeconds: int, isRunning: bool)

  /** A partial timer as passed to `updateTimer`: a field is `None` when the key is absent. */
  datatype TimerPatch = TimerPatch(
    hours: Option<int>, minutes: Option<int>, seconds: Option<int>,
    remainingSeconds: Option<int>, isRunning: Option<bool>)

  const EmptyPatch := TimerPatch(None, None, None, None, None)

  /** Ten minutes, stopped. */
  const DefaultTimer := Timer(0, 10, 0, 600, false)

  function Total(hours: int, minutes: int, seconds: int): int {
    hours * 3600 + minutes * 60 + seconds
  }

  /** The displayed fields add up to the countdown. */
  predicate Consistent(t: Timer) {
    Total(t.hours, t.minutes, t.seconds) == t.remainingSeconds
  }

  /** The displayed fields are the clock reading of the countdown: minutes and seconds below 60. */
  predicate Normal(t: Timer) {
    Consistent(t) && t.hours >= 0 && 0 <= t.minutes < 60 && 0 <= t.seconds < 60
  }

  predicate HasTimeField(p: TimerPatch) {
    p.hours.Some? || p.minutes.Some? || p.seconds.Some?
  }

  /** `updateTimer`: the patch is merged over the timer, and when it sets any of hours, minutes or
      seconds the countdown is recomputed from the merged fields. */
  function UpdateTimer(t: Timer, p: TimerPatch): (r: Timer)
    ensures HasTimeField(p) ==> Consistent(r)
    ensures !HasTimeField(p) ==> r.remainingSeconds == p.remainingSeconds.GetOr(t.remainingSeconds)
    ensures r.hours == p.hours.GetOr(t.hours) && r.minutes == p.minutes.GetOr(t.minutes)
      && r.seconds == p.seconds.GetOr(t.seconds) && r.isRunning == p.isRunning.GetOr(t.isRunning)
  {
    var merged := Timer(
      p.hours.GetOr(t.hours), p.minutes.GetOr(t.minutes), p.seconds.GetOr(t.seconds),
      p.remainingSeconds.GetOr(t.remainingSeconds), p.isRunning.GetOr(t.isRunning));
    if HasTimeField(p) then merged.(remainingSeconds := Total(merged.hours, merged.minutes, merged.seconds))
    else merged
  }

  /** Applying the same patch twice is the same as applying it once. */
  lemma UpdateTimerIdempotent(t: Timer, p: TimerPatch)
    ensures UpdateTimer(UpdateTimer(t, p), p) == UpdateTimer(t, p)
  {
  }

  /** The empty patch changes nothing, and a patch of only `isRunning` keeps a consistent timer
      consistent and leaves its countdown alone. */
  lemma RunningPatchKeepsTime(t: Timer, running: bool)
    ensures UpdateTimer(t, EmptyPatch) == t
    ensures UpdateTimer(t, EmptyPatch.(isRunning := Some(running))) == t.(isRunning := running)
  {
  }

  /** `startTimer`: only `isRunning` changes. Nothing checks that time is left. */
  function StartTimer(t: Timer): (r: Timer)
    ensures r.isRunning && r.(isRunning := t.isRunning) == t
  {
    t.(isRunning := true)
  }

  /** `pauseTimer`: only `isRunning` changes. */
  function PauseTimer(t: Timer): (r: Timer)
    ensures !r.isRunning && r.(isRunning := t.isRunning) == t
  {
    t.(isRunning := false)
  }

  /** `resetTimer`: back to the default, whatever the state. */
  function ResetTimer(t: Timer): (r: Timer)
    ensures Normal(r) && !r.isRunning && r.remainingSeconds == 600
  {
    DefaultTimer
  }

  /** Pausing undoes starting, and starting undoes pausing. */
  lemma StartPauseInverse(t: Timer)
    ensures PauseTimer(StartTimer(t)) == t.(isRunning := false)
    ensures !t.isRunning ==> PauseTimer(StartTimer(t)) == t
    ensures t.isRunning ==> StartTimer(PauseTimer(t)) == t
  {
  }

  /** `tickTimer`, run once a second while the timer runs. At zero (or below) the timer only
      stops; otherwise the countdown drops by one and the fields are recomputed from it with
      `Math.floor` and `%`, which agree with Dafny's division here since the countdown is not
      negative. */
  function TickTimer(t: Timer): (r: Timer)
    ensures t.remainingSeconds <= 0 ==> r == t.(isRunning := false)
    ensures t.remainingSeconds > 0 ==>
      && r.remainingSeconds == t.remainingSeconds - 1
      && Normal(r)
      && r.isRunning == t.isRunning
  {
    if t.remainingSeconds <= 0 then t.(isRunning := false)
    else
      var remaining := t.remainingSeconds - 1;
      t.(hours := remaining / 3600, minutes := (remaining % 3600) / 60, seconds := remaining % 60,
         remainingSeconds := remaining)
  }

  /** Hours, minutes below 60 and seconds below 60 are recovered from their total by division. */
  lemma ClockOfTotal(h: int, m: int, sec: int)
    requires h >= 0 && 0 <= m < 60 && 0 <= sec < 60
    ensures Total(h, m, sec) / 3600 == h
    ensures (Total(h, m, sec) % 3600) / 60 == m
    ensures Total(h, m, sec) % 60 == sec
  {
    var n := Total(h, m, sec);
    var below := m * 60 + sec;
    assert 0 <= below < 3600;
    assert n == h * 3600 + below;
    assert n / 3600 == h && n % 3600 == below;
    assert below / 60 == m;
    assert n == (h * 60 + m) * 60 + sec;
  }

  /** The clock reading of a countdown is unique: a normal timer's fields are the ones a tick
      computes. */
  lemma NormalFieldsUnique(t: Timer)
    requires Normal(t)
    ensures t.hours == t.remainingSeconds / 3600
    ensures t.minutes == (t.remainingSeconds % 3600) / 60
    ensures t.seconds == t.remainingSeconds % 60
  {
    ClockOfTotal(t.hours, t.minutes, t.seconds);
  }

  /** A tick from a normal timer with time left is the same timer with one second less and
      the fields of that countdown: the tick is a function of the countdown alone. */
  lemma TickIsDecrement(t: Timer)
    requires Normal(t) && t.remainingSeconds > 0
    ensures var r := TickTimer(t);
      r.remainingSeconds == t.remainingSeconds - 1
      && (t.seconds > 0 ==> r == t.(seconds := t.seconds - 1, remainingSeconds := t.remainingSeconds - 1))
  {
    if t.seconds > 0 {
      NormalFieldsUnique(t.(seconds := t.seconds - 1, remainingSeconds := t.remainingSeconds - 1));
    }
  }

  /** Ticking at zero is idempotent. */
  lemma TickAtZeroIdempotent(t: Timer)
    requires t.remainingSeconds <= 0
    ensures TickTimer(TickTimer(t)) == TickTimer(t)
    ensures !TickTimer(t).isRunning
  {
  }

  /** n ticks of the interval. */
  function Ticks(t: Timer, n: nat): Timer
    decreases n
  {
    if n == 0 then t else Ticks(TickTimer(t), n - 1)
  }

  lemma TicksStep(t: Timer, n: nat)
    ensures Ticks(t, n + 1) == Ticks(TickTimer(t), n)
  {
  }

  /** The tick after n ticks is tick n + 1. */
  lemma {:induction false} TicksAfter(t: Timer, n: nat)
    ensures Ticks(t, n + 1) == TickTimer(Ticks(t, n))
    decreases n
  {
    if n > 0 {
      TicksAfter(TickTimer(t), n - 1);
    }
  }

  /** A tick of a running timer with time left keeps it running, one second closer to zero. */
  lemma TickKeepsRunning(t: Timer)
    requires t.isRunning && t.remainingSeconds > 0
    ensures TickTimer(t).isRunning && TickTimer(t).remainingSeconds == t.remainingSeconds - 1
    ensures Normal(TickTimer(t))
  {
  }

  /** While time is left, each tick of a running timer takes one second off and keeps it
      running. */
  lemma {:induction false} TicksCountDown(t: Timer, k: nat)
    requires t.isRunning && k <= t.remainingSeconds
    ensures Ticks(t, k).isRunning && Ticks(t, k).remainingSeconds == t.remainingSeconds - k
    decreases k
  {
    if k > 0 {
      TickKeepsRunning(t);
      TicksCountDown(TickTimer(t), k - 1);
      TicksStep(t, k - 1);
    }
  }

  /** After the last second of a running countdown of n seconds the timer is still running, at
      a normal zero. */
  lemma {:induction false} CountdownLastTick(t: Timer, n: nat)
    requires t.isRunning && t.remainingSeconds == n && (n == 0 ==> Normal(t))
    ensures Normal(Ticks(t, n)) && Ticks(t, n).isRunning && Ticks(t, n).remainingSeconds == 0
  {
    TicksCountDown(t, n);
    if n > 0 {
      TicksCountDown(t, n - 1);
      TicksAfter(t, n - 1);
    }
  }

  /** A running timer with n seconds left shows zero after n ticks and is still running; the
      tick after that stops it. */
  lemma {:induction false} CountdownReachesZero(t: Timer, n: nat)
    requires t.isRunning && t.remainingSeconds == n && (n == 0 ==> Normal(t))
    ensures var z := Ticks(t, n);
      z.remainingSeconds == 0 && z.hours == 0 && z.minutes == 0 && z.seconds == 0 && z.isRunning
    ensures var z := Ticks(t, n + 1);
      z.remainingSeconds == 0 && !z.isRunning
  {
    CountdownLastTick(t, n);
    TicksAfter(t, n);
  }

  /** The default timer, once started, runs ten minutes and stops on the 601st tick. */
  lemma DefaultRunsTenMinutes()
    ensures Ticks(StartTimer(DefaultTimer), 600).remainingSeconds == 0
    ensures Ticks(StartTimer(DefaultTimer), 600).isRunning
    ensures !Ticks(StartTimer(DefaultTimer), 601).isRunning
  {
    CountdownReachesZero(StartTimer(DefaultTimer), 600);
  }

  /** A timer started at zero (nothing stops that) is stopped again by its first tick. */
  lemma StartAtZeroStopsOnFirstTick(t: Timer)
    requires t.remainingSeconds <= 0
    ensures StartTimer(t).isRunning
    ensures TickTimer(StartTimer(t)) == t.(isRunning := false)
  {
  }

  /** One second of wall-clock time as the timer views see it: the interval that calls
      `tickTimer` exists only while the timer runs. */
  function ElapseSecond(t: Timer): (r: Timer)
    ensures !t.isRunning ==> r == t
    ensures t.isRunning && t.remainingSeconds <= 0 ==> !r.isRunning
  {
    if t.isRunning then TickTimer(t) else t
  }

  function Elapse(t: Timer, n: nat): Timer
    decreases n
  {
    if n == 0 then t else Elapse(ElapseSecond(t), n - 1)
  }

  /** A paused timer does not change, however long the view stays open. */
  lemma {:induction false} PausedTimerIsFrozen(t: Timer, n: nat)
    requires !t.isRunning
    ensures Elapse(t, n) == t
    decreases n
  {
    if n > 0 {
      PausedTimerIsFrozen(t, n - 1);
    }
  }

  /** While the timer runs, elapsed time is the same as ticking; once it has stopped at zero
      it stays there. */
  lemma {:induction false} ElapseStopsAtZero(t: Timer, k: nat)
    requires t.isRunning && t.remainingSeconds >= 0 && (t.remainingSeconds == 0 ==> Normal(t))
    ensures Elapse(t, t.remainingSeconds + 1 + k) == Ticks(t, t.remainingSeconds + 1)
    decreases t.remainingSeconds
  {
    var n := t.remainingSeconds;
    var next := ElapseSecond(t);
    assert next == TickTimer(t);
    if n == 0 {
      PausedTimerIsFrozen(next, k);
      assert Elapse(t, 1 + k) == Elapse(next, k);
    } else {
      ElapseStopsAtZero(next, k);
      assert Elapse(t, n + 1 + k) == Elapse(next, n + k);
      assert Ticks(t, n + 1) == Ticks(next, n);
    }
  }
}
