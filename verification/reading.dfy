/** The reading loop of the reader component (`readText` and `stopReading`): the phrases are
    spoken one after the other, with a pause after each, until the list is exhausted or the
    user stops the reading.

    Everything that happens outside the loop's control is an input: how each speak call settles
    and whether the user presses Stop while a phrase is spoken or while the following pause
    runs. The awaits are the only points where such events can interleave, so one record of
    events per phrase describes every run. */
module Reading {
  import Segmenter

  datatype SpeakResult = Spoken | Failed

  /** What happens while phrase i is in flight: how its speak call settles, and whether Stop is
      pressed during the speak call or during the pause after it. */
  datatype PhraseEvents = PhraseEvents(result: SpeakResult, stopWhileSpeaking: bool, stopWhilePausing: bool)

  /** What the loop does, in order: highlight phrase i (`setCurrentPhraseIndex(i)`), call the
      speech backend on phrase i, wait `ms` milliseconds. */
  datatype Effect = Highlight(index: nat) | Say(index: nat) | Pause(ms: nat)

  /** The reading state: the store's `isReading`, the component's `readingRef` (here `active`),
      `currentPhraseIndex` and `readingComplete`. */
  datatype Reader = Reader(isReading: bool, active: bool, index: int, complete: bool)

  datatype Run = Run(trace: seq<Effect>, final: Reader)

  /** The component's initial state. */
  const Idle := Reader(false, false, -1, false)

  /** `stopReading`: with a speech engine present it clears the reading flags and the highlight;
      without one it does nothing at all. */
  function StopReading(s: Reader, hasEngine: bool): (r: Reader)
    ensures !hasEngine ==> r == s
    ensures hasEngine ==> !r.active && !r.isReading && r.index == -1 && r.complete == s.complete
  {
    if hasEngine then s.(isReading := false, active := false, index := -1) else s
  }

  /** The first statements of `readText`. Nothing checks whether a reading is already under way. */
  function StartReading(s: Reader): (r: Reader)
    ensures r.isReading && r.active && r.index == 0 && !r.complete
  {
    Reader(isReading := true, active := true, index := 0, complete := false)
  }

  /** Stop applies when the event says it is pressed. */
  function StopIf(pressed: bool, s: Reader, hasEngine: bool): Reader {
    if pressed then StopReading(s, hasEngine) else s
  }

  function Prefix(effects: seq<Effect>, r: Run): Run {
    Run(effects + r.trace, r.final)
  }

  /** The `for` loop of `readText` from iteration `i`. The loop itself never sets
      `readingComplete`. */
  function Loop(phrases: seq<string>, events: seq<PhraseEvents>, hasEngine: bool, i: nat, s: Reader): (r: Run)
    requires |events| == |phrases| && i <= |phrases|
    ensures r.final.complete == s.complete
    decreases |phrases| - i
  {
    if i == |phrases| || !s.active then Run([], s)      // loop bound, or `if (!readingRef.current) break`
    else
      var ev := events[i];
      var said := [Highlight(i), Say(i)];
      var afterSpeak := StopIf(ev.stopWhileSpeaking, s.(index := i), hasEngine);
      match ev.result
      case Spoken =>
        if afterSpeak.active then
          var afterPause := StopIf(ev.stopWhilePausing, afterSpeak, hasEngine);
          Prefix(said + [Pause(Segmenter.PauseAfter(phrases[i]))], Loop(phrases, events, hasEngine, i + 1, afterPause))
        else
          Prefix(said, Loop(phrases, events, hasEngine, i + 1, afterSpeak))
      case Failed =>
        if !afterSpeak.active then Run(said, afterSpeak)  // the catch block's `break`
        else Prefix(said, Loop(phrases, events, hasEngine, i + 1, afterSpeak))
  }

  /** Stop takes effect for phrase i: an engine is present and Stop is pressed while the phrase
      is spoken, or during the pause, which only follows a successful speak call. */
  predicate StopsAt(ev: PhraseEvents, hasEngine: bool) {
    hasEngine && (ev.stopWhileSpeaking || (ev.result == Spoken && ev.stopWhilePausing))
  }

  predicate StoppedWithin(events: seq<PhraseEvents>, hasEngine: bool, i: nat, n: nat)
    requires i <= n <= |events|
  {
    exists j :: i <= j < n && StopsAt(events[j], hasEngine)
  }

  /** How many phrases from i on are spoken by a reading that is still active at i: up to and
      including the first one during which Stop takes effect. */
  function SpokenFrom(events: seq<PhraseEvents>, hasEngine: bool, i: nat, n: nat): (k: nat)
    requires i <= n <= |events|
    ensures i + k <= n
    decreases n - i
  {
    if i == n then 0
    else if StopsAt(events[i], hasEngine) then 1
    else 1 + SpokenFrom(events, hasEngine, i + 1, n)
  }

  /** The indices of the phrases handed to the speech backend, in order. */
  function Said(trace: seq<Effect>): seq<nat> {
    if |trace| == 0 then []
    else if trace[0].Say? then [trace[0].index] + Said(trace[1..])
    else Said(trace[1..])
  }

  /** The consecutive indices lo, lo + 1, ..., hi - 1. */
  function Range(lo: nat, hi: nat): (r: seq<nat>)
    requires lo <= hi
    ensures |r| == hi - lo
    ensures forall k :: 0 <= k < |r| ==> r[k] == lo + k
    decreases hi - lo
  {
    if lo == hi then [] else [lo] + Range(lo + 1, hi)
  }

  lemma {:induction false} SaidAppend(a: seq<Effect>, b: seq<Effect>)
    ensures Said(a + b) == Said(a) + Said(b)
    decreases |a|
  {
    if |a| == 0 {
      assert a + b == b;
    } else {
      assert (a + b)[1..] == a[1..] + b;
      SaidAppend(a[1..], b);
    }
  }

  /** Every highlight is directly followed by the speak call for the same phrase, every phrase
      handed to the backend has just been highlighted, and every pause follows the phrase it
      is keyed to. */
  predicate WellOrdered(phrases: seq<string>, trace: seq<Effect>) {
    && (forall k :: 0 <= k < |trace| && trace[k].Highlight? ==>
          k + 1 < |trace| && trace[k + 1] == Say(trace[k].index))
    && (forall k :: 0 <= k < |trace| && trace[k].Say? ==>
          k > 0 && trace[k - 1] == Highlight(trace[k].index))
    && (forall k :: 0 <= k < |trace| && trace[k].Pause? ==>
          k > 0 && trace[k - 1].Say? && trace[k - 1].index < |phrases|
          && trace[k].ms == Segmenter.PauseAfter(phrases[trace[k - 1].index]))
  }

  /** The effects of one iteration for phrase i: highlight, speak, and the pause when the
      speak call succeeded and the reading is still on. */
  function PhraseEffects(phrases: seq<string>, ev: PhraseEvents, hasEngine: bool, i: nat, s: Reader): seq<Effect>
    requires i < |phrases|
  {
    var afterSpeak := StopIf(ev.stopWhileSpeaking, s.(index := i), hasEngine);
    [Highlight(i), Say(i)]
      + (if ev.result == Spoken && afterSpeak.active then [Pause(Segmenter.PauseAfter(phrases[i]))] else [])
  }

  /** The reader state at the end of the iteration for phrase i. */
  function AfterPhrase(ev: PhraseEvents, hasEngine: bool, i: nat, s: Reader): Reader {
    var afterSpeak := StopIf(ev.stopWhileSpeaking, s.(index := i), hasEngine);
    if ev.result == Spoken && afterSpeak.active then StopIf(ev.stopWhilePausing, afterSpeak, hasEngine)
    else afterSpeak
  }

  /** One iteration of the loop from an active state, whichever way it ends. */
  lemma LoopStep(phrases: seq<string>, events: seq<PhraseEvents>, hasEngine: bool, i: nat, s: Reader)
    requires |events| == |phrases| && i < |phrases| && s.active
    ensures Loop(phrases, events, hasEngine, i, s)
      == Prefix(PhraseEffects(phrases, events[i], hasEngine, i, s),
                Loop(phrases, events, hasEngine, i + 1, AfterPhrase(events[i], hasEngine, i, s)))
    ensures AfterPhrase(events[i], hasEngine, i, s).active <==> !StopsAt(events[i], hasEngine)
    ensures AfterPhrase(events[i], hasEngine, i, s).complete == s.complete
  {
    var after := AfterPhrase(events[i], hasEngine, i, s);
    if !after.active {
      assert Loop(phrases, events, hasEngine, i + 1, after) == Run([], after);
    }
  }

  lemma PhraseSaid(phrases: seq<string>, ev: PhraseEvents, hasEngine: bool, i: nat, s: Reader)
    requires i < |phrases|
    ensures Said(PhraseEffects(phrases, ev, hasEngine, i, s)) == [i]
    ensures WellOrdered(phrases, PhraseEffects(phrases, ev, hasEngine, i, s))
  {
    var e := PhraseEffects(phrases, ev, hasEngine, i, s);
    var none: seq<Effect> := [];
    assert Said(none) == [];
    assert e[1..][1..] == none || e[1..][1..] == [Pause(Segmenter.PauseAfter(phrases[i]))];
    assert Said(e[1..][1..]) == [] by {
      if e[1..][1..] != none {
        assert e[1..][1..][1..] == none;
      }
    }
  }

  lemma WellOrderedAppend(phrases: seq<string>, a: seq<Effect>, b: seq<Effect>)
    requires WellOrdered(phrases, a) && WellOrdered(phrases, b)
    ensures WellOrdered(phrases, a + b)
  {
    var ab := a + b;
    forall k | 0 <= k < |ab| && ab[k].Highlight?
      ensures k + 1 < |ab| && ab[k + 1] == Say(ab[k].index)
    {
      if k >= |a| {
        assert ab[k] == b[k - |a|];
        assert ab[k + 1] == b[k + 1 - |a|];
      } else {
        assert ab[k] == a[k];
        assert ab[k + 1] == a[k + 1];
      }
    }
    forall k | 0 <= k < |ab| && ab[k].Say?
      ensures k > 0 && ab[k - 1] == Highlight(ab[k].index)
    {
      if k >= |a| { assert ab[k] == b[k - |a|]; }
    }
    forall k | 0 <= k < |ab| && ab[k].Pause?
      ensures k > 0 && ab[k - 1].Say? && ab[k - 1].index < |phrases|
        && ab[k].ms == Segmenter.PauseAfter(phrases[ab[k - 1].index])
    {
      if k >= |a| { assert ab[k] == b[k - |a|]; }
    }
  }

  /** A pause follows phrase i exactly when its speak call succeeded and Stop did not take
      effect while it was being spoken. */
  predicate PauseDue(ev: PhraseEvents, hasEngine: bool) {
    ev.result == Spoken && !(hasEngine && ev.stopWhileSpeaking)
  }

  /** Each phrase handed to the backend is directly followed by a pause exactly when one is due. */
  predicate PausesWhereDue(events: seq<PhraseEvents>, hasEngine: bool, trace: seq<Effect>) {
    forall k :: 0 <= k < |trace| && trace[k].Say? ==>
      && trace[k].index < |events|
      && ((k + 1 < |trace| && trace[k + 1].Pause?) <==> PauseDue(events[trace[k].index], hasEngine))
  }

  lemma PhrasePauses(phrases: seq<string>, events: seq<PhraseEvents>, hasEngine: bool, i: nat, s: Reader)
    requires |events| == |phrases| && i < |phrases| && s.active
    ensures PausesWhereDue(events, hasEngine, PhraseEffects(phrases, events[i], hasEngine, i, s))
  {
    var e := PhraseEffects(phrases, events[i], hasEngine, i, s);
    var afterSpeak := StopIf(events[i].stopWhileSpeaking, s.(index := i), hasEngine);
    assert afterSpeak.active <==> !(hasEngine && events[i].stopWhileSpeaking);
    assert e[0] == Highlight(i) && e[1] == Say(i);
    assert |e| == 3 <==> PauseDue(events[i], hasEngine);
    assert |e| == 3 ==> e[2].Pause?;
  }

  /** Every iteration of the loop opens by highlighting its phrase. */
  lemma LoopOpens(phrases: seq<string>, events: seq<PhraseEvents>, hasEngine: bool, i: nat, s: Reader)
    requires |events| == |phrases| && i <= |phrases|
    ensures var t := Loop(phrases, events, hasEngine, i, s).trace; t == [] || t[0] == Highlight(i)
  {
  }

  /** The pause rule read off at one spoken phrase of a trace. */
  lemma PauseAt(events: seq<PhraseEvents>, hasEngine: bool, t: seq<Effect>, k: nat)
    requires PausesWhereDue(events, hasEngine, t) && k < |t| && t[k].Say?
    ensures t[k].index < |events|
    ensures (k + 1 < |t| && t[k + 1].Pause?) <==> PauseDue(events[t[k].index], hasEngine)
  {
  }

  /** Joining two traces keeps the pauses in place when the second does not open with a pause. */
  lemma PausesAppend(events: seq<PhraseEvents>, hasEngine: bool, a: seq<Effect>, b: seq<Effect>)
    requires PausesWhereDue(events, hasEngine, a) && PausesWhereDue(events, hasEngine, b)
    requires b == [] || !b[0].Pause?
    ensures PausesWhereDue(events, hasEngine, a + b)
  {
    var ab := a + b;
    forall k | 0 <= k < |ab| && ab[k].Say?
      ensures ab[k].index < |events|
      ensures (k + 1 < |ab| && ab[k + 1].Pause?) <==> PauseDue(events[ab[k].index], hasEngine)
    {
      if k >= |a| {
        var j := k - |a|;
        assert ab[k] == b[j];
        PauseAt(events, hasEngine, b, j);
        if k + 1 < |ab| { assert ab[k + 1] == b[j + 1]; }
      } else {
        assert ab[k] == a[k];
        PauseAt(events, hasEngine, a, k);
        if k + 1 < |a| {
          assert ab[k + 1] == a[k + 1];
        } else if k + 1 < |ab| {
          assert ab[k + 1] == b[0];
        }
      }
    }
  }

  /** One iteration keeps the pause rule when the rest of the loop keeps it. */
  lemma LoopPausesStep(phrases: seq<string>, events: seq<PhraseEvents>, hasEngine: bool, i: nat, s: Reader)
    requires |events| == |phrases| && i < |phrases| && s.active
    requires PausesWhereDue(events, hasEngine,
      Loop(phrases, events, hasEngine, i + 1, AfterPhrase(events[i], hasEngine, i, s)).trace)
    ensures PausesWhereDue(events, hasEngine, Loop(phrases, events, hasEngine, i, s).trace)
  {
    var e := PhraseEffects(phrases, events[i], hasEngine, i, s);
    var rest := Loop(phrases, events, hasEngine, i + 1, AfterPhrase(events[i], hasEngine, i, s));
    LoopStep(phrases, events, hasEngine, i, s);
    PhrasePauses(phrases, events, hasEngine, i, s);
    LoopOpens(phrases, events, hasEngine, i + 1, AfterPhrase(events[i], hasEngine, i, s));
    PausesAppend(events, hasEngine, e, rest.trace);
  }

  /** From an active state at i, a pause follows each spoken phrase exactly when its speak call
      succeeded and Stop was not pressed during it. */
  lemma {:induction false} LoopPauses(phrases: seq<string>, events: seq<PhraseEvents>, hasEngine: bool, i: nat, s: Reader)
    requires |events| == |phrases| && i <= |phrases| && s.active
    ensures PausesWhereDue(events, hasEngine, Loop(phrases, events, hasEngine, i, s).trace)
    decreases |phrases| - i
  {
    if i < |phrases| {
      var after := AfterPhrase(events[i], hasEngine, i, s);
      LoopStep(phrases, events, hasEngine, i, s);
      if after.active {
        LoopPauses(phrases, events, hasEngine, i + 1, after);
      } else {
        assert Loop(phrases, events, hasEngine, i + 1, after).trace == [];
      }
      LoopPausesStep(phrases, events, hasEngine, i, s);
    } else {
      assert Loop(phrases, events, hasEngine, i, s).trace == [];
    }
  }

  lemma StoppedWithinStep(events: seq<PhraseEvents>, hasEngine: bool, i: nat, n: nat)
    requires i < n <= |events| && !StopsAt(events[i], hasEngine)
    ensures StoppedWithin(events, hasEngine, i, n) <==> StoppedWithin(events, hasEngine, i + 1, n)
  {
    if StoppedWithin(events, hasEngine, i, n) {
      var j :| i <= j < n && StopsAt(events[j], hasEngine);
      assert j != i;
    }
  }

  lemma RangeStep(lo: nat, hi: nat)
    requires lo < hi
    ensures Range(lo, hi) == [lo] + Range(lo + 1, hi)
  {
  }

  /** One iteration puts phrase i in front of what the rest of the loop speaks. */
  lemma LoopSaysStep(phrases: seq<string>, events: seq<PhraseEvents>, hasEngine: bool, i: nat, s: Reader)
    requires |events| == |phrases| && i < |phrases| && s.active
    requires Said(Loop(phrases, events, hasEngine, i + 1, AfterPhrase(events[i], hasEngine, i, s)).trace)
      == Range(i + 1, i + SpokenFrom(events, hasEngine, i, |phrases|))
    ensures Said(Loop(phrases, events, hasEngine, i, s).trace) == Range(i, i + SpokenFrom(events, hasEngine, i, |phrases|))
  {
    var e := PhraseEffects(phrases, events[i], hasEngine, i, s);
    var rest := Loop(phrases, events, hasEngine, i + 1, AfterPhrase(events[i], hasEngine, i, s));
    LoopStep(phrases, events, hasEngine, i, s);
    PhraseSaid(phrases, events[i], hasEngine, i, s);
    SaidAppend(e, rest.trace);
    RangeStep(i, i + SpokenFrom(events, hasEngine, i, |phrases|));
  }

  /** From an active state at i, the loop speaks exactly the phrases i .. i + SpokenFrom - 1,
      in order. */
  lemma {:induction false} LoopSays(phrases: seq<string>, events: seq<PhraseEvents>, hasEngine: bool, i: nat, s: Reader)
    requires |events| == |phrases| && i <= |phrases| && s.active
    ensures Said(Loop(phrases, events, hasEngine, i, s).trace) == Range(i, i + SpokenFrom(events, hasEngine, i, |phrases|))
    decreases |phrases| - i
  {
    if i < |phrases| {
      var after := AfterPhrase(events[i], hasEngine, i, s);
      var rest := Loop(phrases, events, hasEngine, i + 1, after);
      LoopStep(phrases, events, hasEngine, i, s);
      if StopsAt(events[i], hasEngine) {
        assert rest.trace == [];
        assert Said(rest.trace) == [];
      } else {
        LoopSays(phrases, events, hasEngine, i + 1, after);
      }
      LoopSaysStep(phrases, events, hasEngine, i, s);
    }
  }

  /** One iteration keeps the order of effects when the rest of the loop keeps it. */
  lemma LoopOrderedStep(phrases: seq<string>, events: seq<PhraseEvents>, hasEngine: bool, i: nat, s: Reader)
    requires |events| == |phrases| && i < |phrases| && s.active
    requires WellOrdered(phrases,
      Loop(phrases, events, hasEngine, i + 1, AfterPhrase(events[i], hasEngine, i, s)).trace)
    ensures WellOrdered(phrases, Loop(phrases, events, hasEngine, i, s).trace)
  {
    var e := PhraseEffects(phrases, events[i], hasEngine, i, s);
    var rest := Loop(phrases, events, hasEngine, i + 1, AfterPhrase(events[i], hasEngine, i, s));
    LoopStep(phrases, events, hasEngine, i, s);
    PhraseSaid(phrases, events[i], hasEngine, i, s);
    WellOrderedAppend(phrases, e, rest.trace);
  }

  /** Each phrase the loop speaks is highlighted directly before, nothing else is highlighted,
      and each pause is keyed to the phrase spoken before it. */
  lemma {:induction false} LoopOrdered(phrases: seq<string>, events: seq<PhraseEvents>, hasEngine: bool, i: nat, s: Reader)
    requires |events| == |phrases| && i <= |phrases| && s.active
    ensures WellOrdered(phrases, Loop(phrases, events, hasEngine, i, s).trace)
    decreases |phrases| - i
  {
    if i < |phrases| {
      var after := AfterPhrase(events[i], hasEngine, i, s);
      LoopStep(phrases, events, hasEngine, i, s);
      if after.active {
        LoopOrdered(phrases, events, hasEngine, i + 1, after);
      } else {
        assert Loop(phrases, events, hasEngine, i + 1, after).trace == [];
      }
      LoopOrderedStep(phrases, events, hasEngine, i, s);
    } else {
      assert Loop(phrases, events, hasEngine, i, s).trace == [];
    }
  }

  /** From an active state at i, the loop ends still active exactly when Stop never took
      effect, and it never touches `readingComplete`. */
  lemma {:induction false} LoopEnds(phrases: seq<string>, events: seq<PhraseEvents>, hasEngine: bool, i: nat, s: Reader)
    requires |events| == |phrases| && i <= |phrases| && s.active
    ensures Loop(phrases, events, hasEngine, i, s).final.active <==> !StoppedWithin(events, hasEngine, i, |phrases|)
    ensures Loop(phrases, events, hasEngine, i, s).final.complete == s.complete
    decreases |phrases| - i
  {
    var n := |phrases|;
    if i < n {
      var after := AfterPhrase(events[i], hasEngine, i, s);
      LoopStep(phrases, events, hasEngine, i, s);
      if StopsAt(events[i], hasEngine) {
        assert Loop(phrases, events, hasEngine, i + 1, after) == Run([], after);
        assert StoppedWithin(events, hasEngine, i, n);
      } else {
        LoopEnds(phrases, events, hasEngine, i + 1, after);
        StoppedWithinStep(events, hasEngine, i, n);
      }
    }
  }

  /** `readText` from any reader state `s`: the loop from a fresh start, then the completion
      check and the `finally` block. */
  function ReadText(phrases: seq<string>, events: seq<PhraseEvents>, hasEngine: bool, s: Reader): (r: Run)
    requires |events| == |phrases|
    // every run ends idle with no highlight
    ensures !r.final.isReading && !r.final.active && r.final.index == -1
    // `readingComplete` is set exactly when Stop never took effect, even with no phrases at all
    ensures r.final.complete <==> !StoppedWithin(events, hasEngine, 0, |phrases|)
    // the phrases spoken are 0, 1, ... in order, up to the one during which Stop took effect
    ensures Said(r.trace) == Range(0, SpokenFrom(events, hasEngine, 0, |phrases|))
    ensures WellOrdered(phrases, r.trace)
    // a pause follows a phrase exactly when it was spoken and Stop was not pressed during it
    ensures PausesWhereDue(events, hasEngine, r.trace)
  {
    var start := StartReading(s);
    LoopSays(phrases, events, hasEngine, 0, start);
    LoopOrdered(phrases, events, hasEngine, 0, start);
    LoopPauses(phrases, events, hasEngine, 0, start);
    LoopEnds(phrases, events, hasEngine, 0, start);
    var run := Loop(phrases, events, hasEngine, 0, start);
    var ended := if run.final.active then run.final.(complete := true) else run.final;
    Run(run.trace, ended.(isReading := false, active := false, index := -1))
  }

  /** With no phrases, nothing is spoken and the reading completes at once. */
  lemma EmptyReadingCompletes(events: seq<PhraseEvents>, hasEngine: bool, s: Reader)
    requires |events| == 0
    ensures ReadText([], events, hasEngine, s) == Run([], Reader(false, false, -1, true))
  {
  }

  /** A speak failure skips to the next phrase: when Stop never takes effect, every phrase is
      spoken, in order, whatever the speak calls report. */
  lemma FailuresDoNotAbort(phrases: seq<string>, events: seq<PhraseEvents>, hasEngine: bool, s: Reader)
    requires |events| == |phrases|
    requires forall j :: 0 <= j < |events| ==> !StopsAt(events[j], hasEngine)
    ensures Said(ReadText(phrases, events, hasEngine, s).trace) == Range(0, |phrases|)
    ensures ReadText(phrases, events, hasEngine, s).final.complete
  {
    SpokenFromAll(events, hasEngine, 0, |phrases|);
  }

  lemma {:induction false} SpokenFromAll(events: seq<PhraseEvents>, hasEngine: bool, i: nat, n: nat)
    requires i <= n <= |events|
    requires forall j :: i <= j < n ==> !StopsAt(events[j], hasEngine)
    ensures SpokenFrom(events, hasEngine, i, n) == n - i
    decreases n - i
  {
    if i < n {
      SpokenFromAll(events, hasEngine, i + 1, n);
    }
  }

  /** When Stop first takes effect during phrase j, phrases 0 .. j are spoken and no later one,
      and the reading is not marked complete. */
  lemma StopEndsReading(phrases: seq<string>, events: seq<PhraseEvents>, hasEngine: bool, s: Reader, j: nat)
    requires |events| == |phrases| && j < |phrases|
    requires StopsAt(events[j], hasEngine)
    requires forall k :: 0 <= k < j ==> !StopsAt(events[k], hasEngine)
    ensures Said(ReadText(phrases, events, hasEngine, s).trace) == Range(0, j + 1)
    ensures !ReadText(phrases, events, hasEngine, s).final.complete
  {
    SpokenFromFirstStop(events, hasEngine, 0, |phrases|, j);
  }

  lemma {:induction false} SpokenFromFirstStop(events: seq<PhraseEvents>, hasEngine: bool, i: nat, n: nat, j: nat)
    requires i <= j < n <= |events|
    requires StopsAt(events[j], hasEngine)
    requires forall k :: i <= k < j ==> !StopsAt(events[k], hasEngine)
    ensures SpokenFrom(events, hasEngine, i, n) == j + 1 - i
    decreases j - i
  {
    if i < j {
      SpokenFromFirstStop(events, hasEngine, i + 1, n, j);
    }
  }

  /** Without a speech engine Stop does nothing, so the reading always runs to the end. */
  lemma StopNeedsEngine(phrases: seq<string>, events: seq<PhraseEvents>, s: Reader)
    requires |events| == |phrases|
    ensures Said(ReadText(phrases, events, false, s).trace) == Range(0, |phrases|)
    ensures ReadText(phrases, events, false, s).final.complete
  {
    FailuresDoNotAbort(phrases, events, false, s);
  }

  /** Starting a reading while one is under way is not refused: the new run starts from the
      same state as a run from the idle reader. */
  lemma NoReentryGuard(s: Reader)
    ensures StartReading(s) == StartReading(Idle)
    ensures s.isReading ==> StartReading(s).active && StartReading(s).index == 0
  {
  }
}
