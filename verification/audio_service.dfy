/** The bell player (`AudioService`): a cache of one loaded audio element per bell, each
    loaded from a local file with the project's public copy as fallback, a shared volume,
    and a one-time initialisation that preloads every bell.

    Loading is asynchronous in the source; here each attempt's outcome is an input (does the
    element reach `canplaythrough` for that source or fire `error`). */
module AudioService {
  import opened Wrappers
  import opened Store

  /** The key of a bell in the sound table, as used in the file names. */
  function BellName(b: BellSound): string {
    match b
    case TibetanBowl => "tibetan-bowl"
    case ZenBell => "zen-bell"
    case MeditationBell => "meditation-bell"
    case TempleBell => "temple-bell"
  }

  /** The bells in the order of the sound table. */
  const AllBells: seq<BellSound> := [TibetanBowl, ZenBell, MeditationBell, TempleBell]

  /** A place a bell can be loaded from: the app's own file or the project's public copy. */
  datatype Source = Local(bell: BellSound) | Remote(bell: BellSound)

  /** The address of a source, as in the sound table. */
  function Url(src: Source): string {
    match src
    case Local(b) => "/sounds/" + BellName(b) + ".mp3"
    case Remote(b) => "https://raw.githubusercontent.com/betmig/mindmint/main/public/sounds/" + BellName(b) + ".mp3"
  }

  /** The sources `loadSound` hands to `tryLoadAudio`: local first, then remote. */
  function Sources(b: BellSound): seq<Source> {
    [Local(b), Remote(b)]
  }

  datatype LoadError =
    | SourceFailed(source: Source)  // the `error` event of the element loading `source`
    | NoSources                     // "Failed to load audio from all sources"
    | Unsupported                   // "MP3 audio format not supported"

  /** `HAVE_ENOUGH_DATA`, the ready state an element has once `canplaythrough` fired. */
  const Ready := 4

  datatype Element = Element(src: Source, readyState: nat, volume: real)

  /** The outcome of `tryLoadAudio` and the sources it attempted, in order. */
  datatype Attempt = Attempt(result: Result<Element, LoadError>, tried: seq<Source>)

  /** The index of the first source that loads, if any. */
  function FirstSuccess(loads: seq<bool>, i: nat): (k: Option<nat>)
    requires i <= |loads|
    ensures k.Some? ==> i <= k.value < |loads| && loads[k.value]
    ensures k.Some? ==> forall j :: i <= j < k.value ==> !loads[j]
    ensures k.None? ==> forall j :: i <= j < |loads| ==> !loads[j]
    decreases |loads| - i
  {
    if i == |loads| then None else if loads[i] then Some(i) else FirstSuccess(loads, i + 1)
  }

  /** `tryLoadAudio(sources)` from source i on; `loads[j]` says whether source j loads.
      `lastError` is the error of the previous failed source. */
  function TryFrom(sources: seq<Source>, loads: seq<bool>, i: nat, lastError: Option<LoadError>): Attempt
    requires |loads| == |sources| && i <= |sources|
    decreases |sources| - i
  {
    if i == |sources| then Attempt(Err(lastError.GetOr(NoSources)), [])
    else if loads[i] then Attempt(Ok(Element(sources[i], Ready, 1.0)), [sources[i]])
    else
      var rest := TryFrom(sources, loads, i + 1, Some(SourceFailed(sources[i])));
      Attempt(rest.result, [sources[i]] + rest.tried)
  }

  /** `tryLoadAudio`: the sources are tried in order and the first that loads is returned, with
      no later source tried; when all fail, the last one's error is thrown, or a generic error
      when there were no sources. */
  function TryLoadAudio(sources: seq<Source>, loads: seq<bool>): (r: Attempt)
    requires |loads| == |sources|
    ensures var k := FirstSuccess(loads, 0);
      && (k.Some? ==> r.result == Ok(Element(sources[k.value], Ready, 1.0)) && r.tried == sources[..k.value + 1])
      && (k.None? ==> r.tried == sources)
      && (k.None? && |sources| > 0 ==> r.result == Err(SourceFailed(sources[|sources| - 1])))
      && (|sources| == 0 ==> r.result == Err(NoSources))
  {
    TryFromSpec(sources, loads, 0, None);
    TryFrom(sources, loads, 0, None)
  }

  lemma {:induction false} TryFromSpec(sources: seq<Source>, loads: seq<bool>, i: nat, lastError: Option<LoadError>)
    requires |loads| == |sources| && i <= |sources|
    requires i > 0 ==> lastError == Some(SourceFailed(sources[i - 1]))
    requires i == 0 ==> lastError == None
    ensures var r, k := TryFrom(sources, loads, i, lastError), FirstSuccess(loads, i);
      && (k.Some? ==> r.result == Ok(Element(sources[k.value], Ready, 1.0)) && r.tried == sources[i..k.value + 1])
      && (k.None? ==> r.tried == sources[i..])
      && (k.None? && |sources| > 0 ==> r.result == Err(SourceFailed(sources[|sources| - 1])))
      && (|sources| == 0 ==> r.result == Err(NoSources))
    decreases |sources| - i
  {
    if i < |sources| && !loads[i] {
      TryFromSpec(sources, loads, i + 1, Some(SourceFailed(sources[i])));
      assert sources[i..] == [sources[i]] + sources[i + 1..];
      var k := FirstSuccess(loads, i);
      if k.Some? {
        assert sources[i..k.value + 1] == [sources[i]] + sources[i + 1..k.value + 1];
      }
    }
  }

  /** The stored `initPromise`: none, one still loading, one that fulfilled, or one that was
      rejected with `error`. */
  datatype InitPromise = Unset | Loading | Fulfilled | Rejected(error: LoadError)

  /** The service's state: `audioElements`, `volume`, `initialized`, `initPromise` and
      `userInteracted`. */
  datatype AudioState = AudioState(
    elements: map<BellSound, Element>, volume: real,
    initialized: bool, promise: InitPromise, userInteracted: bool)

  const InitialAudio := AudioState(map[], 1.0, false, Unset, false)

  predicate CachedReady(st: AudioState, b: BellSound) {
    b in st.elements && st.elements[b].readyState == Ready
  }

  datatype LoadStep = LoadStep(state: AudioState, outcome: Outcome<LoadError>, tried: seq<Source>)

  /** The cache with bell `b`'s entry set to `el`. */
  function Cache(st: AudioState, b: BellSound, el: Element): AudioState {
    st.(elements := st.elements[b := el])
  }

  /** `loadSound(bell)`: nothing to do when the cached element is ready; otherwise the bell is
      loaded from its sources, local first, and on success the new element gets the current
      volume and replaces the cache entry, while on failure the remote source's error is
      passed on and nothing changes. */
  function LoadSound(st: AudioState, b: BellSound, loads: seq<bool>): (r: LoadStep)
    requires |loads| == 2
    ensures CachedReady(st, b) ==> r == LoadStep(st, Pass, [])
    ensures !CachedReady(st, b) ==> |r.tried| > 0 && r.tried[0] == Local(b)
    ensures !CachedReady(st, b) && loads[0] ==>
      r == LoadStep(Cache(st, b, Element(Local(b), Ready, st.volume)), Pass, [Local(b)])
    ensures !CachedReady(st, b) && !loads[0] && loads[1] ==>
      r == LoadStep(Cache(st, b, Element(Remote(b), Ready, st.volume)), Pass, Sources(b))
    ensures !CachedReady(st, b) && !loads[0] && !loads[1] ==>
      r == LoadStep(st, Fail(SourceFailed(Remote(b))), Sources(b))
  {
    if CachedReady(st, b) then LoadStep(st, Pass, [])
    else
      var attempt := TryLoadAudio(Sources(b), loads);
      match attempt.result
      case Ok(el) => LoadStep(Cache(st, b, el.(volume := st.volume)), Pass, attempt.tried)
      case Err(e) => LoadStep(st, Fail(e), attempt.tried)
  }

  /** Once a bell has loaded, loading it again does nothing and tries no source. */
  lemma LoadedBellIsCached(st: AudioState, b: BellSound, loads: seq<bool>, again: seq<bool>)
    requires |loads| == 2 && |again| == 2
    requires LoadSound(st, b, loads).outcome.Pass?
    ensures var st' := LoadSound(st, b, loads).state;
      LoadSound(st', b, again) == LoadStep(st', Pass, [])
  {
  }

  /** `Math.max(0, Math.min(1, v))`. */
  function Clamp(v: real): (r: real)
    ensures 0.0 <= r <= 1.0
    ensures 0.0 <= v <= 1.0 ==> r == v
    ensures v < 0.0 ==> r == 0.0
    ensures v > 1.0 ==> r == 1.0
  {
    var low := if 1.0 < v then 1.0 else v;
    if 0.0 > low then 0.0 else low
  }

  /** `setVolume`: the clamped volume becomes the service's and every cached element's. */
  function SetVolume(st: AudioState, v: real): (r: AudioState)
    ensures r.volume == Clamp(v)
    ensures r.elements.Keys == st.elements.Keys
    ensures forall b :: b in r.elements ==> r.elements[b] == st.elements[b].(volume := Clamp(v))
    ensures r.(elements := st.elements, volume := st.volume) == st
  {
    st.(volume := Clamp(v), elements := map b | b in st.elements :: st.elements[b].(volume := Clamp(v)))
  }

  /** Setting the same volume twice is setting it once. */
  lemma SetVolumeIdempotent(st: AudioState, v: real)
    ensures SetVolume(SetVolume(st, v), v) == SetVolume(st, v)
  {
    var once := SetVolume(st, v);
    assert SetVolume(once, v).elements == once.elements;
  }

  /** Every cached element plays at the service's volume. */
  predicate VolumeInSync(st: AudioState) {
    forall b :: b in st.elements ==> st.elements[b].volume == st.volume
  }

  /** Setting the volume leaves every cached element at the service's volume, which is
      within [0, 1]. */
  lemma SetVolumeSyncs(st: AudioState, v: real)
    ensures VolumeInSync(SetVolume(st, v))
    ensures 0.0 <= SetVolume(st, v).volume <= 1.0
  {
  }

  lemma CacheKeepsVolumeInSync(st: AudioState, b: BellSound, el: Element)
    requires VolumeInSync(st) && el.volume == st.volume
    ensures VolumeInSync(Cache(st, b, el))
  {
  }

  /** Loading a bell keeps the cached elements at the service's volume. */
  lemma LoadKeepsVolumeInSync(st: AudioState, b: BellSound, loads: seq<bool>)
    requires |loads| == 2
    requires VolumeInSync(st)
    ensures VolumeInSync(LoadSound(st, b, loads).state)
  {
    if !CachedReady(st, b) && (loads[0] || loads[1]) {
      CacheKeepsVolumeInSync(st, b, Element(if loads[0] then Local(b) else Remote(b), Ready, st.volume));
    }
  }

  /** What a call to `initialize` finds when it starts. */
  datatype InitStart = AlreadyInitialized | Joined(promise: InitPromise) | Started

  /** The synchronous start of `initialize`: return when initialised, hand back the stored
      promise when one is set, and otherwise store a new one and start loading. */
  function BeginInitialize(st: AudioState): (r: (AudioState, InitStart))
    ensures st.initialized ==> r == (st, AlreadyInitialized)
    ensures !st.initialized && !st.promise.Unset? ==> r == (st, Joined(st.promise))
    ensures !st.initialized && st.promise.Unset? ==> r == (st.(promise := Loading), Started)
  {
    if st.initialized then (st, AlreadyInitialized)
    else if !st.promise.Unset? then (st, Joined(st.promise))
    else (st.(promise := Loading), Started)
  }

  /** The preload: `loadSound` for every bell, each with its own load outcomes. The loads run
      concurrently but each writes only its own cache entry, so running them in table order
      gives the same cache. Returns the failures in table order. */
  function PreloadFrom(st: AudioState, bells: seq<BellSound>, loads: BellSound -> seq<bool>): (r: (AudioState, seq<LoadError>))
    requires forall b :: |loads(b)| == 2
    // only the cache changes, and there is at most one error per bell
    ensures r.0 == st.(elements := r.0.elements)
    ensures |r.1| <= |bells|
    decreases |bells|
  {
    if |bells| == 0 then (st, [])
    else
      var step := LoadSound(st, bells[0], loads(bells[0]));
      var rest := PreloadFrom(step.state, bells[1..], loads);
      (rest.0, (if step.outcome.Fail? then [step.outcome.error] else []) + rest.1)
  }

  /** Loading one bell never un-readies another. */
  lemma LoadKeepsReady(st: AudioState, b: BellSound, loads: seq<bool>, c: BellSound)
    requires |loads| == 2 && CachedReady(st, c)
    ensures CachedReady(LoadSound(st, b, loads).state, c)
  {
    var r := LoadSound(st, b, loads);
    if r.outcome.Pass? && c != b {
      assert r.state.elements[c] == st.elements[c];
    }
  }

  /** The preload changes only the cache and never un-readies a cached bell. */
  lemma {:induction false} PreloadKeepsReady(st: AudioState, bells: seq<BellSound>, loads: BellSound -> seq<bool>, c: BellSound)
    requires forall b :: |loads(b)| == 2
    ensures PreloadFrom(st, bells, loads).0 == st.(elements := PreloadFrom(st, bells, loads).0.elements)
    ensures CachedReady(st, c) ==> CachedReady(PreloadFrom(st, bells, loads).0, c)
    decreases |bells|
  {
    if |bells| > 0 {
      var step := LoadSound(st, bells[0], loads(bells[0]));
      if CachedReady(st, c) {
        LoadKeepsReady(st, bells[0], loads(bells[0]), c);
      }
      PreloadKeepsReady(step.state, bells[1..], loads, c);
    }
  }

  lemma PreloadStep(st: AudioState, bells: seq<BellSound>, loads: BellSound -> seq<bool>)
    requires forall b :: |loads(b)| == 2
    requires |bells| > 0
    ensures var step := LoadSound(st, bells[0], loads(bells[0]));
      var rest := PreloadFrom(step.state, bells[1..], loads);
      PreloadFrom(st, bells, loads).0 == rest.0
      && |PreloadFrom(st, bells, loads).1| == (if step.outcome.Fail? then 1 else 0) + |rest.1|
  {
  }

  /** When no load failed, every bell the preload was given is cached and ready. */
  lemma {:induction false} PreloadLoadsAll(st: AudioState, bells: seq<BellSound>, loads: BellSound -> seq<bool>, c: BellSound)
    requires forall b :: |loads(b)| == 2
    requires c in bells && |PreloadFrom(st, bells, loads).1| == 0
    ensures CachedReady(PreloadFrom(st, bells, loads).0, c)
    decreases |bells|
  {
    var step := LoadSound(st, bells[0], loads(bells[0]));
    var rest := PreloadFrom(step.state, bells[1..], loads);
    PreloadStep(st, bells, loads);
    assert step.outcome.Pass? && |rest.1| == 0;
    if c == bells[0] {
      assert CachedReady(step.state, c);
      PreloadKeepsReady(step.state, bells[1..], loads, c);
    } else {
      assert c in bells[1..];
      PreloadLoadsAll(step.state, bells[1..], loads, c);
    }
  }

  /** Bell `b` can be had: it is cached and ready, or one of its sources loads. */
  predicate Loadable(st: AudioState, b: BellSound, loads: seq<bool>) {
    CachedReady(st, b) || true in loads
  }

  /** The errors a preload of `bells` from `st` should report, in table order: the remote
      source's failure for every bell that is neither ready nor loadable. */
  function Unloadable(st: AudioState, bells: seq<BellSound>, loads: BellSound -> seq<bool>): (r: seq<LoadError>)
    ensures forall k :: 0 <= k < |r| ==>
      && r[k].SourceFailed? && r[k].source.Remote?
      && r[k].source.bell in bells && !Loadable(st, r[k].source.bell, loads(r[k].source.bell))
    decreases |bells|
  {
    if |bells| == 0 then []
    else
      (if Loadable(st, bells[0], loads(bells[0])) then [] else [SourceFailed(Remote(bells[0]))])
        + Unloadable(st, bells[1..], loads)
  }

  /** No error is due exactly when every listed bell can be had. */
  lemma {:induction false} UnloadableEmpty(st: AudioState, bells: seq<BellSound>, loads: BellSound -> seq<bool>)
    ensures |Unloadable(st, bells, loads)| == 0 <==> forall c :: c in bells ==> Loadable(st, c, loads(c))
    decreases |bells|
  {
    if |bells| > 0 {
      UnloadableEmpty(st, bells[1..], loads);
      assert forall c :: c in bells <==> c == bells[0] || c in bells[1..];
    }
  }

  /** Two states in which the same bells can be had expect the same errors. */
  lemma {:induction false} UnloadableSame(st: AudioState, st': AudioState, bells: seq<BellSound>, loads: BellSound -> seq<bool>)
    requires forall c :: Loadable(st, c, loads(c)) <==> Loadable(st', c, loads(c))
    ensures Unloadable(st, bells, loads) == Unloadable(st', bells, loads)
    decreases |bells|
  {
    if |bells| > 0 {
      UnloadableSame(st, st', bells[1..], loads);
    }
  }

  /** Loading one bell that can be had leaves every bell that could be had still available. */
  lemma LoadKeepsLoadable(st: AudioState, b: BellSound, loads: BellSound -> seq<bool>)
    requires forall c :: |loads(c)| == 2
    requires Loadable(st, b, loads(b))
    ensures LoadSound(st, b, loads(b)).outcome.Pass?
    ensures forall c :: Loadable(st, c, loads(c)) <==> Loadable(LoadSound(st, b, loads(b)).state, c, loads(c))
  {
    var next := LoadSound(st, b, loads(b)).state;
    forall c ensures Loadable(st, c, loads(c)) <==> Loadable(next, c, loads(c)) {
      if c != b && !CachedReady(st, b) {
        assert c in next.elements <==> c in st.elements;
        if c in st.elements { assert next.elements[c] == st.elements[c]; }
      }
    }
  }

  /** The preload reports exactly the bells that are neither ready nor loadable: the loads of
      the other bells carry on and cache their bell whatever happens to this one. */
  lemma {:induction false} PreloadReportsUnloadable(st: AudioState, bells: seq<BellSound>, loads: BellSound -> seq<bool>)
    requires forall b :: |loads(b)| == 2
    ensures PreloadFrom(st, bells, loads).1 == Unloadable(st, bells, loads)
    decreases |bells|
  {
    if |bells| > 0 {
      var b := bells[0];
      var step := LoadSound(st, b, loads(b));
      PreloadReportsUnloadable(step.state, bells[1..], loads);
      if Loadable(st, b, loads(b)) {
        LoadKeepsLoadable(st, b, loads);
        UnloadableSame(st, step.state, bells[1..], loads);
      } else {
        assert loads(b)[0] == false && loads(b)[1] == false by {
          assert loads(b) == [loads(b)[0], loads(b)[1]];
        }
        assert step == LoadStep(st, Fail(SourceFailed(Remote(b))), Sources(b));
      }
    }
  }

  /** A listed bell that can be had is cached and ready after the preload, whether or not
      other bells failed. */
  lemma {:induction false} LoadableBellReady(st: AudioState, bells: seq<BellSound>, loads: BellSound -> seq<bool>, c: BellSound)
    requires forall b :: |loads(b)| == 2
    requires c in bells && Loadable(st, c, loads(c))
    ensures CachedReady(PreloadFrom(st, bells, loads).0, c)
    decreases |bells|
  {
    var b := bells[0];
    var step := LoadSound(st, b, loads(b));
    if c == b {
      LoadKeepsLoadable(st, b, loads);
      assert CachedReady(step.state, c);
      PreloadKeepsReady(step.state, bells[1..], loads, c);
    } else {
      assert c in bells[1..];
      if Loadable(st, b, loads(b)) {
        LoadKeepsLoadable(st, b, loads);
      }
      assert Loadable(step.state, c, loads(c));
      LoadableBellReady(step.state, bells[1..], loads, c);
    }
  }

  lemma EveryBellInTable(b: BellSound)
    ensures b in AllBells
  {
  }

  lemma AllBellsListed()
    ensures forall b :: b in AllBells
  {
    forall b ensures b in AllBells {
      EveryBellInTable(b);
    }
  }

  /** Every bell can be had: cached and ready, or loadable from one of its sources. */
  predicate AllLoadable(st: AudioState, loads: BellSound -> seq<bool>) {
    forall b :: Loadable(st, b, loads(b))
  }

  /** The preload at the end of `initialize`: on success the service is marked initialised;
      on a failure the catch block clears `initPromise` and passes the error on (the bells that
      did load stay cached). `Promise.all` passes on the failure that happens first in time;
      here, the first in table order. */
  function PreloadAndMark(st: AudioState, loads: BellSound -> seq<bool>): (r: (AudioState, Outcome<LoadError>))
    requires forall b :: |loads(b)| == 2
    ensures r.1.Pass? ==> r.0.initialized && r.0.promise == Fulfilled && AllReady(r.0)
    ensures r.1.Fail? ==> r.0.promise == Unset && r.0.initialized == st.initialized
    ensures r.0.volume == st.volume && r.0.userInteracted == st.userInteracted
    // it succeeds exactly when every bell can be had; otherwise it reports the first bell,
    // in table order, that is neither ready nor loadable
    ensures r.1.Pass? <==> AllLoadable(st, loads)
    ensures r.1.Fail? ==>
      |Unloadable(st, AllBells, loads)| > 0 && r.1.error == Unloadable(st, AllBells, loads)[0]
  {
    PreloadReportsUnloadable(st, AllBells, loads);
    UnloadableEmpty(st, AllBells, loads);
    AllBellsListed();
    var pre := PreloadFrom(st, AllBells, loads);
    PreloadKeepsReady(st, AllBells, loads, TibetanBowl);
    if |pre.1| == 0 then
      AllBellsReady(st, loads);
      (pre.0.(initialized := true, promise := Fulfilled), Pass)
    else (pre.0.(promise := Unset), Fail(pre.1[0]))
  }

  /** The async body of `initialize` as the source runs it. The MP3 check throws before the
      body's first `await`, so the catch block clears `initPromise` before the assignment that
      stores the promise has happened; that assignment then stores the rejected promise, and it
      stays. A bell that fails to load does so after the `await`, so its cleared promise stays
      cleared. */
  function FinishInitialize(st: AudioState, mp3Supported: bool, loads: BellSound -> seq<bool>): (r: (AudioState, Outcome<LoadError>))
    requires forall b :: |loads(b)| == 2
    ensures r.1.Pass? ==> r.0.initialized && r.0.promise == Fulfilled && AllReady(r.0)
    ensures r.1.Fail? ==> r.0.initialized == st.initialized
    // only the unsupported format leaves a rejected promise behind; a failed load clears it
    ensures r.1.Fail? ==> (r.0.promise == Rejected(Unsupported) <==> !mp3Supported)
    ensures r.1.Fail? && mp3Supported ==> r.0.promise == Unset
    ensures !mp3Supported ==> r.1 == Fail(Unsupported) && r.0.elements == st.elements
    ensures r.0.volume == st.volume && r.0.userInteracted == st.userInteracted
    // it succeeds exactly when MP3 is supported and every bell can be had
    ensures r.1.Pass? <==> mp3Supported && AllLoadable(st, loads)
    ensures r.1.Fail? && mp3Supported ==>
      |Unloadable(st, AllBells, loads)| > 0 && r.1.error == Unloadable(st, AllBells, loads)[0]
  {
    if !mp3Supported then (st.(promise := Rejected(Unsupported)), Fail(Unsupported))
    else PreloadAndMark(st, loads)
  }

  /** Every bell is cached and ready to play. */
  predicate AllReady(st: AudioState) {
    forall b :: CachedReady(st, b)
  }

  lemma AllBellsReady(st: AudioState, loads: BellSound -> seq<bool>)
    requires forall b :: |loads(b)| == 2
    requires |PreloadFrom(st, AllBells, loads).1| == 0
    ensures AllReady(PreloadFrom(st, AllBells, loads).0)
    ensures AllReady(PreloadFrom(st, AllBells, loads).0.(initialized := true, promise := Fulfilled))
  {
    var done := PreloadFrom(st, AllBells, loads).0;
    forall b ensures CachedReady(done, b) {
      EveryBellInTable(b);
      PreloadLoadsAll(st, AllBells, loads, b);
    }
    var marked := done.(initialized := true, promise := Fulfilled);
    forall b ensures CachedReady(marked, b) {
      assert CachedReady(done, b);
      assert marked.elements == done.elements;
    }
  }

  /** `initialize`: the synchronous start and, when it started loading, the end. A caller that
      finds a stored promise gets its outcome. */
  function Initialize(st: AudioState, mp3Supported: bool, loads: BellSound -> seq<bool>): (r: (AudioState, Outcome<LoadError>))
    requires forall b :: |loads(b)| == 2
    // an initialised service, or one whose stored promise has not been rejected, is left as it is
    ensures st.initialized || st.promise.Loading? || st.promise.Fulfilled? ==> r == (st, Pass)
    // a stored rejection is handed back again, and nothing is retried
    ensures !st.initialized && st.promise.Rejected? ==> r == (st, Fail(st.promise.error))
    // a fresh start succeeds exactly when MP3 is supported and every bell is ready or loads,
    // and then the service ends initialised, with every bell ready
    ensures !st.initialized && st.promise.Unset? ==>
      (r.1.Pass? <==> mp3Supported && AllLoadable(st, loads))
    ensures !st.initialized && st.promise.Unset? ==> (r.1.Pass? <==> r.0.initialized)
    ensures !st.initialized && st.promise.Unset? && r.1.Pass? ==> AllReady(r.0)
    // a fresh start with MP3 support fails with the first bell that is neither ready nor loads
    ensures !st.initialized && st.promise.Unset? && r.1.Fail? && mp3Supported ==>
      |Unloadable(st, AllBells, loads)| > 0 && r.1.error == Unloadable(st, AllBells, loads)[0]
    // a fresh start that fails keeps its rejection exactly when MP3 is unsupported
    ensures !st.initialized && st.promise.Unset? && r.1.Fail? ==>
      (r.0.promise.Rejected? <==> !mp3Supported)
  {
    var (started, how) := BeginInitialize(st);
    match how
    case Started =>
      PromiseKeepsLoadable(st, Loading, loads);
      FinishInitialize(started, mp3Supported, loads)
    case Joined(p) => if p.Rejected? then (started, Fail(p.error)) else (started, Pass)
    case AlreadyInitialized => (started, Pass)
  }

  /** Which bells can be had does not depend on the stored promise. */
  lemma PromiseKeepsLoadable(st: AudioState, p: InitPromise, loads: BellSound -> seq<bool>)
    ensures AllLoadable(st.(promise := p), loads) == AllLoadable(st, loads)
    ensures Unloadable(st.(promise := p), AllBells, loads) == Unloadable(st, AllBells, loads)
  {
    UnloadableSame(st.(promise := p), st, AllBells, loads);
  }

  /** Once initialised, `initialize` does nothing, whatever the environment would do. */
  lemma InitializeIdempotent(st: AudioState, mp3Supported: bool, loads: BellSound -> seq<bool>)
    requires forall b :: |loads(b)| == 2
    requires st.initialized
    ensures Initialize(st, mp3Supported, loads) == (st, Pass)
  {
  }

  /** A second caller while loading is under way gets the stored promise and starts nothing.
      After a failed load no promise is left, so the next call starts afresh; after the
      unsupported-format failure the rejected promise stays and the next call gets it back. */
  lemma InitializeJoinAndRetry(st: AudioState, mp3Supported: bool, loads: BellSound -> seq<bool>)
    requires forall b :: |loads(b)| == 2
    requires !st.initialized && st.promise.Unset?
    ensures var (started, how) := BeginInitialize(st);
      how == Started && BeginInitialize(started) == (started, Joined(Loading))
    ensures var (after, outcome) := Initialize(st, mp3Supported, loads);
      outcome.Fail? && mp3Supported ==> BeginInitialize(after).1 == Started
    ensures var (after, outcome) := Initialize(st, mp3Supported, loads);
      outcome.Fail? && !mp3Supported ==> BeginInitialize(after).1 == Joined(Rejected(Unsupported))
    ensures var (after, outcome) := Initialize(st, mp3Supported, loads);
      outcome.Pass? ==> after.initialized && AllReady(after)
  {
  }

  /** Without MP3 support the first `initialize` fails, and every later call fails the same
      way without checking again, even once the format would be supported, until `cleanup`. */
  lemma UnsupportedStaysRejected(st: AudioState, loads: BellSound -> seq<bool>, later: bool, laterLoads: BellSound -> seq<bool>)
    requires forall b :: |loads(b)| == 2
    requires forall b :: |laterLoads(b)| == 2
    requires !st.initialized && st.promise.Unset?
    ensures var (after, outcome) := Initialize(st, false, loads);
      outcome == Fail(Unsupported) && Initialize(after, later, laterLoads) == (after, Fail(Unsupported))
    ensures var after := Initialize(st, false, loads).0;
      BeginInitialize(Cleanup(after)).1 == Started
  {
  }

  /** The evidently intended end of `initialize`: every failure clears the stored promise, as
      the catch block means to, so that a later call retries. */
  function FinishInitializeRetrying(st: AudioState, mp3Supported: bool, loads: BellSound -> seq<bool>): (r: (AudioState, Outcome<LoadError>))
    requires forall b :: |loads(b)| == 2
    ensures r.1.Pass? ==> r.0.initialized && r.0.promise == Fulfilled && AllReady(r.0)
    ensures r.1.Fail? ==> r.0.promise == Unset && r.0.initialized == st.initialized
    ensures !mp3Supported ==> r.1 == Fail(Unsupported) && r.0.elements == st.elements
    ensures r.1.Pass? <==> mp3Supported && AllLoadable(st, loads)
  {
    if !mp3Supported then (st.(promise := Unset), Fail(Unsupported))
    else PreloadAndMark(st, loads)
  }

  /** `initialize` with the intended end. */
  function InitializeRetrying(st: AudioState, mp3Supported: bool, loads: BellSound -> seq<bool>): (r: (AudioState, Outcome<LoadError>))
    requires forall b :: |loads(b)| == 2
    ensures !st.initialized && st.promise.Unset? ==> (r.1.Pass? <==> r.0.initialized)
    ensures !st.initialized && st.promise.Unset? ==>
      (r.1.Pass? <==> mp3Supported && AllLoadable(st, loads))
    ensures !st.initialized && st.promise.Unset? && r.1.Fail? ==> r.0.promise.Unset?
  {
    var (started, how) := BeginInitialize(st);
    match how
    case Started =>
      PromiseKeepsLoadable(st, Loading, loads);
      FinishInitializeRetrying(started, mp3Supported, loads)
    case Joined(p) => if p.Rejected? then (started, Fail(p.error)) else (started, Pass)
    case AlreadyInitialized => (started, Pass)
  }

  /** With the intended end, any failed initialisation is retried in full by the next call,
      which sees the environment as it is then. */
  lemma RetryingRetries(st: AudioState, mp3Supported: bool, loads: BellSound -> seq<bool>, later: bool, laterLoads: BellSound -> seq<bool>)
    requires forall b :: |loads(b)| == 2
    requires forall b :: |laterLoads(b)| == 2
    requires !st.initialized && st.promise.Unset?
    ensures var (after, outcome) := InitializeRetrying(st, mp3Supported, loads);
      outcome.Fail? ==> BeginInitialize(after).1 == Started
    ensures var (after, outcome) := InitializeRetrying(st, mp3Supported, loads);
      outcome.Fail? ==>
        InitializeRetrying(after, later, laterLoads) == FinishInitializeRetrying(after.(promise := Loading), later, laterLoads)
  {
  }

  /** The two differ only without MP3 support: with it, they are the same function. */
  lemma RetryingAgreesWithSupport(st: AudioState, loads: BellSound -> seq<bool>)
    requires forall b :: |loads(b)| == 2
    ensures Initialize(st, true, loads) == InitializeRetrying(st, true, loads)
  {
  }

  /** `cleanup`: the cache is emptied and the service is back to uninitialised, keeping only
      its volume. */
  function Cleanup(st: AudioState): (r: AudioState)
    ensures r.elements == map[] && !r.initialized && r.promise.Unset? && !r.userInteracted
    ensures r.volume == st.volume
  {
    AudioState(map[], st.volume, false, Unset, false)
  }

  /** After cleanup the next `initialize` starts over and every bell is loaded again. */
  lemma CleanupForcesReload(st: AudioState, b: BellSound, loads: seq<bool>)
    requires |loads| == 2
    ensures BeginInitialize(Cleanup(st)).1 == Started
    ensures !CachedReady(Cleanup(st), b)
    ensures |LoadSound(Cleanup(st), b, loads).tried| > 0
    ensures Cleanup(st) == InitialAudio.(volume := st.volume)
  {
  }

  /** The first click, touch or key press on the page (the handlers `initialize` registers). */
  function UserInteraction(st: AudioState): (r: AudioState)
    ensures r.userInteracted && r.(userInteracted := st.userInteracted) == st
  {
    st.(userInteracted := true)
  }
}
