/** The application store: user settings, the speech-backend choice made by `speak`, and the
    snapshot that is persisted between sessions. The timer actions are in TimerModel. */
module Store {
  import opened Wrappers
  import opened TimerModel

  datatype Theme = Light | Dark

  datatype ProviderName = Browser | OpenAI | WellSaid | Microsoft | Amazon | ElevenLabs

  /** `TTSProvider`: an optional field is `None` when the key is absent. */
  datatype TTSProvider = TTSProvider(
    name: ProviderName, enabled: bool,
    apiKey: Option<string>, region: Option<string>, selectedVoiceId: Option<string>)

  /** A partial provider as passed to `updateTTSProvider`; `None` means the key is absent. */
  datatype ProviderPatch = ProviderPatch(
    name: Option<ProviderName>, enabled: Option<bool>,
    apiKey: Option<string>, region: Option<string>, selectedVoiceId: Option<string>)

  datatype BellSound = TibetanBowl | ZenBell | MeditationBell | TempleBell

  datatype Voice = Voice(voiceId: string, name: string, previewUrl: string)

  datatype Settings = Settings(
    theme: Theme,
    brightness: int, contrast: int, sepia: int, greyscale: int,
    volume: real,
    selectedVoice: string,
    highlightColor: string, highlightOpacity: real,
    readSuttaBeforeMeditation: bool, autoStartTimerAfterSutta: bool,
    ttsProvider: TTSProvider,
    bellSound: BellSound, playBellAtStart: bool, playBellAtEnd: bool,
    elevenLabsVoices: seq<Voice>)

  const DefaultSettings := Settings(
    Light, 100, 100, 0, 0, 1.0, "", "#34D399", 0.3, false, false,
    TTSProvider(Browser, true, None, None, None),
    TibetanBowl, true, true, [])

  /** The display filters at their neutral values. */
  predicate NeutralDisplay(s: Settings) {
    s.brightness == 100 && s.contrast == 100 && s.sepia == 0 && s.greyscale == 0
  }

  /** `resetAccessibilitySettings`: the four display filters go back to their defaults and
      every other setting, the theme included, is kept. */
  function ResetAccessibilitySettings(s: Settings): (r: Settings)
    ensures NeutralDisplay(r)
    ensures r.(brightness := s.brightness, contrast := s.contrast, sepia := s.sepia, greyscale := s.greyscale) == s
  {
    s.(brightness := DefaultSettings.brightness, contrast := DefaultSettings.contrast,
       sepia := DefaultSettings.sepia, greyscale := DefaultSettings.greyscale)
  }

  /** Resetting twice is resetting once; the defaults themselves are already reset, and a reset
      of settings that differ from the defaults only in the filters and the theme gives the
      defaults back with the user's theme. */
  lemma ResetAccessibilityIdempotent(s: Settings)
    ensures ResetAccessibilitySettings(ResetAccessibilitySettings(s)) == ResetAccessibilitySettings(s)
    ensures ResetAccessibilitySettings(DefaultSettings) == DefaultSettings
    ensures NeutralDisplay(s) ==> ResetAccessibilitySettings(s) == s
  {
  }

  /** The provider patch merged over a provider: each key present in the patch wins. */
  function MergeProvider(t: TTSProvider, p: ProviderPatch): (r: TTSProvider)
    ensures r.name == p.name.GetOr(t.name) && r.enabled == p.enabled.GetOr(t.enabled)
    ensures r.apiKey == if p.apiKey.Some? then p.apiKey else t.apiKey
    ensures r.region == if p.region.Some? then p.region else t.region
    ensures r.selectedVoiceId == if p.selectedVoiceId.Some? then p.selectedVoiceId else t.selectedVoiceId
  {
    TTSProvider(
      p.name.GetOr(t.name), p.enabled.GetOr(t.enabled),
      if p.apiKey.Some? then p.apiKey else t.apiKey,
      if p.region.Some? then p.region else t.region,
      if p.selectedVoiceId.Some? then p.selectedVoiceId else t.selectedVoiceId)
  }

  /** `updateTTSProvider`: the patch is merged over the current provider; no other setting
      changes. */
  function UpdateTTSProvider(s: Settings, p: ProviderPatch): (r: Settings)
    ensures r.(ttsProvider := s.ttsProvider) == s
    ensures r.ttsProvider == MergeProvider(s.ttsProvider, p)
  {
    s.(ttsProvider := MergeProvider(s.ttsProvider, p))
  }

  /** Applying the same provider patch twice is applying it once. */
  lemma UpdateTTSProviderIdempotent(s: Settings, p: ProviderPatch)
    ensures UpdateTTSProvider(UpdateTTSProvider(s, p), p) == UpdateTTSProvider(s, p)
  {
  }

  /** JavaScript truthiness of an optional string: present and not empty. */
  predicate Truthy(o: Option<string>) {
    o.Some? && |o.value| > 0
  }

  /** Where `speak` sends a phrase: the ElevenLabs service with a voice and a key, or the
      browser's speech engine. */
  datatype Backend = RemoteVoice(voiceId: string, apiKey: string) | BrowserSpeech

  const NoSpeechService := "No speech service available"

  /** The remote voice is configured: provider ElevenLabs with a non-empty key and voice. */
  predicate RemoteConfigured(p: TTSProvider) {
    p.name == ElevenLabs && Truthy(p.apiKey) && Truthy(p.selectedVoiceId)
  }

  /** The backend choice at the top of `speak`; `hasEngine` says whether the store holds a
      browser speech engine. */
  function SelectBackend(s: Settings, hasEngine: bool): (r: Result<Backend, string>)
    ensures (r.Ok? && r.value.RemoteVoice?) <==> RemoteConfigured(s.ttsProvider)
    ensures r.Ok? && r.value.RemoteVoice? ==>
      Some(r.value.voiceId) == s.ttsProvider.selectedVoiceId && Some(r.value.apiKey) == s.ttsProvider.apiKey
    ensures r == Ok(BrowserSpeech) <==> !RemoteConfigured(s.ttsProvider) && hasEngine
    ensures r.Err? <==> !RemoteConfigured(s.ttsProvider) && !hasEngine
    ensures r.Err? ==> r.error == NoSpeechService
  {
    var p := s.ttsProvider;
    if p.name == ElevenLabs && Truthy(p.apiKey) && Truthy(p.selectedVoiceId) then
      Ok(RemoteVoice(p.selectedVoiceId.value, p.apiKey.value))
    else if hasEngine then Ok(BrowserSpeech)
    else Err(NoSpeechService)
  }

  /** The `enabled` flag of the provider plays no part in the choice. */
  lemma EnabledIsIgnored(s: Settings, hasEngine: bool, enabled: bool)
    ensures SelectBackend(s.(ttsProvider := s.ttsProvider.(enabled := enabled)), hasEngine)
         == SelectBackend(s, hasEngine)
  {
  }

  /** Providers other than ElevenLabs (OpenAI, WellSaid, Microsoft, Amazon) have no backend of
      their own: they speak through the browser engine, or fail without one. */
  lemma OtherProvidersUseBrowser(s: Settings, hasEngine: bool)
    requires s.ttsProvider.name != ElevenLabs
    ensures SelectBackend(s, hasEngine) == if hasEngine then Ok(BrowserSpeech) else Err(NoSpeechService)
  {
  }

  /** Configuring ElevenLabs with a key and a voice through `updateTTSProvider` routes every
      later phrase to that voice, whatever the provider was before. */
  lemma ConfiguredElevenLabsIsUsed(s: Settings, key: string, voice: string, hasEngine: bool)
    requires |key| > 0 && |voice| > 0
    ensures SelectBackend(UpdateTTSProvider(s, ProviderPatch(Some(ElevenLabs), None, Some(key), None, Some(voice))), hasEngine)
         == Ok(RemoteVoice(voice, key))
  {
  }

  /** The part of the store that is saved between sessions. */
  datatype Persisted = Persisted(settings: Settings, timer: Timer)

  /** The in-memory store. */
  datatype StoreState = StoreState(settings: Settings, timer: Timer, isReading: bool)

  const InitialState := StoreState(DefaultSettings, DefaultTimer, false)

  /** `partialize`: the settings and the timer, saved as paused. */
  function Partialize(st: StoreState): (r: Persisted)
    ensures r.settings == st.settings
    ensures !r.timer.isRunning && r.timer.(isRunning := st.timer.isRunning) == st.timer
  {
    Persisted(st.settings, Timer(st.timer.hours, st.timer.minutes, st.timer.seconds, st.timer.remainingSeconds, false))
  }

  /** Rehydration on start-up: the saved fields are merged over the initial store, shallowly,
      as the persistence layer does by default. */
  function Rehydrate(current: StoreState, p: Persisted): (r: StoreState)
    ensures r.settings == p.settings && r.timer == p.timer
    ensures r.isReading == current.isReading
  {
    current.(settings := p.settings, timer := p.timer)
  }

  /** After a restart the settings are back, the timer shows the same time and is paused, and
      saving again saves the same snapshot. */
  lemma RestartPausesTimer(st: StoreState)
    ensures var back := Rehydrate(InitialState, Partialize(st));
      && back.settings == st.settings
      && back.timer == PauseTimer(st.timer)
      && !back.isReading
      && Partialize(back) == Partialize(st)
  {
  }
}
