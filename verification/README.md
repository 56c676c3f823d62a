# mindmint core, modelled in Dafny

mindmint is a meditation app. It reads a sutta aloud phrase by phrase, highlighting each one,
and then runs a countdown timer, which a setting can lock until the reading has finished. This
project models the logic behind those features as immutable records and pure transition
functions, and proves what the code promises about them:

- **Segmenter**: `formatText` of the reader component. It splits a text into phrases with three
  JavaScript `split` calls on regular expressions with capturing groups. The split loop and the
  three patterns are modelled character by character. **Segmenter** also holds the pause rule
  applied after each phrase.
- **Reading**: the `readText` / `stopReading` state machine. It is a fold over one input record
  per phrase: did speaking succeed, and was Stop pressed while speaking or while pausing.
  Output is a trace of highlight, speak and pause effects plus the final reader state.
- **TimerModel**: the timer actions of the store: `updateTimer`, `startTimer`, `pauseTimer`,
  `resetTimer`, `tickTimer`, and the one-second interval that ticks while the timer runs.
- **TimerControls**: the full timer view. It holds the wrap-around `adjustTime`,
  `formatTimeUnit` and the start/pause button.
- **TimerWidget**: the compact timer. It holds `formatTime` (proved to round-trip with a parser
  of its output), the `canStartTimer` gate, the start/pause toggle and the auto-start effect.
- **Store**: the settings record, `resetAccessibilitySettings`, `updateTTSProvider`, the speech
  backend choice made by `speak`, and the `partialize` projection the store persists.
- **AudioService**: bell loading.
  - `tryLoadAudio` falls back through the sources in order.
  - `loadSound` keeps a cache of ready elements.
  - `setVolume` clamps the volume.
  - `initialize` runs once, lets concurrent callers join, and can be retried.
  - `cleanup` resets the service.
- **Catalog**: the in-memory sutta store: `initDatabase`, `getSutta`, `getRandomSutta` and
  `getAllSuttas`. The last is a stable sort, newest first.
- **Session**: how the modules meet.
  - Fetching a random sutta clears the reading-complete flag.
  - The reader passes that flag to the timer widget.

Some inputs are outside the code. The model takes them as parameters:

| input | modelled as |
|---|---|
| whether each bell source loads | a boolean |
| the speak results and Stop presses | one event record per phrase |
| `Math.random()` | a real in [0, 1) |
| clock readings | integer milliseconds |
| a browser speech engine, MP3 support | a boolean each |

The shared modules are:

- **Wrappers**: `Option`, `Result` and `Outcome`.
- **JsText**: the JavaScript string operations used, such as `trim`, `String(n)` and
  `padStart`.
- **SegmenterExamples**: two concrete texts worked through `formatText`.

## Model

| member | source | states |
|---|---|---|
| Segmenter.SplitFrom | src/components/SuttaReader.tsx:10-40 | The ECMAScript split loop with a capturing group alternates pieces and captured separators (an odd count). Concatenated, they give back the scanned text exactly. Where it cuts is stated by SplitFromCuts. |
| Segmenter.SplitFromCuts | src/components/SuttaReader.tsx:10-40 | Each odd element of the split is exactly the match of the pattern found at its offset. No match starts inside an even piece, counting from the scan position for the first piece. |
| Segmenter.Split | src/components/SuttaReader.tsx:10-40 | `split` on a capturing pattern loses no character: the pieces and separators concatenate to the input. |
| Segmenter.SplitCuts | src/components/SuttaReader.tsx:10-40 | `split` cuts exactly at the matches. Every separator it returns is the match at its offset, and no piece contains the start of a match. |
| Segmenter.MatchAt | src/components/SuttaReader.tsx:10-40 | A match that starts at a position ends strictly after it, so the split loop always advances. Each pattern's match starts with the character class its regular expression opens with. |
| Segmenter.SentenceBreakMatch | src/components/SuttaReader.tsx:10 | `/([.!?]+\s+)/` matches at q exactly when a run of `.!?` from q is directly followed by whitespace. The match is that run plus the whole whitespace run after it. |
| Segmenter.ClauseBreakMatch | src/components/SuttaReader.tsx:27 | `/([,;:](?:\s+\|$))/` matches at q exactly when a `,;:` at q is followed by whitespace or ends the text. The match takes the mark and the whole whitespace run. |
| Segmenter.ConjunctionBreakMatch | src/components/SuttaReader.tsx:40 | The conjunction pattern matches at q exactly when the whitespace run from q is followed by one of and/but/or/nor/for/so/yet and whitespace. The match ends where the whitespace after the word ends. |
| Segmenter.ConjunctionEndFinds | src/components/SuttaReader.tsx:40 | The alternation finds a word exactly when one of the listed words stands there followed by whitespace. |
| Segmenter.AppendToLast | src/components/SuttaReader.tsx:19-21 | `chunks[last] += piece` extends only the last element, so the joined text grows by exactly the piece. With no element the piece is dropped. |
| Segmenter.AddClausePart | src/components/SuttaReader.tsx:28-50 | Four cases, one per branch. A piece opening with `,;:` never starts a phrase: it extends the previous one or vanishes. A piece over 100 characters becomes its conjunction split, separators included and untrimmed, losing no text. A shorter piece adds its trim exactly when it is not blank. |
| Segmenter.AddClauseParts | src/components/SuttaReader.tsx:28-50 | The inner reduce leaves every phrase before the last one alone. It can only extend the last phrase or append new ones. |
| Segmenter.SentencePhrases | src/components/SuttaReader.tsx:26-50 | The phrases one sentence piece yields are all non-empty. |
| Segmenter.AddSentences | src/components/SuttaReader.tsx:13-53 | The outer reduce leaves every chunk before the last one alone. It can only extend the last chunk or append new ones. |
| Segmenter.AddSentence | src/components/SuttaReader.tsx:13-23 | A blank piece adds nothing. A punctuation-only piece never becomes a phrase of its own: it is appended to the last chunk. Any other piece appends its clause phrases. |
| Segmenter.FormatText | src/components/SuttaReader.tsx:8-54 | No phrase is ever empty. Whitespace-only text has no phrases. |
| Segmenter.BlankHasNoPhrases | src/components/SuttaReader.tsx:10-15 | Empty or whitespace-only text yields no phrases. |
| Segmenter.SinglePhrase | src/components/SuttaReader.tsx:10-47 | Non-blank text of at most 100 characters, with none of `. ! ? , ; :`, is exactly one phrase: the text trimmed. |
| Segmenter.AddSentencesNonEmpty | src/components/SuttaReader.tsx:13-53 | The outer reduce never produces an empty phrase from non-empty starting chunks. |
| Segmenter.AddClausePartsNonEmpty | src/components/SuttaReader.tsx:28-50 | The inner reduce never produces an empty phrase. |
| Segmenter.PauseAfter | src/components/SuttaReader.tsx:117-119 | The pause is 800 ms exactly when the last character is `.!?`. It is 400 ms exactly when that character is `,;:`. Otherwise it is 200 ms, which includes trailing whitespace and the empty phrase. |
| SegmenterExamples.SentencePauseNeedsBareFullStop | src/components/SuttaReader.tsx:117-119 | "Go. Sit." becomes "Go. " and "Sit.". The first phrase keeps its separator's space, so it gets the 200 ms pause, not the 800 ms sentence pause. |
| SegmenterExamples.LeadingCommaDropsText | src/components/SuttaReader.tsx:30-35 | In "Go. ,x" the clause piece ",x" opens its sentence and has no phrase before it, so "x" is lost. |
| JsText.Trim | src/components/SuttaReader.tsx:46-47 | `trim` yields a contiguous part of the input that starts and ends with non-space. It is empty exactly for blank input. |
| JsText.NonEmpty | src/components/SuttaReader.tsx:41 | `filter(Boolean)` keeps exactly the non-empty strings, in order, so the joined text is unchanged. |
| JsText.IntToString | src/components/Timer.tsx:22 | `String(n)` of a non-negative integer is digits that parse back to n, with no leading zero. A negative integer gets a minus sign before the digits of its magnitude. |
| JsText.Digits | src/components/Timer.tsx:22 | The decimal rendering of a natural number has no leading zero and parses back to the number. It is one digit exactly below 10 and at most two below 100. |
| JsText.PadStart | src/components/Timer.tsx:22 | `padStart(len, fill)` keeps the string as its suffix and prefixes only the fill character, up to at least `len`. |
| JsText.JsRemainder | src/components/TimerWidget.tsx:34-35 | JavaScript's `%` takes the sign of the dividend. For non-negative input it agrees with the mathematical remainder; for negative input it is the negated remainder of the magnitude. |
| Reading.StopReading | src/components/SuttaReader.tsx:141-148 | Without a speech engine Stop changes nothing. Otherwise reading ends and the highlight is cleared, but the completion flag is kept. |
| Reading.StartReading | src/components/SuttaReader.tsx:98-104 | Starting sets the reading flags, highlights phrase 0 and clears `readingComplete`. |
| Reading.Loop | src/components/SuttaReader.tsx:106-126 | The loop never sets `readingComplete` itself, whichever way it ends. |
| Reading.LoopOpens | src/components/SuttaReader.tsx:106-109 | Every iteration opens by highlighting its phrase. |
| Reading.LoopPauses | src/components/SuttaReader.tsx:112-121 | A pause follows a spoken phrase exactly when its speak call succeeded and Stop was not pressed during it. |
| Reading.LoopSays | src/components/SuttaReader.tsx:106-126 | The loop speaks phrases i, i+1, … in order, stopping with the phrase during which Stop took effect. |
| Reading.LoopOrdered | src/components/SuttaReader.tsx:107-121 | A highlight is always directly followed by the speak call for the same phrase, so no highlight comes after Stop or without its phrase being spoken. Every phrase is highlighted just before it is spoken. Every pause follows a spoken phrase and lasts that phrase's pause. |
| Reading.LoopEnds | src/components/SuttaReader.tsx:107-124 | The loop ends active exactly when Stop never took effect. It never sets the completion flag itself. |
| Reading.ReadText | src/components/SuttaReader.tsx:98-139 | Every run ends idle with index -1. `readingComplete` is set exactly when Stop never took effect. The phrases spoken are 0, 1, … up to the stop point, and only they are highlighted, each directly before it is spoken. Pauses follow the order above. A pause follows a phrase exactly when it was spoken and Stop was not pressed during it. |
| Reading.EmptyReadingCompletes | src/components/SuttaReader.tsx:106-130 | With no phrases the reading completes at once, with no effects. |
| Reading.FailuresDoNotAbort | src/components/SuttaReader.tsx:122-125 | Speak failures alone never end the reading: every phrase is attempted and the reading completes. |
| Reading.StopEndsReading | src/components/SuttaReader.tsx:107-124 | After the first effective Stop at phrase j, no later phrase is spoken and the reading is not complete. |
| Reading.StopNeedsEngine | src/components/SuttaReader.tsx:141-142 | Without a speech engine, Stop presses are ignored: every phrase is spoken and the reading completes. |
| Reading.NoReentryGuard | src/components/SuttaReader.tsx:98-104 | Starting resets the reader state whatever it was. Nothing checks whether a reading is already under way. |
| TimerModel.UpdateTimer | src/store/useStore.ts:105-116 | With any of hours/minutes/seconds in the patch, the remaining time is recomputed to match the merged fields. Otherwise it comes from the patch or is kept. Unpatched fields are kept. |
| TimerModel.UpdateTimerIdempotent | src/store/useStore.ts:105-116 | Applying the same patch twice is applying it once. |
| TimerModel.RunningPatchKeepsTime | src/store/useStore.ts:106-107 | A patch with only `isRunning` changes nothing but the running flag. |
| TimerModel.StartTimer | src/store/useStore.ts:118-120 | Starting sets only the running flag, even at zero remaining time. |
| TimerModel.PauseTimer | src/store/useStore.ts:122-124 | Pausing clears only the running flag. |
| TimerModel.StartPauseInverse | src/store/useStore.ts:118-124 | Start and pause undo each other on a timer in the matching state. |
| TimerModel.ResetTimer | src/store/useStore.ts:126 | Reset gives a stopped, consistent 10-minute timer with fields in clock range. |
| TimerModel.TickTimer | src/store/useStore.ts:128-149 | At or below zero, a tick only stops the timer. Above zero it takes one second off and renormalises the fields to that total, with minutes and seconds below 60. The running flag is kept. |
| TimerModel.NormalFieldsUnique | src/store/useStore.ts:135-148 | A normalised timer's fields are determined by its total: hours = total div 3600, and so on. |
| TimerModel.TickIsDecrement | src/store/useStore.ts:135-148 | On a normalised timer above zero, a tick equals the timer whose total is one less. |
| TimerModel.TickAtZeroIdempotent | src/store/useStore.ts:129-133 | At zero, ticking again changes nothing, and the timer is stopped. |
| TimerModel.CountdownReachesZero | src/store/useStore.ts:128-149 | After as many ticks as seconds remain (n), every field is 0 and the timer still runs. It stops only on the tick after that. |
| TimerModel.DefaultRunsTenMinutes | src/store/useStore.ts:50-56 | The default timer, started, reaches zero after 600 ticks and stops on the 601st. |
| TimerModel.StartAtZeroStopsOnFirstTick | src/store/useStore.ts:118-133 | A timer started at zero stops on its first tick, unchanged otherwise. |
| TimerModel.ElapseSecond | src/components/TimerWidget.tsx:12-24 | A second of wall time ticks the timer only while it runs. A running timer at zero stops. |
| TimerModel.PausedTimerIsFrozen | src/components/TimerWidget.tsx:15-17 | No time passes for a paused timer, however many seconds elapse. |
| TimerModel.ElapseStopsAtZero | src/components/TimerWidget.tsx:12-24 | Once a running timer has stopped at zero, further seconds change nothing. |
| TimerControls.WrapInc | src/components/Timer.tsx:33-43 | Increment wraps: in range it is +1 modulo max+1, and any value at or above max goes to 0. |
| TimerControls.WrapDec | src/components/Timer.tsx:33-43 | Decrement wraps: in range it is -1 modulo max+1, and any value at or below 0 goes to max. |
| TimerControls.WrapInverse | src/components/Timer.tsx:33-43 | On in-range values, increment and decrement undo each other. |
| TimerControls.AdjustTime | src/components/Timer.tsx:24-48 | While running nothing changes. Otherwise the selected field steps with wrap-around and the other two fields are kept. Index 0 is hours, 1 is minutes, anything else is seconds. The remaining time is recomputed to match, and the timer stays stopped. |
| TimerControls.AdjustRoundTrip | src/components/Timer.tsx:24-48 | On a stopped timer with in-range fields, incrementing and then decrementing a field restores the timer, and vice versa. |
| TimerControls.FormatTimeUnit | src/components/Timer.tsx:22 | A unit is at least two characters. It is exactly two digits for 0-99, and non-negative values parse back. Negative values keep their minus sign in front. |
| TimerControls.StartPauseButton | src/components/Timer.tsx:116 | The full view's button flips only the running flag. |
| TimerControls.StartPauseTwice | src/components/Timer.tsx:116 | Pressing the button twice restores the timer. |
| TimerWidget.FormatTime | src/components/TimerWidget.tsx:32-41 | Under an hour the clock reads `mm:ss` with two digits on each side. From an hour on it reads `h:mm:ss`, and the hour figure does not start with 0. |
| TimerWidget.CanStartTimer | src/components/TimerWidget.tsx:43 | The timer may be used when reading is not required first, or when the reading is complete. |
| TimerWidget.FormatTimeFields | src/components/TimerWidget.tsx:32-41 | The rendering uses fields h, m, s with h·3600 + m·60 + s = seconds and m, s < 60. It is `h:mm:ss` with unpadded h when h > 0, else `mm:ss`. |
| TimerWidget.ClockRoundTrip | src/components/TimerWidget.tsx:32-41 | For non-negative seconds the clock text parses back to the seconds. It has five characters exactly below one hour, and an hour figure never starts with 0. |
| TimerWidget.FormatTimeInjective | src/components/TimerWidget.tsx:32-41 | Different non-negative durations never look the same on the clock. |
| TimerWidget.NegativeClock | src/components/TimerWidget.tsx:33-40 | JavaScript's sign-keeping `%` shows -5 seconds as "-1:-5". |
| TimerWidget.WidgetToggle | src/components/TimerWidget.tsx:43-57 | When the gate is open the toggle flips only the running flag. When it is closed the button is disabled and nothing changes. |
| TimerWidget.WidgetToggleAgrees | src/components/TimerWidget.tsx:55 | When enabled, the widget's toggle does what the full view's button does. |
| TimerWidget.GateBlocksPause | src/components/TimerWidget.tsx:43-57 | The gate also blocks pausing: a running timer cannot be paused from the widget while reading is required but not complete. |
| TimerWidget.GateOpenWithoutRequirement | src/components/TimerWidget.tsx:43 | Without the reading requirement the timer can always be started. |
| TimerWidget.AutoStart | src/components/TimerWidget.tsx:26-30 | The timer runs afterwards exactly when auto-start is on, reading is complete and not in progress, or it already ran. Nothing but the running flag changes. |
| TimerWidget.AutoStartIdempotent | src/components/TimerWidget.tsx:26-30 | Re-running the effect changes nothing more. |
| Store.ResetAccessibilitySettings | src/store/useStore.ts:151-162 | Brightness, contrast, sepia and greyscale return to 100/100/0/0. Every other setting, the theme included, is kept. |
| Store.ResetAccessibilityIdempotent | src/store/useStore.ts:151-162 | Resetting twice is resetting once. The defaults are already neutral, and a neutral display is left alone. |
| Store.MergeProvider | src/store/useStore.ts:164-174 | The provider merge takes each field from the patch when present and keeps it otherwise. |
| Store.UpdateTTSProvider | src/store/useStore.ts:164-174 | Only the speech provider setting changes, and it becomes the merge of old and patch. |
| Store.UpdateTTSProviderIdempotent | src/store/useStore.ts:164-174 | Applying the same provider patch twice is applying it once. |
| Store.SelectBackend | src/store/useStore.ts:193-237 | The remote voice is used exactly when the provider is ElevenLabs with a non-empty key and voice id, and it is given those. Otherwise the browser engine is used if present. Without one the call fails with 'No speech service available'. |
| Store.EnabledIsIgnored | src/store/useStore.ts:196-198 | The provider's `enabled` flag plays no part in the choice. |
| Store.OtherProvidersUseBrowser | src/store/useStore.ts:196-235 | Any provider other than ElevenLabs falls back to the browser engine or the error. |
| Store.ConfiguredElevenLabsIsUsed | src/store/useStore.ts:196-198 | After configuring ElevenLabs with a key and a voice, speech goes to that voice. |
| Store.Partialize | src/store/useStore.ts:241-250 | The persisted snapshot holds the settings and the timer's time fields, always with the timer paused. |
| Store.Rehydrate | src/store/useStore.ts:238-251 | Restoring a snapshot takes the settings and the timer from the snapshot and keeps the in-memory reading flag. |
| Store.RestartPausesTimer | src/store/useStore.ts:238-251 | After a restart the timer has its saved time but is paused, and nothing is being read. |
| AudioService.FirstSuccess | src/services/AudioService.ts:80-92 | Finds the first source that loads: every source before it failed. None means all failed. |
| AudioService.TryLoadAudio | src/services/AudioService.ts:77-100 | Sources are tried in order, and none after the first success. That source's element is returned, ready. If all fail the last failure is reported, or a generic error for no sources. |
| AudioService.TryFromSpec | src/services/AudioService.ts:80-99 | The fallback loop from any position behaves as stated for TryLoadAudio. |
| AudioService.LoadSound | src/services/AudioService.ts:102-122 | A cached ready bell is not reloaded. Otherwise the local file is tried first, then the remote copy. The element that loads replaces the cache entry. When both fail the cache is unchanged and the remote source's failure is reported. |
| AudioService.LoadedBellIsCached | src/services/AudioService.ts:104-117 | Once a bell has loaded, loading it again does nothing. |
| AudioService.Clamp | src/services/AudioService.ts:164 | The volume is clamped to [0, 1]. In-range values are unchanged. |
| AudioService.SetVolume | src/services/AudioService.ts:163-168 | The clamped volume is stored and applied to every cached element. Nothing else changes. |
| AudioService.SetVolumeIdempotent | src/services/AudioService.ts:163-168 | Setting the same volume twice is setting it once. |
| AudioService.SetVolumeSyncs | src/services/AudioService.ts:163-168 | After `setVolume`, every cached element plays at the service volume, which lies in [0, 1]. |
| AudioService.LoadKeepsVolumeInSync | src/services/AudioService.ts:115-117 | Loading a bell keeps every cached element at the service volume. |
| AudioService.BeginInitialize | src/services/AudioService.ts:29-34 | Once initialised, nothing happens. When a promise is stored (loading, fulfilled or rejected), the caller gets that promise. Otherwise a new one is stored and loading starts. |
| AudioService.PreloadFrom | src/services/AudioService.ts:62-64 | Preloading changes only the cache and reports at most one error per bell. |
| AudioService.PreloadLoadsAll | src/services/AudioService.ts:62-64 | When the preload reports no failure, every listed bell is cached and ready, and ready bells stay ready. |
| AudioService.LoadableBellReady | src/services/AudioService.ts:62-64 | After preloading, every listed bell that was ready or loads from one of its sources is cached and ready, whatever happened to the other bells. |
| AudioService.Unloadable | src/services/AudioService.ts:104-117 | Reference list of the bells that cannot be had: each entry is the remote-source failure of a listed bell that was neither ready nor loadable. |
| AudioService.UnloadableEmpty | src/services/AudioService.ts:104-117 | No bell is unloadable exactly when every listed bell is ready or loads from one of its sources. |
| AudioService.PreloadReportsUnloadable | src/services/AudioService.ts:62-64 | The preload reports exactly the unloadable bells, in table order: one remote-source failure for each bell that was neither ready nor loadable, and nothing else. |
| AudioService.PromiseKeepsLoadable | src/services/AudioService.ts:36 | Storing the loading promise does not change which bells can be had. |
| AudioService.PreloadKeepsReady | src/services/AudioService.ts:62-64 | Preloading changes only the cache and never evicts a ready bell. |
| AudioService.PreloadAndMark | src/services/AudioService.ts:61-71 | Succeeds exactly when every bell is ready or loads from one of its sources, and then marks the service initialised with every bell ready. Otherwise it fails with the remote-source failure of the first unloadable bell in table order, clears the stored promise and leaves `initialized` as it was. |
| AudioService.FinishInitialize | src/services/AudioService.ts:36-72 | The async body as written. Without MP3 support it fails as unsupported and, because that throw comes before the first `await`, the rejected promise stays stored. A failed load clears the stored promise. Success marks the service initialised with every bell ready, and it succeeds exactly when MP3 is supported and every bell is ready or loads. With MP3 support a failure names the first unloadable bell's remote source. |
| AudioService.Initialize | src/services/AudioService.ts:29-75 | An initialised service, or one whose stored promise is loading or fulfilled, is left as it is. A stored rejection is handed back again. A fresh start succeeds exactly when MP3 is supported and every bell is ready or loads from one of its sources; it then ends initialised with every bell ready. With MP3 support a failure names the first unloadable bell's remote source. If it fails, the rejection stays stored exactly when MP3 is unsupported. |
| AudioService.InitializeIdempotent | src/services/AudioService.ts:30 | Initialising an initialised service changes nothing. |
| AudioService.InitializeJoinAndRetry | src/services/AudioService.ts:29-75 | A concurrent caller joins the loading promise. After a failed load, calling again starts afresh. After the unsupported-format failure, calling again gets the stored rejection back. |
| AudioService.UnsupportedStaysRejected | src/services/AudioService.ts:29-75 | Once `initialize` has failed for lack of MP3 support, every later call fails the same way without checking again, even if the format is supported by then. Only `cleanup` allows a fresh start. |
| AudioService.FinishInitializeRetrying | src/services/AudioService.ts:36-72 | The corrected async body: every failure, the unsupported format included, clears the stored promise. It succeeds exactly when MP3 is supported and every bell is ready or loads. |
| AudioService.InitializeRetrying | src/services/AudioService.ts:29-75 | `initialize` with the corrected body. A fresh start succeeds exactly when MP3 is supported and every bell is ready or loads, which is exactly when the service ends initialised. A failure leaves no promise stored. |
| AudioService.RetryingRetries | src/services/AudioService.ts:67-70 | With the corrected body, the call after any failure starts a complete new initialisation, in the environment of that moment. |
| AudioService.RetryingAgreesWithSupport | src/services/AudioService.ts:36-72 | With MP3 support the corrected and the as-written `initialize` are the same function. |
| AudioService.Cleanup | src/services/AudioService.ts:170-179 | Cleanup empties the cache and resets `initialized`, the stored promise and `userInteracted`. The volume is kept. |
| AudioService.CleanupForcesReload | src/services/AudioService.ts:170-179 | After cleanup, initialisation starts afresh and every bell is fetched again. |
| AudioService.UserInteraction | src/services/AudioService.ts:45-59 | The first gesture after `initialize` registered its listeners records that the user has interacted, and changes nothing else. |
| Catalog.InitDatabase | src/db/index.ts:16-30 | A second call changes nothing. A first call stores sample i as the sutta with id i + 1, stamped with its clock reading. |
| Catalog.InitDatabaseIdempotent | src/db/index.ts:17-29 | Initialising twice is initialising once, whatever the second call is given, and the fresh store's ids are distinct. |
| Catalog.GetSutta | src/db/index.ts:32-35 | It fails exactly when the store is uninitialised. A result is the first entry with that id, and no result means no entry has it. |
| Catalog.GetSuttaAfterInit | src/db/index.ts:20-35 | After initialisation, id i finds sample i - 1 and every other id finds nothing. |
| Catalog.PickIndex | src/db/index.ts:41 | `Math.floor(Math.random() * n)` is always a valid index. |
| Catalog.GetRandomSutta | src/db/index.ts:37-43 | It fails exactly when the store is uninitialised. It gives nothing exactly for an empty store; otherwise it gives one of the store's entries. |
| Catalog.EveryEntryReachable | src/db/index.ts:41-42 | Every entry of a non-empty store is returned for some random value. |
| Catalog.GetAllSuttas | src/db/index.ts:45-49 | It fails exactly when the store is uninitialised. Otherwise it returns a permutation of the store, newest first, and entries with equal timestamps keep their store order. |
| Catalog.SortSorts | src/db/index.ts:47-49 | The comparator sort returns a permutation of its input, ordered by non-increasing `created_at`. |
| Catalog.SortIsStable | src/db/index.ts:47-49 | The sort is stable: for each timestamp, the entries stamped with it appear in their original order. |
| Catalog.InsertIsStable | src/db/index.ts:47-49 | Placing an entry after all equally new ones appends it to its timestamp's entries and leaves the others alone. |
| Catalog.SameInstantKeepsOrder | src/db/index.ts:47-49 | Entries stamped in the same millisecond, as at initialisation, come back in store order. |
| Session.FetchRandomSutta | src/components/SuttaReader.tsx:150-167 | A fetched sutta is an entry of the store. Its phrases are `formatText` of its content, and the completion flag is cleared. A failed fetch shows the error and keeps the page. |
| Session.FinishedReadingStartsTimer | src/components/TimerWidget.tsx:26-30 | The reader hands its `readingComplete` flag to the widget. A reading that ran to the end unlocks the widget. With auto-start on, it starts the countdown without touching the remaining time. |
| Session.StoppedReadingKeepsTimerLocked | src/components/TimerWidget.tsx:26-43 | When reading is required, a reading stopped part-way leaves the widget button inert and auto-start silent. |
| Session.NewSuttaRelocksTimer | src/components/SuttaReader.tsx:153-157 | Loading another sutta locks the timer again when reading is required. |

## Left out

- Lengths are counted in characters. JavaScript counts UTF-16 code units, which differs only
  for characters outside the Basic Multilingual Plane. This affects the 100-character clause
  limit.
- Patches cannot hold an explicit `undefined`. A field in a patch is either present with a value
  or absent, whereas a JavaScript spread of `{hours: undefined}` would overwrite the field.
- Numbers are integers and reals, not IEEE doubles. This leaves out NaN, fractional timer fields,
  the exponent form `String(n)` takes from 10^21 up, and rounding in `Math.random() * n`.
- The ISO `created_at` strings are modelled as the integer milliseconds that
  `new Date(…).getTime()` gives. `initDatabase` is given its clock readings.
- Real time, audio and speech I/O are left out. This covers `setInterval`, the actual pause
  wait, audio `canplaythrough`/`error` events, `speak-tts`, HTTP to ElevenLabs and zustand's
  storage. They are inputs or transitions here.
- AudioService's `play` and `stop` (src/services/AudioService.ts:124-161) are left out. They
  only drive the audio element.
- The interaction handler's attempt to resume paused audio elements is left out; only the
  `userInteracted` flag is modelled.
- `updateSettings`, `initializeSpeech` and `fetchElevenLabsVoices` are left out. The first is a
  plain merge; the other two are I/O.
- The audio blob playback branch of `speak` is left out; only the choice of backend is modelled.
- Concurrency is covered only at the await points modelled: joining a loading initialisation,
  retrying after a failed load, and the stored rejection after the unsupported-format failure. Arbitrary interleavings of awaits are not modelled.
- Reading.NoReentryGuard: two races around the awaits of `readText` are not modelled. Each
  event record drives one run of the loop from start to end.
  - Stop then Read while the old loop waits in `speak` or in the pause
    (src/components/SuttaReader.tsx:113-120). The new run sets `readingRef` again (line 101), so
    the old loop does not break at line 107 or skip the pause at line 116. Both loops then run
    side by side, and the first to finish clears the flags in its `finally` (lines 134-137).
  - "New sutta" (lines 196-198) during a reading. The old loop still ends in
    `setReadingComplete(true)` (lines 128-130) for a text that was not read. This unlocks the
    timer after the moment `Session.NewSuttaRelocksTimer` describes.
- AudioService.Initialize: a caller that joins an initialisation still loading gets success at
  once. In the source it shares the loading promise and sees its eventual outcome. A stored
  rejection is modelled and handed back.
- AudioService.UserInteraction: the gesture listeners are registered with `once` and are not
  removed by `cleanup`, so a later `initialize` can register a second set. Listener bookkeeping
  is not modelled.
- AudioService.FinishInitialize: when several bells fail, `Promise.all` rejects with whichever
  failure happens first in time. The model reports the first in table order.
- TimerWidget.ClockRoundTrip: covers non-negative seconds. Negative input only has the
  `NegativeClock` example, since the store never holds a negative time.
- UI markup, routing, display filters (DOM and CSS) and Electron are left out. So is the static
  sample text, which is a parameter of `InitDatabase` here.
- Some behaviour one might expect is absent from the code, so it is not modelled:
  - a grace delay before auto-start;
  - refusing to start the timer while reading;
  - a recorded "failed" state for a bell;
  - bells played on timer start or end.

## Findings

| source | as written | input that shows it | evidently intended | confidence | as-written member | corrected member |
|---|---|---|---|---|---|---|
| src/services/AudioService.ts:36-72 | The async body throws the unsupported-format error before its first `await`. The catch block therefore clears `initPromise` before line 36 assigns it, and the assignment then stores the rejected promise. Every later `initialize` returns that rejection until `cleanup`. | `initialize()` when `canPlayType('audio/mpeg')` is empty, then `initialize()` again: the second call does not check again and rejects at once | The catch block's `this.initPromise = null` lets the next call retry, as it does after a failed load | medium, not executed | AudioService.UnsupportedStaysRejected | AudioService.RetryingRetries |
