/** How a reading session feeds the timer: the `readingComplete` flag that `readText` leaves
    behind is what the timer widget's gate and auto-start effect look at. */
module Session {
  import opened Store
  import opened TimerModel
  import opened Reading
  import opened TimerWidget
  import opened Wrappers
  import Catalog
  import Segmenter

  /** The reader page: the sutta shown, its phrases, the reading state and the error banner. */
  datatype Page = Page(sutta: Option<Catalog.Sutta>, phrases: seq<string>, reader: Reader, error: Option<string>)

  const LoadFailed := "Failed to load sutta. Please try again."

  /** `fetchRandomSutta` followed by the effect that segments the new sutta: a fresh sutta
      replaces the old one and clears `readingComplete`; an uninitialised or empty catalogue
      (the thrown error and the thrown 'No sutta found' alike) shows the error banner and keeps
      the rest of the page. */
  function FetchRandomSutta(page: Page, db: Catalog.Db, random: real): (r: Page)
    requires 0.0 <= random < 1.0
    ensures r.error.None? <==> Catalog.GetRandomSutta(db, random).Ok? && Catalog.GetRandomSutta(db, random).value.Some?
    ensures r.error.Some? ==> r == page.(error := Some(LoadFailed))
    ensures r.error.None? ==> r.sutta.Some? && r.sutta.value in db.suttas
    ensures r.error.None? ==> !r.reader.complete && r.reader.(complete := page.reader.complete) == page.reader
    ensures r.error.None? ==> r.phrases == Segmenter.FormatText(r.sutta.value.content)
  {
    match Catalog.GetRandomSutta(db, random)
    case Ok(Some(s)) =>
      Page(Some(s), Segmenter.FormatText(s.content), page.reader.(complete := false), None)
    case _ => page.(error := Some(LoadFailed))
  }

  /** Loading another sutta locks the timer again when reading is required, even right after
      a finished reading. */
  lemma NewSuttaRelocksTimer(page: Page, db: Catalog.Db, random: real, settings: Settings, t: Timer)
    requires 0.0 <= random < 1.0
    requires settings.readSuttaBeforeMeditation
    ensures var r := FetchRandomSutta(page, db, random);
      r.error.None? ==> WidgetToggle(t, settings, r.reader.complete) == t
  {
  }

  /** A reading that ran to the end unlocks the widget and, with auto-start on, starts the
      countdown without touching the remaining time. */
  lemma FinishedReadingStartsTimer(phrases: seq<string>, events: seq<PhraseEvents>, hasEngine: bool,
                                   reader: Reader, settings: Settings, t: Timer)
    requires |events| == |phrases|
    requires !StoppedWithin(events, hasEngine, 0, |phrases|)
    ensures var after := ReadText(phrases, events, hasEngine, reader).final;
      && CanStartTimer(settings, after.complete)
      && (settings.autoStartTimerAfterSutta ==>
            AutoStart(t, settings, after.complete, after.isReading) == t.(isRunning := true))
  {
  }

  /** A reading stopped part-way leaves the timer locked when reading is required: the widget
      button does nothing and auto-start does not fire, whatever the timer was doing. */
  lemma StoppedReadingKeepsTimerLocked(phrases: seq<string>, events: seq<PhraseEvents>, hasEngine: bool,
                                       reader: Reader, settings: Settings, t: Timer)
    requires |events| == |phrases|
    requires StoppedWithin(events, hasEngine, 0, |phrases|)
    requires settings.readSuttaBeforeMeditation
    ensures var after := ReadText(phrases, events, hasEngine, reader).final;
      && WidgetToggle(t, settings, after.complete) == t
      && AutoStart(t, settings, after.complete, after.isReading) == t
  {
  }
}
