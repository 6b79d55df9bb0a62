/** The event announcing which language a player now sees: why it fired
    (a load, a change or a refresh) and the language the player saw before. */
module DisplayEvent {
  import opened Wrappers
  import Languages

  type Language = Languages.Language

  /** The player event that led to the display: a language change (from an
      optional language to another), a completed load, or any other event. */
  datatype CauseEvent =
    | LanguageChange(from: Option<Language>, to: Language)
    | LanguageLoad(loaded: Language)
    | OtherPlayerEvent

  datatype Cause = LOAD | CHANGE | REFRESH

  /** The shown language and the causing event, which may be absent. */
  datatype Display = Display(language: Language, causeEvent: Option<CauseEvent>)

  datatype DisplayError = NullLanguage

  /** The constructor: a missing language is rejected. */
  function NewDisplay(language: Option<Language>, causeEvent: Option<CauseEvent>): (r: Result<Display, DisplayError>)
    ensures r.Failure? <==> language.None?
    ensures r.Success? ==> r.value.language == language.value && r.value.causeEvent == causeEvent
  {
    match language
    case None => Failure(NullLanguage)
    case Some(l) => Success(Display(l, causeEvent))
  }

  /** `getCause`: CHANGE for a change event, LOAD for a load event, and
      REFRESH without an event or for any other kind. */
  function CauseOf(d: Display): (r: Cause)
    ensures r == CHANGE <==> d.causeEvent.Some? && d.causeEvent.value.LanguageChange?
    ensures r == LOAD <==> d.causeEvent.Some? && d.causeEvent.value.LanguageLoad?
  {
    match d.causeEvent
    case Some(LanguageChange(_, _)) => CHANGE
    case Some(LanguageLoad(_)) => LOAD
    case _ => REFRESH
  }

  /** `getPreviousLanguage`: the catalogue's `en_US` (`english`) after a
      load, the change's origin (possibly none) after a change, and the
      shown language itself on a refresh. */
  function PreviousLanguage(d: Display, english: Language): (r: Option<Language>)
    ensures CauseOf(d) == LOAD ==> r == Some(english)
    ensures CauseOf(d) == CHANGE ==> r == d.causeEvent.value.from
    ensures CauseOf(d) == REFRESH ==> r == Some(d.language)
    ensures r.None? ==> CauseOf(d) == CHANGE
  {
    match CauseOf(d)
    case LOAD => Some(english)
    case CHANGE => d.causeEvent.value.from
    case REFRESH => Some(d.language)
  }

  /** The display a change event fires: it shows the new language. */
  function ChangeDisplay(from: Option<Language>, to: Language): (r: Display)
    ensures r.language == to
  {
    Display(to, Some(LanguageChange(from, to)))
  }

  /** The display a completed load fires. */
  function LoadDisplay(l: Language): (r: Display)
    ensures r.language == l
  {
    Display(l, Some(LanguageLoad(l)))
  }

  /** A change's display tells its listeners both ends of the change: the
      cause is CHANGE, the previous language is where the change came from
      and the shown one is where it went. */
  lemma ChangeRoundTrip(from: Option<Language>, to: Language, english: Language)
    ensures CauseOf(ChangeDisplay(from, to)) == CHANGE
    ensures PreviousLanguage(ChangeDisplay(from, to), english) == from
    ensures ChangeDisplay(from, to).language == to
  {
  }

  /** After a load the previous language is always `en_US`, whatever was
      loaded. */
  lemma LoadPreviousIsEnglish(l: Language, english: Language)
    ensures CauseOf(LoadDisplay(l)) == LOAD
    ensures PreviousLanguage(LoadDisplay(l), english) == Some(english)
  {
  }

  /** Only a change can report no previous language, and only when the
      change had no origin. */
  lemma PreviousAbsentOnlyForFirstChange(d: Display, english: Language)
    requires PreviousLanguage(d, english).None?
    ensures d.causeEvent.Some? && d.causeEvent.value.LanguageChange? && d.causeEvent.value.from.None?
  {
  }

  /** A refresh reports the shown language as the previous one, so it
      announces no change. */
  lemma RefreshAnnouncesNoChange(d: Display, english: Language)
    requires d.causeEvent.None? || d.causeEvent.value.OtherPlayerEvent?
    ensures PreviousLanguage(d, english) == Some(d.language)
  {
  }
}
