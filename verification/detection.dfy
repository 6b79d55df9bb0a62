/** Detecting a joining player's language: the load task that reads the
    stored selection, falls back to the client's locale (waiting a few ticks
    for a client that has not sent it yet), and completes once; and the
    language the API reports for a player. */
module Detection {
  import opened Wrappers
  import opened Text
  import Languages

  type Language = Languages.Language

  /** The locale a client reports before it has sent its own. */
  const DefaultClientLocale: string := "en_us"

  /** Joins more recent than this many milliseconds wait for the locale. */
  const JoinWindow: nat := 1000

  /** `PlayerLanguageLoadEvent.Type`: how the language was found. */
  datatype Cause = SELECTED_LANGUAGE | CLIENT_LANGUAGE | SERVER_DEFAULT

  /** The detection task's result. */
  datatype Completion = Completion(language: Language, cause: Cause)

  /** The language catalogue, the server's language and whether the packet
      hook that reports the locale at join is in use. */
  datatype Env = Env(registry: Languages.Registry, server: Language, protocolHook: bool)

  /** The stored row for the player: the selected language and the last
      locale seen, each possibly absent. */
  datatype Record = Record(selected: Option<Language>, lastLocale: Option<string>)

  /** The detection task: not yet started, waiting for the packet hook, polling each
      tick (with the last stored locale and the ticks so far), or done. */
  datatype Phase =
    | Reading
    | Waiting
    | Polling(lastLocale: Option<string>, ticks: nat)
    | Done(completion: Completion)

  /** A player's state: the detection task's phase and the selection the API holds
      for the player. The player counts as still loading until the detection task is
      done. */
  datatype Player = Player(phase: Phase, selected: Option<Language>)

  predicate Loading(p: Player) {
    !p.phase.Done?
  }

  /** `complete`: the first completion wins; later ones change nothing. */
  function Complete(phase: Phase, c: Completion): (r: Phase)
    ensures phase.Done? ==> r == phase
    ensures !phase.Done? ==> r == Done(c)
  {
    if phase.Done? then phase else Done(c)
  }

  /** `completeLocale(locale)`: the language registered under the locale,
      else the server's language. */
  function FromLocale(env: Env, locale: string): (r: Completion)
    ensures Languages.GrabLanguage(env.registry, locale).Some? ==>
      r == Completion(Languages.GrabLanguage(env.registry, locale).value, CLIENT_LANGUAGE)
    ensures Languages.GrabLanguage(env.registry, locale).None? ==> r == Completion(env.server, SERVER_DEFAULT)
  {
    match Languages.GrabLanguage(env.registry, locale)
    case Some(l) => Completion(l, CLIENT_LANGUAGE)
    case None => Completion(env.server, SERVER_DEFAULT)
  }

  /** The number of ticks the poll waits for a client whose last stored
      locale was `last`. */
  function TickLimit(last: string): (r: nat)
    ensures r == 10 || r == 30
  {
    if last == DefaultClientLocale then 10 else 30
  }

  /** The client reports the default locale now and reported it last time. */
  predicate StaysDefault(locale: string, last: Option<string>) {
    locale == DefaultClientLocale && last == Some(DefaultClientLocale)
  }

  /** The player joined less than the join window ago. */
  predicate RecentJoin(sinceJoin: Option<nat>) {
    sinceJoin.Some? && sinceJoin.value < JoinWindow
  }

  /** The read of the stored row and what follows it. `read` is the row, or
      `None` when the read failed; `locale` is the client's locale now;
      `sinceJoin` the milliseconds since the player joined, when known.
      A stored selection completes the detection task and is kept as the player's
      selection even if the detection task was already done. Otherwise, unless the
      task is done or the packet hook will report the locale: a client that
      reports the default locale now and last time completes from it; a
      recent join starts polling; any other completes from the locale. */
  function Start(env: Env, p: Player, read: Option<Record>, locale: string, sinceJoin: Option<nat>): (r: Player)
    ensures read.Some? && read.value.selected.Some? ==>
      r == Player(Complete(p.phase, Completion(read.value.selected.value, SELECTED_LANGUAGE)), read.value.selected)
    ensures p.phase.Done? ==> r.phase == p.phase
    ensures !(read.Some? && read.value.selected.Some?) ==> r.selected == p.selected
    ensures !(read.Some? && read.value.selected.Some?) && !p.phase.Done? ==>
      var last := if read.Some? then read.value.lastLocale else None;
      && (env.protocolHook ==> r == p.(phase := Waiting))
      && (!env.protocolHook && StaysDefault(locale, last) ==> r.phase == Done(FromLocale(env, locale)))
      && (!env.protocolHook && !StaysDefault(locale, last) && RecentJoin(sinceJoin) ==> r.phase == Polling(last, 0))
      && (!env.protocolHook && !StaysDefault(locale, last) && !RecentJoin(sinceJoin) ==>
            r.phase == Done(FromLocale(env, locale)))
  {
    if read.Some? && read.value.selected.Some? then
      var l := read.value.selected.value;
      Player(Complete(p.phase, Completion(l, SELECTED_LANGUAGE)), Some(l))
    else
      var last := if read.Some? then read.value.lastLocale else None;
      if p.phase.Done? then p
      else if env.protocolHook then p.(phase := Waiting)
      else if StaysDefault(locale, last) then p.(phase := Complete(p.phase, FromLocale(env, locale)))
      else if RecentJoin(sinceJoin) then
        p.(phase := Polling(last, 0))
      else p.(phase := Complete(p.phase, FromLocale(env, locale)))
  }

  /** One run of the polling task with the client's current locale: a
      locale other than the default completes from it; otherwise the tick
      count goes up and the detection task completes when it reaches the limit. With
      no stored last locale the limit test dereferences null, so the tick
      is counted and the detection task stays pending. */
  function Tick(env: Env, p: Player, locale: string): (r: Player)
    ensures !p.phase.Polling? ==> r == p
    ensures r.selected == p.selected
  {
    match p.phase
    case Polling(last, ticks) =>
      if locale != DefaultClientLocale then p.(phase := Complete(p.phase, FromLocale(env, locale)))
      else if last.None? then p.(phase := Polling(last, ticks + 1))
      else if ticks + 1 == TickLimit(last.value) then p.(phase := Complete(p.phase, FromLocale(env, locale)))
      else p.(phase := Polling(last, ticks + 1))
    case _ => p
  }

  /** The packet hook's join locale: completes a task that is still
      loading. */
  function HookLocale(env: Env, p: Player, locale: string): (r: Player)
    ensures Loading(p) ==> r.phase == Done(FromLocale(env, locale))
    ensures !Loading(p) ==> r == p
  {
    if Loading(p) then p.(phase := Complete(p.phase, FromLocale(env, locale))) else p
  }

  datatype Event =
    | StoredRow(read: Option<Record>, locale: string, sinceJoin: Option<nat>)
    | TickEvent(locale: string)
    | HookEvent(locale: string)

  /** One event: a finished task keeps its result, and only a stored
      selection replaces the selection held for the player. */
  function Step(env: Env, p: Player, e: Event): (r: Player)
    ensures p.phase.Done? ==> r.phase == p.phase
    ensures !(e.StoredRow? && e.read.Some? && e.read.value.selected.Some?) ==> r.selected == p.selected
    ensures e.StoredRow? && e.read.Some? && e.read.value.selected.Some? ==> r.selected == e.read.value.selected
  {
    match e
    case StoredRow(read, locale, sinceJoin) => Start(env, p, read, locale, sinceJoin)
    case TickEvent(locale) => Tick(env, p, locale)
    case HookEvent(locale) => HookLocale(env, p, locale)
  }

  function Run(env: Env, p: Player, es: seq<Event>): Player
    decreases |es|
  {
    if es == [] then p else Run(env, Step(env, p, es[0]), es[1..])
  }

  /** The first completion wins: once done, no sequence of events changes
      the detection task's result. */
  lemma {:induction false} FirstCompletionWins(env: Env, p: Player, es: seq<Event>)
    requires p.phase.Done?
    ensures Run(env, p, es).phase == p.phase
    decreases |es|
  {
    if es != [] {
      FirstCompletionWins(env, Step(env, p, es[0]), es[1..]);
    }
  }

  function Ticks(locale: string, n: nat): (r: seq<Event>)
    ensures |r| == n && forall i :: 0 <= i < n ==> r[i] == TickEvent(locale)
  {
    if n == 0 then [] else [TickEvent(locale)] + Ticks(locale, n - 1)
  }

  /** A client that keeps reporting the default locale, with a stored last
      locale, is polled until the limit and then completes from the default
      locale. */
  lemma {:induction false} PollingReachesLimit(env: Env, p: Player, last: string, ticks: nat)
    requires p.phase == Polling(Some(last), ticks) && ticks < TickLimit(last)
    ensures Run(env, p, Ticks(DefaultClientLocale, TickLimit(last) - ticks)).phase
         == Done(FromLocale(env, DefaultClientLocale))
    decreases TickLimit(last) - ticks
  {
    var es := Ticks(DefaultClientLocale, TickLimit(last) - ticks);
    var q := Tick(env, p, DefaultClientLocale);
    assert Run(env, p, es) == Run(env, q, es[1..]);
    if ticks + 1 < TickLimit(last) {
      assert es[1..] == Ticks(DefaultClientLocale, TickLimit(last) - (ticks + 1));
      PollingReachesLimit(env, q, last, ticks + 1);
    } else {
      assert es[1..] == [];
    }
  }

  /** The load chain without a stored selection and without the packet
      hook: a client that keeps reporting the default locale, and whose row
      holds a last locale, is answered from the default locale within the
      tick limit, whether the task completes at once or polls first. */
  lemma NoSelectionCompletes(env: Env, p: Player, last: string, sinceJoin: Option<nat>)
    requires p.phase == Reading && !env.protocolHook
    ensures var q := Start(env, p, Some(Record(None, Some(last))), DefaultClientLocale, sinceJoin);
            Run(env, q, Ticks(DefaultClientLocale, TickLimit(last))).phase
              == Done(FromLocale(env, DefaultClientLocale))
  {
    var q := Start(env, p, Some(Record(None, Some(last))), DefaultClientLocale, sinceJoin);
    if q.phase.Done? {
      FirstCompletionWins(env, q, Ticks(DefaultClientLocale, TickLimit(last)));
    } else {
      PollingReachesLimit(env, q, last, 0);
    }
  }

  /** With no stored last locale the poll never completes while the client
      reports the default locale. */
  lemma {:induction false} NullLastLocaleNeverCompletes(env: Env, p: Player, ticks: nat, n: nat)
    requires p.phase == Polling(None, ticks)
    ensures Run(env, p, Ticks(DefaultClientLocale, n)).phase == Polling(None, ticks + n)
    decreases n
  {
    if n > 0 {
      var es := Ticks(DefaultClientLocale, n);
      assert es[1..] == Ticks(DefaultClientLocale, n - 1);
      NullLastLocaleNeverCompletes(env, Tick(env, p, DefaultClientLocale), ticks + 1, n - 1);
    }
  }

  /** A locale other than the default, at any tick, completes the poll from
      that locale. */
  lemma RealLocaleEndsPolling(env: Env, p: Player, locale: string)
    requires p.phase.Polling? && locale != DefaultClientLocale
    ensures Tick(env, p, locale).phase == Done(FromLocale(env, locale))
  {
  }

  /** `getLanguage(player)`: the server's language while loading; then the
      held selection; then the language of the client's current locale;
      then the server's language. */
  function LanguageOf(env: Env, p: Player, clientLocale: string): (r: Language)
    ensures Loading(p) ==> r == env.server
    ensures !Loading(p) && p.selected.Some? ==> r == p.selected.value
    ensures !Loading(p) && p.selected.None? && Languages.GrabLanguage(env.registry, clientLocale).Some? ==>
      r == Languages.GrabLanguage(env.registry, clientLocale).value
    ensures Languages.GrabLanguage(env.registry, clientLocale).None? && p.selected.None? ==> r == env.server
  {
    LowerTwice(clientLocale);
    if !Loading(p) then
      if p.selected.Some? then p.selected.value
      else Languages.GrabLanguage(env.registry, Lower(clientLocale)).GetOr(env.server)
    else env.server
  }

  /** A stored selection decides the reported language from then on, for
      every later tick or hook event and whatever locale the client
      reports. */
  lemma SelectionDecides(env: Env, p: Player, l: Language, last: Option<string>, locale: string,
                         sinceJoin: Option<nat>, es: seq<Event>, clientLocale: string)
    requires p.phase == Reading
    requires forall i :: 0 <= i < |es| ==> !es[i].StoredRow?
    ensures var q := Start(env, p, Some(Record(Some(l), last)), locale, sinceJoin);
            LanguageOf(env, Run(env, q, es), clientLocale) == l
  {
    var q := Start(env, p, Some(Record(Some(l), last)), locale, sinceJoin);
    FirstCompletionWins(env, q, es);
    SelectionKept(env, q, es);
  }

  /** Ticks and hook events never touch the selection. */
  lemma {:induction false} SelectionKept(env: Env, p: Player, es: seq<Event>)
    requires forall i :: 0 <= i < |es| ==> !es[i].StoredRow?
    ensures Run(env, p, es).selected == p.selected
    decreases |es|
  {
    if es != [] {
      assert !es[0].StoredRow?;
      assert forall i :: 0 <= i < |es[1..]| ==> !es[1..][i].StoredRow? by {
        forall i | 0 <= i < |es[1..]| ensures !es[1..][i].StoredRow? { assert es[1..][i] == es[i + 1]; }
      }
      SelectionKept(env, Step(env, p, es[0]), es[1..]);
    }
  }

  /** A task completed from the client's locale holds no selection, so the
      reported language follows the client's locale at the time of asking,
      not the one the detection task completed with. */
  lemma ClientCompletionFollowsLocale(env: Env, p: Player, locale: string, clientLocale: string)
    requires p.phase == Reading && p.selected.None? && !env.protocolHook
    requires Languages.GrabLanguage(env.registry, clientLocale).Some?
    ensures var q := Start(env, p, None, locale, None);
            q.phase == Done(FromLocale(env, locale)) &&
            LanguageOf(env, q, clientLocale) == Languages.GrabLanguage(env.registry, clientLocale).value
  {
  }
}
