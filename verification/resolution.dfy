/** Looking a message up: the fallback chain that picks the language whose
    value answers a request, and the result pipeline that then expands
    `$T{key}` references to other messages, `$MC{code}` references to game
    texts, chat colours and `{tag}` placeholders. */
module Resolution {
  import opened Wrappers
  import opened Text
  import opened Values
  import Languages
  import Store
  import Minecraft
  import Placeholders
  import References

  type Language = Languages.Language

  /** What the lookup reads from outside the plugin manager: the server's
      language, each language's similar languages, the game's own texts and
      the chat-colour translation. */
  datatype Env = Env(
    server: Language,
    similarOf: Language -> seq<Language>,
    game: Minecraft.Env,
    colour: string -> string)

  /** How a lookup can fail: references nested deeper than the fuel allows
      (the source overflows its stack on a reference cycle), a reference to
      a message that refuses `getTranslation`, or a game reference whose
      key cannot be built. */
  datatype ResolveError =
    | StackOverflow
    | ReferenceRefused(key: string, refusal: Store.StoreError)
    | GameKeyRefused(code: string, keyError: Minecraft.KeyError)

  /** A `Result`: the language that answered (none when only the key could
      be given), the value as found and the value after the pipeline. */
  datatype Outcome = Outcome(language: Option<Language>, plain: Value, final: Value)

  /** The namespaced key's text: lower-cased plugin name, a colon and the
      key. */
  function KeyText(m: Store.Manager, t: Store.Translation): (r: string)
    ensures |r| == |m.plugin| + 1 + |t.key|
    ensures r[|m.plugin|] == ':' && r[|m.plugin| + 1..] == t.key
  {
    Lower(m.plugin) + ":" + t.key
  }

  /** What a lookup answers with when no language has a value. */
  function KeyValue(m: Store.Manager, t: Store.Translation): (r: Value)
    ensures r.Kind() == t.kind
    ensures ToText(r) == KeyText(m, t)
  {
    FromText(t.kind, KeyText(m, t))
  }

  /** The first language of `xs` other than `l` that has a value. */
  function FirstTranslated(t: Store.Translation, l: Language, xs: seq<Language>): (r: Option<Language>)
    ensures r.Some? ==> r.value in xs && r.value != l && r.value in t.values
    ensures r.None? ==> forall x :: x in xs && x != l ==> x !in t.values
  {
    if xs == [] then None
    else if xs[0] != l && xs[0] in t.values then Some(xs[0])
    else FirstTranslated(t, l, xs[1..])
  }

  /** The fallback to the plugin's default language is a full lookup of its
      own; ranking the requested language lets that call count as smaller. */
  function Rank(m: Store.Manager, l: Option<Language>): nat {
    match l
    case None => 2
    case Some(x) => if x == m.defaultLanguage then 0 else 1
  }

  /** `getResult(language)`: the fallback chain, then the pipeline on a copy
      of the value it found. */
  function Resolve(env: Env, m: Store.Manager, t: Store.Translation, l: Option<Language>, fuel: nat)
    : (r: Result<Outcome, ResolveError>)
    requires Store.KeysAgree(m) && Store.Typed(t)
    ensures r.Success? ==> r.value.plain.Kind() == t.kind && r.value.final.Kind() == t.kind
    ensures r.Success? && r.value.language.None? ==>
      r.value.plain == KeyValue(m, t) && r.value.final == r.value.plain
    decreases fuel, Rank(m, l), 5, 0
  {
    var found :- Task(env, m, t, l, fuel);
    var final :- Pipeline(env, m, t, found.0, found.1, fuel);
    Success(Outcome(found.0, found.1, final))
  }

  /** `FindTask.task`: which language answers and with which value. Without
      a language: the default language's full lookup, else the server
      language's full lookup if it has a value, else the key. With one: its
      own value, a similar language's value, the server language's value,
      the default language's full lookup, else the key; each fallback only
      when its switch is on. */
  function Task(env: Env, m: Store.Manager, t: Store.Translation, l: Option<Language>, fuel: nat)
    : (r: Result<(Option<Language>, Value), ResolveError>)
    requires Store.KeysAgree(m) && Store.Typed(t)
    ensures r.Success? ==> r.value.1.Kind() == t.kind
    ensures r.Success? && r.value.0.None? ==> r.value.1 == KeyValue(m, t)
    decreases fuel, Rank(m, l), 4, 0
  {
    match l
    case None =>
      if m.flags.fallbackToDefault then
        var o :- Resolve(env, m, t, Some(m.defaultLanguage), fuel);
        Success((Some(m.defaultLanguage), o.final))
      else if env.server in t.values then
        var o :- Resolve(env, m, t, Some(env.server), fuel);
        Success((Some(env.server), o.final))
      else Success((None, KeyValue(m, t)))
    case Some(x) =>
      var similar := FirstTranslated(t, x, env.similarOf(x));
      if x in t.values then Success((l, t.values[x]))
      else if m.flags.fallbackToSimilar && similar.Some? then
        Success((similar, t.values[similar.value]))
      else if m.flags.fallbackToServer && x != env.server && env.server in t.values then
        Success((Some(env.server), t.values[env.server]))
      else if m.flags.fallbackToDefault && x != m.defaultLanguage then
        var o :- Resolve(env, m, t, Some(m.defaultLanguage), fuel);
        Success((Some(m.defaultLanguage), o.final))
      else Success((None, KeyValue(m, t)))
  }

  /** The strings a value holds: one for STRING, the elements for LIST. */
  function Texts(v: Value): (r: seq<string>)
    ensures v.Str? ==> |r| == 1
  {
    match v
    case Str(s) => [s]
    case Lst(items) => items
  }

  /** A value of the same type as `v` holding `items`. */
  function Rebuild(v: Value, items: seq<string>): (r: Value)
    requires v.Str? ==> |items| == 1
    ensures r.Kind() == v.Kind() && Texts(r) == items
  {
    match v
    case Str(_) => Str(items[0])
    case Lst(_) => Lst(items)
  }

  function MapColour(colour: string -> string, xs: seq<string>): (r: seq<string>)
    ensures |r| == |xs| && forall i :: 0 <= i < |xs| ==> r[i] == colour(xs[i])
  {
    seq(|xs|, i requires 0 <= i < |xs| => colour(xs[i]))
  }

  function MapFormat(xs: seq<string>, tags: seq<string>): (r: seq<string>)
    ensures |r| == |xs| && forall i :: 0 <= i < |xs| ==> r[i] == Placeholders.FormatPlaceholders(xs[i], tags)
  {
    seq(|xs|, i requires 0 <= i < |xs| => Placeholders.FormatPlaceholders(xs[i], tags))
  }

  /** The `Result` constructor's stages, each a no-op when no language
      answered: other messages, game texts, colours when the plugin asks for
      them, and placeholder formatting when the plugin asks for it and the
      message has placeholders. */
  function Pipeline(env: Env, m: Store.Manager, t: Store.Translation, lang: Option<Language>, v: Value, fuel: nat)
    : (r: Result<Value, ResolveError>)
    requires Store.KeysAgree(m)
    ensures r.Success? ==> r.value.Kind() == v.Kind()
    ensures lang.None? ==> r == Success(v)
    decreases fuel, 0, 3, 0
  {
    match lang
    case None => Success(v)
    case Some(l) =>
      var a :- TranslationStage(env, m, t, l, Texts(v), fuel);
      var b :- GameStage(env, l, a);
      Success(Rebuild(v, Finish(env, m, t, b)))
  }

  /** The two last stages: colours when the plugin asks for them, then
      placeholder formatting when the plugin asks for it and the message has
      placeholders. */
  function Finish(env: Env, m: Store.Manager, t: Store.Translation, xs: seq<string>): (r: seq<string>)
    ensures |r| == |xs|
    ensures !m.flags.autoColour && (!m.flags.formattedPlaceholders || t.placeholders == []) ==> r == xs
  {
    var c := if m.flags.autoColour then MapColour(env.colour, xs) else xs;
    if m.flags.formattedPlaceholders && t.placeholders != [] then MapFormat(c, t.placeholders) else c
  }

  /** `replaceAnotherTranslations` over the strings of a value, in order. */
  function TranslationStage(env: Env, m: Store.Manager, t: Store.Translation, l: Language, items: seq<string>, fuel: nat)
    : (r: Result<seq<string>, ResolveError>)
    requires Store.KeysAgree(m)
    ensures r.Success? ==> |r.value| == |items|
    decreases fuel, 0, 2, |items|
  {
    if items == [] then Success([])
    else
      var head :- ExpandTranslations(env, m, t, l, items[0], fuel);
      var tail :- TranslationStage(env, m, t, l, items[1..], fuel);
      Success([head] + tail)
  }

  /** `regexAnotherTranslations`: each `$T{name}` is replaced by the named
      message's lookup in the same language, unless it names the message
      itself or a message that does not exist or is not a STRING. */
  function ExpandTranslations(env: Env, m: Store.Manager, t: Store.Translation, l: Language, s: string, fuel: nat)
    : (r: Result<string, ResolveError>)
    requires Store.KeysAgree(m)
    ensures !Contains(s, References.TranslationOpen) ==> r == Success(s)
    ensures Contains(s, References.TranslationOpen) ==>
      var c := TranslationChoices(env, m, t, l, References.Refs(s, References.TranslationOpen, 0), fuel);
      && (r.Failure? <==> c.Failure?)
      && (c.Failure? ==> r.error == c.error)
      && (c.Success? ==> r.value == References.Fill(s, References.Refs(s, References.TranslationOpen, 0), c.value, 0))
    decreases fuel, 0, 1, 0
  {
    if !Contains(s, References.TranslationOpen) then Success(s)
    else
      var refs := References.Refs(s, References.TranslationOpen, 0);
      var outs :- TranslationChoices(env, m, t, l, refs, fuel);
      Success(References.Fill(s, refs, outs, 0))
  }

  /** A reference the stage leaves alone. */
  predicate Skipped(m: Store.Manager, t: Store.Translation, name: string)
    ensures !Skipped(m, t, name) <==>
      Lower(name) != Lower(t.key) && Lower(name) in m.translations && m.translations[Lower(name)].kind == STRING
  {
    EqualsIgnoreCase(name, t.key) || Store.GrabTranslationType(m, name) != Some(STRING)
  }

  /** The replacement for each reference found, in order; the first failure
      stops the stage. */
  function TranslationChoices(env: Env, m: Store.Manager, t: Store.Translation, l: Language,
                              refs: seq<References.Ref>, fuel: nat)
    : (r: Result<seq<Option<string>>, ResolveError>)
    requires Store.KeysAgree(m)
    ensures r.Success? ==> |r.value| == |refs|
    ensures r.Success? ==> forall i :: 0 <= i < |refs| ==>
      (r.value[i].None? <==> Skipped(m, t, refs[i].name))
    decreases fuel, 0, 0, |refs|
  {
    if refs == [] then Success([])
    else
      var name := refs[0].name;
      var head :- if Skipped(m, t, name) then Success(None) else Referenced(env, m, name, l, fuel);
      var tail :- TranslationChoices(env, m, t, l, refs[1..], fuel);
      ChoicesCons(m, t, refs, head, tail);
      Success([head] + tail)
  }

  lemma ChoicesCons(m: Store.Manager, t: Store.Translation, refs: seq<References.Ref>,
                    head: Option<string>, tail: seq<Option<string>>)
    requires refs != [] && |tail| == |refs| - 1
    requires head.None? <==> Skipped(m, t, refs[0].name)
    requires forall i :: 0 <= i < |refs| - 1 ==> (tail[i].None? <==> Skipped(m, t, refs[1..][i].name))
    ensures forall i :: 0 <= i < |refs| ==> (([head] + tail)[i].None? <==> Skipped(m, t, refs[i].name))
  {
    forall i | 0 <= i < |refs|
      ensures ([head] + tail)[i].None? <==> Skipped(m, t, refs[i].name)
    {
      if i > 0 { assert refs[1..][i - 1] == refs[i]; }
    }
  }

  /** `getTranslationString(name, language)`: the named STRING message's
      full lookup. Each level of nesting spends one unit of fuel. */
  function Referenced(env: Env, m: Store.Manager, name: string, l: Language, fuel: nat)
    : (r: Result<Option<string>, ResolveError>)
    requires Store.KeysAgree(m) && Store.GrabTranslationType(m, name) == Some(STRING)
    ensures r.Success? ==> r.value.Some?
    ensures fuel == 0 ==> r == Failure(StackOverflow)
    decreases fuel, 0, 0, 0
  {
    if fuel == 0 then Failure(StackOverflow)
    else match Store.GetTranslation(m, name, STRING)
      case Failure(e) => Failure(ReferenceRefused(Lower(name), e))
      case Success(found) =>
        var o :- Resolve(env, m, found.1, Some(l), fuel - 1);
        Success(Some(o.final.s))
  }

  /** `replaceMinecraftTranslations` over the strings of a value. */
  function GameStage(env: Env, l: Language, items: seq<string>): (r: Result<seq<string>, ResolveError>)
    ensures r.Success? ==> |r.value| == |items|
  {
    if items == [] then Success([])
    else
      var head :- ExpandGameTexts(env, l, items[0]);
      var tail :- GameStage(env, l, items[1..]);
      Success([head] + tail)
  }

  /** `regexMinecraftTranslations`: each `$MC{code}` whose code the game's
      file for the language holds is replaced by the game's text. */
  function ExpandGameTexts(env: Env, l: Language, s: string): (r: Result<string, ResolveError>)
    ensures !Contains(s, References.GameOpen) ==> r == Success(s)
    ensures Contains(s, References.GameOpen) ==>
      var refs := References.Refs(s, References.GameOpen, 0);
      && (r.Failure? <==> exists i :: 0 <= i < |refs| && GameChoice(env, l, refs[i].name).Failure?)
      && (r.Success? ==> r.value == References.Fill(s, refs, GameChoices(env, l, refs).value, 0))
  {
    if !Contains(s, References.GameOpen) then Success(s)
    else
      var refs := References.Refs(s, References.GameOpen, 0);
      match GameChoices(env, l, refs)
      case Failure(e) =>
        assert exists i :: 0 <= i < |refs| && GameChoice(env, l, refs[i].name).Failure?;
        Failure(e)
      case Success(outs) =>
        assert forall i :: 0 <= i < |refs| ==> GameChoice(env, l, refs[i].name).Success?;
        Success(References.Fill(s, refs, outs, 0))
  }

  function GameChoices(env: Env, l: Language, refs: seq<References.Ref>): (r: Result<seq<Option<string>>, ResolveError>)
    ensures r.Success? ==> |r.value| == |refs|
    ensures r.Success? ==> forall i :: 0 <= i < |refs| ==> GameChoice(env, l, refs[i].name) == Success(r.value[i])
    ensures r.Failure? ==> exists i :: 0 <= i < |refs| && GameChoice(env, l, refs[i].name).Failure?
  {
    if refs == [] then Success([])
    else
      var head :- GameChoice(env, l, refs[0].name);
      var tail :- GameChoices(env, l, refs[1..]);
      Success([head] + tail)
  }

  /** One `$MC{code}`: left alone when the game's file for the language
      lacks the code, otherwise the game lookup of the code, which throws
      where the code is no valid replacement. */
  function GameChoice(env: Env, l: Language, code: string): (r: Result<Option<string>, ResolveError>)
    ensures r.Success? && r.value.Some? <==> r.Success? && Minecraft.ContainsKey(env.game.catalogue, l, code)
    ensures r.Failure? <==> Minecraft.ContainsKey(env.game.catalogue, l, code) && Minecraft.CustomTranslation(env.game, Some(l), code).Failure?
    ensures r.Success? && r.value.Some? && IsLiteralReplacement(code) ==> r.value == Some(env.game.catalogue[l][code])
  {
    if !Minecraft.ContainsKey(env.game.catalogue, l, code) then Success(None)
    else match Minecraft.CustomTranslation(env.game, Some(l), code)
      case Failure(e) => Failure(GameKeyRefused(code, e))
      case Success(x) => Success(Some(x))
  }

  // ----- The fallback chain against a reference definition -----

  /** Which fallback answers: a stored value, a full lookup in another
      language, or the key. */
  datatype Choice = Cached(language: Language) | Full(language: Language) | KeyOnly

  /** The first language of `xs` that has a value. */
  function FirstHolder(t: Store.Translation, xs: seq<Language>): (r: Option<Language>)
  {
    if xs == [] then None
    else if xs[0] in t.values then Some(xs[0])
    else FirstHolder(t, xs[1..])
  }

  /** The languages whose stored values may answer a request for `x`, in
      order of preference. */
  function Candidates(env: Env, m: Store.Manager, x: Language): seq<Language> {
    [x] + (if m.flags.fallbackToSimilar then env.similarOf(x) else []) +
    (if m.flags.fallbackToServer then [env.server] else [])
  }

  /** The fallback rule stated directly: the first candidate with a value;
      failing that, the default language's full lookup when that switch is
      on and the request was for another language; failing that, the key.
      Without a language: the default language's full lookup when that
      switch is on, else the server language's when it has a value. */
  function Choose(env: Env, m: Store.Manager, t: Store.Translation, l: Option<Language>): Choice {
    match l
    case None =>
      if m.flags.fallbackToDefault then Full(m.defaultLanguage)
      else if env.server in t.values then Full(env.server)
      else KeyOnly
    case Some(x) =>
      match FirstHolder(t, Candidates(env, m, x))
      case Some(y) => Cached(y)
      case None => if m.flags.fallbackToDefault && x != m.defaultLanguage then Full(m.defaultLanguage) else KeyOnly
  }

  lemma {:induction false} FirstHolderAppend(t: Store.Translation, a: seq<Language>, b: seq<Language>)
    ensures FirstHolder(t, a + b) == if FirstHolder(t, a).Some? then FirstHolder(t, a) else FirstHolder(t, b)
    decreases |a|
  {
    if a != [] {
      assert (a + b)[0] == a[0] && (a + b)[1..] == a[1..] + b;
      FirstHolderAppend(t, a[1..], b);
    } else {
      assert a + b == b;
    }
  }

  lemma {:induction false} FirstTranslatedIsHolder(t: Store.Translation, x: Language, xs: seq<Language>)
    requires x !in t.values
    ensures FirstTranslated(t, x, xs) == FirstHolder(t, xs)
    decreases |xs|
  {
    if xs != [] {
      FirstTranslatedIsHolder(t, x, xs[1..]);
    }
  }

  /** The chain as written follows the rule: the exclusions of the request
      language from the similar languages and from the server fallback never
      change the answer, because the request language, if it had a value,
      would already have answered. */
  lemma {:induction false} TaskFollowsChoice(env: Env, m: Store.Manager, t: Store.Translation, l: Option<Language>, fuel: nat)
    requires Store.KeysAgree(m) && Store.Typed(t)
    ensures Choose(env, m, t, l).Cached? ==>
      var y := Choose(env, m, t, l).language;
      y in t.values && Task(env, m, t, l, fuel) == Success((Some(y), t.values[y]))
    ensures Choose(env, m, t, l).Full? ==>
      var y := Choose(env, m, t, l).language;
      var o := Resolve(env, m, t, Some(y), fuel);
      Task(env, m, t, l, fuel) == if o.Success? then Success((Some(y), o.value.final)) else Failure(o.error)
    ensures Choose(env, m, t, l).KeyOnly? ==> Task(env, m, t, l, fuel) == Success((None, KeyValue(m, t)))
  {
    if l.Some? {
      CandidateHolder(env, m, t, l.value);
    }
  }

  /** The first candidate with a value, in the terms `Task` tests it: the
      request language, then the first similar one, then the server's. */
  lemma CandidateHolder(env: Env, m: Store.Manager, t: Store.Translation, x: Language)
    ensures var similar := FirstTranslated(t, x, env.similarOf(x));
      FirstHolder(t, Candidates(env, m, x)) ==
        if x in t.values then Some(x)
        else if m.flags.fallbackToSimilar && similar.Some? then similar
        else if m.flags.fallbackToServer && env.server in t.values then Some(env.server)
        else None
  {
    var sim := if m.flags.fallbackToSimilar then env.similarOf(x) else [];
    var srv := if m.flags.fallbackToServer then [env.server] else [];
    assert Candidates(env, m, x) == [x] + (sim + srv);
    FirstHolderAppend(t, [x], sim + srv);
    if x !in t.values {
      assert FirstHolder(t, [x]) == None;
      FirstHolderAppend(t, sim, srv);
      FirstTranslatedIsHolder(t, x, env.similarOf(x));
      assert FirstHolder(t, []) == None;
    }
  }

  // ----- What a result says -----

  /** `Result.toString`: the key when no language answered, else the final
      value's text. */
  function ResultText(m: Store.Manager, t: Store.Translation, o: Outcome): (r: string)
    ensures o.language.None? ==> r == KeyText(m, t)
  {
    if o.language.None? then KeyText(m, t) else ToText(o.final)
  }

  /** The key shown for an unanswered request is exactly the final value's
      text, so `toString` always prints the final value. */
  lemma ResultTextIsFinalText(env: Env, m: Store.Manager, t: Store.Translation, l: Option<Language>, fuel: nat)
    requires Store.KeysAgree(m) && Store.Typed(t)
    ensures Resolve(env, m, t, l, fuel).Success? ==>
      ResultText(m, t, Resolve(env, m, t, l, fuel).value) == ToText(Resolve(env, m, t, l, fuel).value.final)
  {
  }

  // ----- Text without references -----

  lemma NoDollarNoReference(s: string, open: string)
    requires |open| >= 1 && open[0] == '$' && '$' !in s
    ensures !Contains(s, open)
  {
    forall i: nat | i <= |s| ensures !OccursAt(s, open, i) {
      if i + |open| <= |s| {
        assert s[i..i + |open|][0] == s[i];
      }
    }
  }

  predicate DollarFree(xs: seq<string>) {
    forall i :: 0 <= i < |xs| ==> '$' !in xs[i]
  }

  /** Strings without `$` pass both reference stages unchanged. */
  lemma {:induction false} StagesKeepPlainText(env: Env, m: Store.Manager, t: Store.Translation, l: Language,
                                              xs: seq<string>, fuel: nat)
    requires Store.KeysAgree(m) && DollarFree(xs)
    ensures TranslationStage(env, m, t, l, xs, fuel) == Success(xs)
    ensures GameStage(env, l, xs) == Success(xs)
    decreases |xs|
  {
    if xs != [] {
      NoDollarNoReference(xs[0], References.TranslationOpen);
      NoDollarNoReference(xs[0], References.GameOpen);
      assert DollarFree(xs[1..]) by {
        forall i | 0 <= i < |xs[1..]| ensures '$' !in xs[1..][i] { assert xs[1..][i] == xs[i + 1]; }
      }
      StagesKeepPlainText(env, m, t, l, xs[1..], fuel);
      assert [xs[0]] + xs[1..] == xs;
    }
  }

  /** A message without `$`, colours and formatting: the pipeline gives the
      value back as found. */
  lemma PipelineKeepsPlainText(env: Env, m: Store.Manager, t: Store.Translation, l: Language, v: Value, fuel: nat)
    requires Store.KeysAgree(m) && DollarFree(Texts(v))
    requires !m.flags.autoColour && (!m.flags.formattedPlaceholders || t.placeholders == [])
    ensures Pipeline(env, m, t, Some(l), v, fuel) == Success(v)
  {
    StagesKeepPlainText(env, m, t, l, Texts(v), fuel);
  }

  /** With no value in any language and the default-language fallback on, a
      request for another language is answered by the default language's
      lookup, which gives the key; the outer result then reports the default
      language and runs colours and formatting over the key text. */
  lemma DefaultTierWithoutValues(env: Env, m: Store.Manager, t: Store.Translation, x: Language, fuel: nat)
    requires Store.KeysAgree(m) && Store.Typed(t)
    requires t.values == map[] && m.flags.fallbackToDefault && x != m.defaultLanguage
    requires '$' !in KeyText(m, t)
    ensures Resolve(env, m, t, Some(x), fuel) ==
      Success(Outcome(Some(m.defaultLanguage), KeyValue(m, t),
                      Rebuild(KeyValue(m, t), Finish(env, m, t, Texts(KeyValue(m, t))))))
  {
    var kv := KeyValue(m, t);
    assert FirstTranslated(t, x, env.similarOf(x)).None?;
    assert FirstTranslated(t, m.defaultLanguage, env.similarOf(m.defaultLanguage)).None?;
    assert Task(env, m, t, Some(m.defaultLanguage), fuel) == Success((None, kv));
    assert Resolve(env, m, t, Some(m.defaultLanguage), fuel) == Success(Outcome(None, kv, kv));
    assert Task(env, m, t, Some(x), fuel) == Success((Some(m.defaultLanguage), kv));
    assert DollarFree(Texts(kv)) by {
      if kv.Lst? { assert Texts(kv) == [KeyText(m, t)]; }
    }
    StagesKeepPlainText(env, m, t, m.defaultLanguage, Texts(kv), fuel);
  }

  // ----- Formatting through the lookup -----

  /** A message whose value in the requested language is a plain template
      comes out with each tag replaced by the marker of the first position
      of its name in the placeholder list, when the plugin
      formats placeholders and does not colour. */
  lemma FormattedLookup(env: Env, m: Store.Manager, t: Store.Translation, l: Language,
                        ps: seq<Placeholders.Piece>, fuel: nat)
    requires Store.KeysAgree(m) && Store.Typed(t)
    requires l in t.values && t.values[l] == Str(Placeholders.Render(ps)) && Placeholders.PlainTemplate(ps)
    requires t.placeholders != []
    requires forall k :: 0 <= k < |t.placeholders| ==> Placeholders.IsName(t.placeholders[k])
    requires m.flags.formattedPlaceholders && !m.flags.autoColour
    ensures Resolve(env, m, t, Some(l), fuel) ==
      Success(Outcome(Some(l), Str(Placeholders.Render(ps)),
                      Str(Placeholders.Render(Placeholders.Partial(ps, t.placeholders, |t.placeholders|)))))
  {
    var s := Placeholders.Render(ps);
    Placeholders.RenderNoDollar(ps);
    StagesKeepPlainText(env, m, t, l, [s], fuel);
    Placeholders.PlainIsBraceFree(ps);
    Placeholders.FormatTemplate(ps, t.placeholders);
  }

  /** Registration then lookup: a new message whose default-language text is
      a plain template, looked up in the default language, comes out with
      `%1$s`, `%2$s`, ... in place of its tags, numbered by the first
      appearance of each name. */
  lemma RegisteredMessageFormats(env: Env, m: Store.Manager, simpleKey: string, ps: seq<Placeholders.Piece>, fuel: nat)
    requires Store.KeysAgree(m)
    requires Placeholders.PlainTemplate(ps)
    requires Placeholders.TagNames(ps) != []
    requires m.flags.formattedPlaceholders && !m.flags.autoColour
    ensures var t := Store.SetDefault(Store.NewTranslation(simpleKey, STRING, true), m.defaultLanguage,
                                      m.defaultLanguage, Str(Placeholders.Render(ps)));
            var tags := Placeholders.TagNames(ps);
            Resolve(env, m, t, Some(m.defaultLanguage), fuel) ==
              Success(Outcome(Some(m.defaultLanguage), Str(Placeholders.Render(ps)),
                              Str(Placeholders.Render(Placeholders.Partial(ps, tags, |tags|)))))
  {
    var s := Placeholders.Render(ps);
    var t0 := Store.NewTranslation(simpleKey, STRING, true);
    var t := Store.SetDefault(t0, m.defaultLanguage, m.defaultLanguage, Str(s));
    Placeholders.FindPlaceholdersOfTemplate(ps);
    assert Placeholders.CheckPlaceholders([], s) == [] + Placeholders.FindPlaceholders(s);
    assert t.placeholders == Placeholders.TagNames(ps);
    Placeholders.PlainIsBraceFree(ps);
    Placeholders.TagNamesAreNames(ps);
    FormattedLookup(env, m, t, m.defaultLanguage, ps, fuel);
  }

  // ----- References to other messages -----

  /** On a message built from text and `$T{name}` references, the stage
      replaces exactly the references it does not skip by their lookups and
      keeps the rest of the text; the first failing lookup is the stage's
      failure. */
  lemma ExpandTemplate(env: Env, m: Store.Manager, t: Store.Translation, l: Language,
                       ps: seq<References.Part>, fuel: nat)
    requires Store.KeysAgree(m) && References.PlainParts(ps)
    ensures var s := References.RenderParts(References.TranslationOpen, ps);
            var c := TranslationChoices(env, m, t, l, References.PartRefs(References.TranslationOpen, ps, 0), fuel);
            (c.Success? ==>
               (|c.value| == References.CountRefs(ps) &&
                ExpandTranslations(env, m, t, l, s, fuel) ==
                Success(References.RenderParts(References.TranslationOpen, References.Substitute(ps, c.value))))) &&
            (c.Failure? ==> ExpandTranslations(env, m, t, l, s, fuel) == Failure(c.error))
  {
    var open := References.TranslationOpen;
    var s := References.RenderParts(open, ps);
    References.RefsOfRender(s, open, 0, ps);
    var refs := References.PartRefs(open, ps, 0);
    References.PartRefsOrdered(open, ps, 0, |s|);
    var c := TranslationChoices(env, m, t, l, refs, fuel);
    if c.Success? {
      References.FillRender(s, open, 0, ps, c.value);
      if !Contains(s, open) {
        References.NoOpenerNoRefs(s, open);
      }
    } else if !Contains(s, open) {
      References.NoOpenerNoRefs(s, open);
    }
  }

  /** One level of a reference: a STRING message whose value in `l` is
      `$T{y}`, for another message `y`, fails as the lookup of `y` with one
      unit less fuel fails, and overflows when no fuel is left. */
  lemma {:induction false} ReferenceStep(env: Env, m: Store.Manager, x: string, y: string, l: Language, fuel: nat)
    requires Store.KeysAgree(m) && x in m.translations && y in m.translations
    requires Lower(y) == y && !EqualsIgnoreCase(y, x)
    requires '}' !in y && forall k :: 0 <= k < |y| ==> !StringUtils.IsLineTerminator(y[k])
    requires m.translations[x].kind == STRING && l in m.translations[x].values
    requires m.translations[x].values[l] == Str(References.TranslationOpen + y + "}")
    requires m.translations[y].kind == STRING && m.translations[y].modifiable
    requires fuel > 0 ==> Resolve(env, m, m.translations[y], Some(l), fuel - 1).Failure?
    ensures Resolve(env, m, m.translations[x], Some(l), fuel).Failure?
    ensures fuel == 0 ==> Resolve(env, m, m.translations[x], Some(l), fuel) == Failure(StackOverflow)
    ensures fuel > 0 ==> Resolve(env, m, m.translations[x], Some(l), fuel) ==
                         Failure(Resolve(env, m, m.translations[y], Some(l), fuel - 1).error)
  {
    var open := References.TranslationOpen;
    var tx := m.translations[x];
    var s := open + y + "}";
    SingleReference(y);
    var refs := References.Refs(s, open, 0);
    assert tx.key == x;
    assert !Skipped(m, tx, y);
    var step := Referenced(env, m, y, l, fuel);
    assert step.Failure?;
    assert TranslationChoices(env, m, tx, l, refs, fuel) == Failure(step.error);
    assert ExpandTranslations(env, m, tx, l, s, fuel) == Failure(step.error);
    assert TranslationStage(env, m, tx, l, [s], fuel) == Failure(step.error);
    assert Task(env, m, tx, Some(l), fuel) == Success((Some(l), Str(s)));
  }

  /** `$T{y}` holds one translation reference, to `y`, spanning the text. */
  lemma SingleReference(y: string)
    requires '}' !in y && forall k :: 0 <= k < |y| ==> !StringUtils.IsLineTerminator(y[k])
    ensures var s := References.TranslationOpen + y + "}";
      Contains(s, References.TranslationOpen) &&
      References.Refs(s, References.TranslationOpen, 0) == [References.Ref(0, |s|, y)]
  {
    var open := References.TranslationOpen;
    var s := open + y + "}";
    var ps := [References.Reference(y)];
    assert References.RenderParts(open, ps[1..]) == "";
    assert References.RenderParts(open, ps) == s;
    assert References.PlainParts(ps);
    References.RefsOfRender(s, open, 0, ps);
    assert s[..|open|] == open;
    IndexOfWitness(s, open, 0);
  }

  /** The literal facts the cycle below relies on. */
  lemma CycleLiterals()
    ensures Lower("a") == "a" && Lower("b") == "b"
    ensures !EqualsIgnoreCase("a", "b") && !EqualsIgnoreCase("b", "a")
    ensures References.TranslationOpen + "b" + "}" == "$T{b}"
    ensures References.TranslationOpen + "a" + "}" == "$T{a}"
    ensures '}' !in "a" && '}' !in "b"
    ensures forall k :: 0 <= k < |"a"| ==> !StringUtils.IsLineTerminator("a"[k])
    ensures forall k :: 0 <= k < |"b"| ==> !StringUtils.IsLineTerminator("b"[k])
  {
    assert Lower("a") == "a" && Lower("b") == "b";
  }

  /** Two messages that refer to each other, `a` holding `$T{b}` and `b`
      holding `$T{a}`: the source recurses without end; here every amount
      of fuel runs out. */
  lemma {:induction false} ReferenceCycleOverflows(env: Env, m: Store.Manager, l: Language, fuel: nat)
    requires Store.KeysAgree(m) && "a" in m.translations && "b" in m.translations
    requires m.translations["a"].kind == STRING && m.translations["a"].modifiable
    requires m.translations["b"].kind == STRING && m.translations["b"].modifiable
    requires l in m.translations["a"].values && m.translations["a"].values[l] == Str("$T{b}")
    requires l in m.translations["b"].values && m.translations["b"].values[l] == Str("$T{a}")
    ensures Resolve(env, m, m.translations["a"], Some(l), fuel) == Failure(StackOverflow)
    ensures Resolve(env, m, m.translations["b"], Some(l), fuel) == Failure(StackOverflow)
    decreases fuel
  {
    CycleLiterals();
    if fuel > 0 {
      ReferenceCycleOverflows(env, m, l, fuel - 1);
    }
    ReferenceStep(env, m, "a", "b", l, fuel);
    ReferenceStep(env, m, "b", "a", l, fuel);
  }
}
