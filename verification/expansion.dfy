/** The placeholder expansion other plugins call with identifiers such as
    `translation_myplugin_welcome[es_es]` or `minecraft_block.minecraft.stone`:
    parsing the identifier, then answering it from the hooked plugins'
    translations, the game's texts or the player's language. */
module Expansion {
  import opened Wrappers
  import opened Text
  import opened Values
  import StringUtils
  import Languages
  import Store
  import Minecraft
  import Resolution

  type Language = Languages.Language

  const TranslationPrefix: string := "translation_"
  const GamePrefix: string := "minecraft_"
  const LanguagePrefix: string := "language_"
  const TranslationUsageText: string := "Error: Usage %languagesapi_translation_plugin_code[locale]%"
  const GameUsageText: string := "Error: Usage %languagesapi_minecraft_key[locale]%"

  datatype Detail = Code | Name | EnglishName

  /** What an identifier asks for. `LanguageDetail(None)` is a `language_`
      identifier with no recognised ending. */
  datatype Request =
    | Author
    | Version
    | LanguageDetail(detail: Option<Detail>)
    | TranslationUsage
    | TranslationOf(plugin: string, code: string)
    | GameUsage
    | GameOf(code: string)
    | Unknown

  /** The identifier's dispatch: it is lower-cased first; `translation_`
      identifiers split at the first `_` after the prefix into the plugin's
      name and the message code. */
  function Parse(identifier: string): (r: Request)
    ensures r.TranslationOf? ==> '_' !in r.plugin
  {
    Dispatch(Lower(identifier))
  }

  /** The dispatch on the already lower-cased identifier `id`. */
  function Dispatch(id: string): (r: Request)
    ensures r.TranslationOf? ==> '_' !in r.plugin
  {
    if id == "author" then Author
    else if id == "version" then Version
    else if StartsWith(id, LanguagePrefix) then
      LanguageDetail(
        if EndsWith(id, "_code") then Some(Code)
        else if EndsWith(id, "_name") then Some(Name)
        else if EndsWith(id, "_englishName") then Some(EnglishName)
        else None)
    else if StartsWith(id, TranslationPrefix) then
      var messageId := ReplaceFirst(id, TranslationPrefix, "");
      if '_' !in messageId then TranslationUsage
      else TranslationOf(Before(messageId, '_'), After(messageId, '_'))
    else if StartsWith(id, GamePrefix) then
      var messageId := ReplaceFirst(id, GamePrefix, "");
      if messageId == [] then GameUsage else GameOf(messageId)
    else Unknown
  }

  /** The first match of the pattern `[\[](.*?)]` at or after `p`: where its
      `[` and its closing `]` are. */
  function Bracket(s: string, p: nat): (r: Option<(nat, nat)>)
    decreases |s| - p
    ensures r.Some? ==> p <= r.value.0 < r.value.1 < |s| && s[r.value.0] == '[' && s[r.value.1] == ']'
    ensures r.Some? ==> forall k :: p <= k < r.value.0 ==>
      s[k] != '[' || StringUtils.LazyClose(s, ']', k + 1).None?
  {
    if p >= |s| then None
    else if s[p] == '[' && StringUtils.LazyClose(s, ']', p + 1).Some? then
      Some((p, StringUtils.LazyClose(s, ']', p + 1).value))
    else Bracket(s, p + 1)
  }

  /** The `[locale]` suffix: when the first bracketed text names a
      registered language, that language answers and every `[locale]` is
      removed from the code (the removal pattern is taken literally, as no
      registered code holds a regex metacharacter); otherwise nothing
      changes. */
  function LocaleOverride(reg: Languages.Registry, l: Language, code: string): (r: (Language, string))
    ensures Bracket(code, 0).None? ==> r == (l, code)
    ensures r.0 != l ==> Bracket(code, 0).Some?
  {
    match Bracket(code, 0)
    case None => (l, code)
    case Some((i, j)) =>
      var key := code[i + 1..j];
      match Languages.GrabLanguage(reg, key)
      case None => (l, code)
      case Some(x) => (x, ReplaceAll(code, "[" + key + "]", ""))
  }

  /** The plugin's author and version, the language catalogue, the hooked
      plugins and what a translation lookup reads. */
  datatype Env = Env(
    author: string,
    version: string,
    registry: Languages.Registry,
    hooks: Store.Hooks,
    lookup: Resolution.Env)

  /** Every hooked manager stores its translations under their own keys. */
  predicate WellFormed(env: Env) {
    forall k :: k in env.hooks ==> Store.KeysAgree(env.hooks[k])
  }

  datatype ExpansionError =
    /** `getLanguage` refusing a missing player. */
    | NullPlayer
    /** `getTranslation(code, STRING)` refusing: an unmodifiable message or a LIST. */
    | Refused(key: string, refusal: Store.StoreError)
    /** The message's lookup failing. */
    | LookupFailed(cause: Resolution.ResolveError)
    /** The game text's key cannot be built (an empty code). */
    | GameKeyFailed(code: string, keyError: Minecraft.KeyError)

  /** The answer to a parsed request for a player whose language is
      `player` (none without a player). `Success(None)` is a `null` answer. */
  function Answer(env: Env, player: Option<Language>, req: Request, fuel: nat): (r: Result<Option<string>, ExpansionError>)
    requires WellFormed(env)
    requires player.Some? ==> player.value.codes != []
    ensures req.Author? ==> r == Success(Some(env.author))
    ensures req.Version? ==> r == Success(Some(env.version))
    ensures req.LanguageDetail? && player.None? ==> r == Failure(NullPlayer)
    ensures req.LanguageDetail? && player.Some? && req.detail == Some(Code) ==>
      r == Success(Some(Languages.LocaleCode(player.value)))
    ensures req.LanguageDetail? && player.Some? && req.detail == Some(Name) ==> r == Success(Some(player.value.name))
    ensures req.LanguageDetail? && player.Some? && req.detail == Some(EnglishName) ==>
      r == Success(Some(player.value.englishName))
    ensures req.LanguageDetail? && player.Some? && req.detail.None? ==> r == Success(None)
    ensures req.TranslationUsage? ==> r == Success(Some(TranslationUsageText))
    ensures req.TranslationOf? && Lower(req.plugin) !in env.hooks ==>
      r == Success(Some("Error: " + req.plugin + " is not using LanguagesAPI"))
    ensures req.TranslationOf? && Lower(req.plugin) in env.hooks ==>
      var o := LocaleOverride(env.registry, player.GetOr(env.lookup.server), req.code);
      r == MessageText(env, env.hooks[Lower(req.plugin)], o.1, o.0, fuel)
    ensures req.GameUsage? ==> r == Success(Some(GameUsageText))
    ensures req.GameOf? ==>
      var o := LocaleOverride(env.registry, player.GetOr(env.lookup.server), req.code);
      var t := Minecraft.CustomTranslation(env.lookup.game, Some(o.0), o.1);
      && (t.Success? ==> r == Success(Some(t.value)))
      && (t.Failure? ==> r == Failure(GameKeyFailed(o.1, t.error)))
    ensures req.Unknown? ==> r == Success(None)
  {
    match req
    case Author => Success(Some(env.author))
    case Version => Success(Some(env.version))
    case LanguageDetail(d) =>
      if player.None? then Failure(NullPlayer)
      else
        var l := player.value;
        (match d
         case None => Success(None)
         case Some(Code) => Success(Some(Languages.LocaleCode(l)))
         case Some(Name) => Success(Some(l.name))
         case Some(EnglishName) => Success(Some(l.englishName)))
    case TranslationUsage => Success(Some(TranslationUsageText))
    case TranslationOf(plugin, given) =>
      if Lower(plugin) !in env.hooks then Success(Some("Error: " + plugin + " is not using LanguagesAPI"))
      else
        var m := env.hooks[Lower(plugin)];
        var (language, code) := LocaleOverride(env.registry, player.GetOr(env.lookup.server), given);
        MessageText(env, m, code, language, fuel)
    case GameUsage => Success(Some(GameUsageText))
    case GameOf(given) =>
      var (language, code) := LocaleOverride(env.registry, player.GetOr(env.lookup.server), given);
      (match Minecraft.CustomTranslation(env.lookup.game, Some(language), code)
       case Failure(e) => Failure(GameKeyFailed(code, e))
       case Success(s) => Success(Some(s)))
    case Unknown => Success(None)
  }

  /** A message the placeholder can answer with its text. */
  predicate Answerable(t: Store.Translation) {
    t.kind == STRING && t.modifiable
  }

  /** A message's text in a language: an error text for a code the plugin
      does not have, else `getTranslationString`, the STRING message's full
      lookup. */
  function MessageText(env: Env, m: Store.Manager, code: string, l: Language, fuel: nat)
    : (r: Result<Option<string>, ExpansionError>)
    requires Store.KeysAgree(m)
    ensures !Store.HasTranslation(m, code) ==>
      r == Success(Some("Error: " + code + " translation doesn't exists"))
    ensures Store.HasTranslation(m, code) && Store.GrabTranslationType(m, code) == Some(LIST) ==> r.Failure?
    ensures Store.HasTranslation(m, code) && !m.translations[Lower(code)].modifiable ==>
      r == Failure(Refused(Lower(code), Store.UnmodifiableTranslation(Lower(code))))
    ensures Store.HasTranslation(m, code) && Answerable(m.translations[Lower(code)]) ==>
      var o := Resolution.Resolve(env.lookup, m, m.translations[Lower(code)], Some(l), fuel);
      r == (if o.Success? then Success(Some(o.value.final.s)) else Failure(LookupFailed(o.error)))
  {
    if !Store.HasTranslation(m, code) then Success(Some("Error: " + code + " translation doesn't exists"))
    else match Store.GetTranslation(m, code, STRING)
      case Failure(e) => Failure(Refused(Lower(code), e))
      case Success((_, t)) =>
        match Resolution.Resolve(env.lookup, m, t, Some(l), fuel)
        case Failure(e) => Failure(LookupFailed(e))
        case Success(o) => Success(Some(o.final.s))
  }

  /** `onPlaceholderRequest(player, identifier)`. */
  function OnPlaceholderRequest(env: Env, player: Option<Language>, identifier: string, fuel: nat)
    : (r: Result<Option<string>, ExpansionError>)
    requires WellFormed(env)
    requires player.Some? ==> player.value.codes != []
    ensures Lower(identifier) == "author" ==> r == Success(Some(env.author))
    ensures Lower(identifier) == "version" ==> r == Success(Some(env.version))
    ensures StartsWith(Lower(identifier), LanguagePrefix) && player.None? ==> r == Failure(NullPlayer)
  {
    Answer(env, player, Parse(identifier), fuel)
  }

  /** The two-player overload answers for the first player; the second is
      never consulted. */
  function OnRelationalRequest(env: Env, one: Option<Language>, two: Option<Language>, identifier: string, fuel: nat)
    : (r: Result<Option<string>, ExpansionError>)
    requires WellFormed(env)
    requires one.Some? ==> one.value.codes != []
  {
    OnPlaceholderRequest(env, one, identifier, fuel)
  }

  lemma RelationalIgnoresSecondPlayer(env: Env, one: Option<Language>, a: Option<Language>, b: Option<Language>,
                                      identifier: string, fuel: nat)
    requires WellFormed(env)
    requires one.Some? ==> one.value.codes != []
    ensures OnRelationalRequest(env, one, a, identifier, fuel) == OnRelationalRequest(env, one, b, identifier, fuel)
    ensures OnRelationalRequest(env, one, a, identifier, fuel) == OnPlaceholderRequest(env, one, identifier, fuel)
  {
  }

  // ----- The identifier grammar -----

  /** Case never matters: an identifier and its lower-cased form ask for
      the same thing. */
  lemma ParseIgnoresCase(identifier: string)
    ensures Parse(Lower(identifier)) == Parse(identifier)
  {
    LowerTwice(identifier);
  }

  /** The `_englishName` ending is tested on the lower-cased identifier, so
      it never matches: no identifier asks for the English name. */
  lemma EnglishNameNeverAnswered(identifier: string)
    ensures Parse(identifier) != LanguageDetail(Some(EnglishName))
  {
    var id := Lower(identifier);
    LowerIsLower(identifier);
    assert !EndsWith(id, "_englishName") by {
      if |"_englishName"| <= |id| {
        assert id[|id| - 12..][8] == id[|id| - 4];
        assert id[|id| - 4] != 'N';
      }
    }
  }

  /** Splitting at the first `_` recovers a part without `_` and the rest. */
  lemma {:induction false} SplitAtFirst(a: string, b: string, c: char)
    requires c !in a
    ensures Before(a + [c] + b, c) == a
    ensures After(a + [c] + b, c) == b
    decreases |a|
  {
    var s := a + [c] + b;
    if a == [] {
      assert s == [c] + b && s[1..] == b;
    } else {
      assert s[0] == a[0] && s[1..] == a[1..] + [c] + b;
      SplitAtFirst(a[1..], b, c);
    }
  }

  /** Dropping a prefix with `replaceFirst` leaves the rest. */
  lemma DropPrefix(p: string, rest: string)
    requires |p| > 0
    ensures ReplaceFirst(p + rest, p, "") == rest
  {
    var s := p + rest;
    assert OccursAt(s, p, 0) by { assert s[..|p|] == p; }
    IndexOfWitness(s, p, 0);
    assert s[|p|..] == rest;
  }

  lemma IsLowerConcat(a: string, b: string)
    requires IsLower(a) && IsLower(b)
    ensures IsLower(a + b)
  {
    assert forall i :: 0 <= i < |a + b| ==> (a + b)[i] == (if i < |a| then a[i] else b[i - |a|]);
  }

  /** A lower-case identifier that starts with `translation_` is not one
      of the earlier cases. */
  lemma TranslationPrefixDispatch(rest: string)
    ensures var id := TranslationPrefix + rest;
      id != "author" && id != "version" && !StartsWith(id, LanguagePrefix) && StartsWith(id, TranslationPrefix)
  {
    var id := TranslationPrefix + rest;
    assert id[0] == 't';
    assert id[..|TranslationPrefix|] == TranslationPrefix;
  }

  lemma GamePrefixDispatch(rest: string)
    ensures var id := GamePrefix + rest;
      && id != "author" && id != "version" && !StartsWith(id, LanguagePrefix)
      && !StartsWith(id, TranslationPrefix) && StartsWith(id, GamePrefix)
  {
    var id := GamePrefix + rest;
    assert id[0] == 'm';
    assert id[..|GamePrefix|] == GamePrefix;
  }

  /** Writing a plugin's name and a code into a `translation_` identifier
      and parsing it gives them back; the code may itself contain `_`. */
  lemma TranslationIdentifierRoundTrip(plugin: string, code: string)
    requires IsLower(plugin) && IsLower(code) && '_' !in plugin
    ensures Parse(TranslationPrefix + plugin + "_" + code) == TranslationOf(plugin, code)
  {
    var rest := plugin + "_" + code;
    var id := TranslationPrefix + rest;
    assert id == TranslationPrefix + plugin + "_" + code;
    IsLowerConcat(plugin, "_");
    IsLowerConcat(plugin + "_", code);
    IsLowerConcat(TranslationPrefix, rest);
    LowerOfLower(id);
    TranslationPrefixDispatch(rest);
    DropPrefix(TranslationPrefix, rest);
    assert '_' in rest by { assert rest[|plugin|] == '_'; }
    SplitAtFirst(plugin, code, '_');
  }

  /** Without a second `_` a `translation_` identifier gets the usage text. */
  lemma TranslationWithoutSeparator(rest: string)
    requires IsLower(rest) && '_' !in rest
    ensures Parse(TranslationPrefix + rest) == TranslationUsage
  {
    IsLowerConcat(TranslationPrefix, rest);
    LowerOfLower(TranslationPrefix + rest);
    TranslationPrefixDispatch(rest);
    DropPrefix(TranslationPrefix, rest);
  }

  /** A `minecraft_` identifier asks for the game text of the rest, and
      gets the usage text when there is none. */
  lemma GameIdentifierRoundTrip(code: string)
    requires IsLower(code)
    ensures code != [] ==> Parse(GamePrefix + code) == GameOf(code)
    ensures code == [] ==> Parse(GamePrefix + code) == GameUsage
  {
    IsLowerConcat(GamePrefix, code);
    LowerOfLower(GamePrefix + code);
    GamePrefixDispatch(code);
    DropPrefix(GamePrefix, code);
  }

  // ----- The locale suffix -----

  /** The bracket of `key[locale]` is the suffix, when the key has no `[`
      and the locale no `]` and no line break. */
  lemma BracketOfSuffix(key: string, locale: string)
    requires '[' !in key && ']' !in locale
    requires forall k :: 0 <= k < |locale| ==> !StringUtils.IsLineTerminator(locale[k])
    ensures var s := key + "[" + locale + "]";
      Bracket(s, 0) == Some((|key|, |key| + 1 + |locale|)) && s[|key| + 1..|key| + 1 + |locale|] == locale
  {
    var s := key + "[" + locale + "]";
    assert forall k :: 0 <= k < |key| ==> s[k] == key[k];
    assert s[|key|] == '[';
    assert forall k :: 0 <= k < |locale| ==> s[|key| + 1 + k] == locale[k];
    assert s[|key| + 1 + |locale|] == ']';
    LazyCloseSkips(s, |key| + 1, |key| + 1 + |locale|);
    BracketSkips(s, 0, |key|);
    assert s[|key| + 1..|key| + 1 + |locale|] == locale;
  }

  lemma {:induction false} LazyCloseSkips(s: string, from: nat, j: nat)
    requires from <= j < |s| && s[j] == ']'
    requires forall k :: from <= k < j ==> s[k] != ']' && !StringUtils.IsLineTerminator(s[k])
    ensures StringUtils.LazyClose(s, ']', from) == Some(j)
    decreases j - from
  {
    if from < j {
      LazyCloseSkips(s, from + 1, j);
    }
  }

  lemma {:induction false} BracketSkips(s: string, p: nat, i: nat)
    requires p <= i <= |s|
    requires forall k :: p <= k < i ==> s[k] != '['
    ensures Bracket(s, p) == Bracket(s, i)
    decreases i - p
  {
    if p < i {
      BracketSkips(s, p + 1, i);
    }
  }

  /** A `[locale]` suffix naming a registered language selects it and is
      removed from the code. */
  lemma RecognisedLocaleOverrides(reg: Languages.Registry, l: Language, key: string, locale: string)
    requires '[' !in key && ']' !in locale
    requires forall k :: 0 <= k < |locale| ==> !StringUtils.IsLineTerminator(locale[k])
    requires Languages.GrabLanguage(reg, locale).Some?
    ensures LocaleOverride(reg, l, key + "[" + locale + "]") == (Languages.GrabLanguage(reg, locale).value, key)
  {
    BracketOfSuffix(key, locale);
    SuffixStripped(key, locale);
  }

  /** Removing every `[locale]` from `key[locale]` leaves `key` when `key`
      opens no bracket. */
  lemma SuffixStripped(key: string, locale: string)
    requires '[' !in key
    ensures ReplaceAll(key + "[" + locale + "]", "[" + locale + "]", "") == key
  {
    var target := "[" + locale + "]";
    assert key + "[" + locale + "]" == key + target;
    ReplaceAllSkips(key, target, target, "");
    ReplaceAllHit([], target, "");
    assert target + [] == target;
    assert ReplaceAll([], target, "") == [];
  }

  /** A `[locale]` suffix that names no registered language is left in the
      code, and the request's language stands. */
  lemma UnrecognisedLocaleKept(reg: Languages.Registry, l: Language, key: string, locale: string)
    requires '[' !in key && ']' !in locale
    requires forall k :: 0 <= k < |locale| ==> !StringUtils.IsLineTerminator(locale[k])
    requires Languages.GrabLanguage(reg, locale).None?
    ensures LocaleOverride(reg, l, key + "[" + locale + "]") == (l, key + "[" + locale + "]")
  {
    BracketOfSuffix(key, locale);
  }

  // ----- Whole requests -----

  /** `translation_<plugin>_<code>[<locale>]` for a hooked plugin's
      modifiable STRING message answers with that message's full lookup in
      the named language. */
  lemma TranslationRequest(env: Env, player: Option<Language>, plugin: string, code: string, locale: string, fuel: nat)
    requires WellFormed(env)
    requires player.Some? ==> player.value.codes != []
    requires IsLower(plugin) && '_' !in plugin && plugin in env.hooks
    requires IsLower(code) && '[' !in code
    requires IsLower(locale) && ']' !in locale
    requires forall k :: 0 <= k < |locale| ==> !StringUtils.IsLineTerminator(locale[k])
    requires Languages.GrabLanguage(env.registry, locale).Some?
    requires code in env.hooks[plugin].translations
    requires env.hooks[plugin].translations[code].kind == STRING && env.hooks[plugin].translations[code].modifiable
    ensures var m := env.hooks[plugin];
            var r := Resolution.Resolve(env.lookup, m, m.translations[code], Languages.GrabLanguage(env.registry, locale), fuel);
            (OnPlaceholderRequest(env, player, TranslationPrefix + plugin + "_" + code + "[" + locale + "]", fuel)
             == (if r.Success? then Success(Some(r.value.final.s)) else Failure(LookupFailed(r.error))))
  {
    var m := env.hooks[plugin];
    TranslationLocaleParses(plugin, code, locale);
    LowerOfLower(plugin);
    LowerOfLower(code);
    RecognisedLocaleOverrides(env.registry, player.GetOr(env.lookup.server), code, locale);
    assert Store.GetTranslation(m, code, STRING) == Success((m, m.translations[code]));
  }

  /** `translation_<plugin>_<code>` without a locale suffix answers with the
      message's full lookup in the player's language, or the server's when
      there is no player. */
  lemma TranslationRequestWithoutLocale(env: Env, player: Option<Language>, plugin: string, code: string, fuel: nat)
    requires WellFormed(env)
    requires player.Some? ==> player.value.codes != []
    requires IsLower(plugin) && '_' !in plugin && plugin in env.hooks
    requires IsLower(code) && '[' !in code
    requires code in env.hooks[plugin].translations && Answerable(env.hooks[plugin].translations[code])
    ensures var m := env.hooks[plugin];
            var r := Resolution.Resolve(env.lookup, m, m.translations[code], Some(player.GetOr(env.lookup.server)), fuel);
            (OnPlaceholderRequest(env, player, TranslationPrefix + plugin + "_" + code, fuel)
             == (if r.Success? then Success(Some(r.value.final.s)) else Failure(LookupFailed(r.error))))
  {
    TranslationIdentifierRoundTrip(plugin, code);
    LowerOfLower(plugin);
    LowerOfLower(code);
    BracketSkips(code, 0, |code|);
  }

  /** `minecraft_[<locale>]` names a language but leaves no code: building
      the game key throws. */
  lemma GameLocaleWithoutCode(env: Env, player: Option<Language>, locale: string, fuel: nat)
    requires WellFormed(env)
    requires player.Some? ==> player.value.codes != []
    requires IsLower(locale) && ']' !in locale
    requires forall k :: 0 <= k < |locale| ==> !StringUtils.IsLineTerminator(locale[k])
    requires Languages.GrabLanguage(env.registry, locale).Some?
    ensures OnPlaceholderRequest(env, player, GamePrefix + "[" + locale + "]", fuel).Failure?
  {
    GameLocaleParses(locale);
    LocaleTakenOut(env.registry, player.GetOr(env.lookup.server), locale);
    GameWithoutCode(env, player, "[" + locale + "]", fuel);
  }

  lemma TranslationLocaleParses(plugin: string, code: string, locale: string)
    requires IsLower(plugin) && '_' !in plugin && IsLower(code) && IsLower(locale)
    ensures Parse(TranslationPrefix + plugin + "_" + code + "[" + locale + "]")
         == TranslationOf(plugin, code + "[" + locale + "]")
  {
    var given := code + "[" + locale + "]";
    IsLowerConcat(code, "[");
    IsLowerConcat(code + "[", locale);
    IsLowerConcat(code + "[" + locale, "]");
    assert TranslationPrefix + plugin + "_" + code + "[" + locale + "]" == TranslationPrefix + plugin + "_" + given;
    TranslationIdentifierRoundTrip(plugin, given);
  }

  lemma GameLocaleParses(locale: string)
    requires IsLower(locale)
    ensures Parse(GamePrefix + "[" + locale + "]") == GameOf("[" + locale + "]")
  {
    var given := "[" + locale + "]";
    IsLowerConcat("[", locale);
    IsLowerConcat("[" + locale, "]");
    assert GamePrefix + "[" + locale + "]" == GamePrefix + given;
    GameIdentifierRoundTrip(given);
  }

  lemma LocaleTakenOut(reg: Languages.Registry, l: Language, locale: string)
    requires ']' !in locale
    requires forall k :: 0 <= k < |locale| ==> !StringUtils.IsLineTerminator(locale[k])
    requires Languages.GrabLanguage(reg, locale).Some?
    ensures LocaleOverride(reg, l, "[" + locale + "]").1 == []
  {
    RecognisedLocaleOverrides(reg, l, [], locale);
    assert [] + "[" + locale + "]" == "[" + locale + "]";
  }

  /** A game request whose code is empty once the locale is taken out
      fails to build its key. */
  lemma GameWithoutCode(env: Env, player: Option<Language>, given: string, fuel: nat)
    requires WellFormed(env)
    requires player.Some? ==> player.value.codes != []
    requires LocaleOverride(env.registry, player.GetOr(env.lookup.server), given).1 == []
    ensures Answer(env, player, GameOf(given), fuel).Failure?
  {
  }

}
