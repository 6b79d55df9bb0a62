/** The language catalogue: registration with unique, case-insensitive locale
    codes, lookup, the memoised similarity lists and the per-language file
    path and console name. */
module Languages {
  import opened Wrappers
  import opened Text
  import Countries

  /** A registered language. `codes` are the locale-code aliases as given;
      `gameFile` is the lower-cased code that has a game translation file, if
      any; `hasLanguageId` stands for the catalogue annotation, which the
      reflective check can see only if it is retained at run time. */
  datatype Language = Language(
    codes: seq<string>,
    name: string,
    englishName: string,
    country: Option<Countries.Country>,
    additional: seq<Countries.Country>,
    hasLanguageId: bool,
    gameFile: Option<string>)

  /** The catalogue: `all` in registration order (only languages that were
      added to the list), `byCode` keyed by lower-cased code, and the
      similarity lists computed so far. */
  datatype Registry = Registry(
    all: seq<Language>,
    byCode: map<string, Language>,
    similar: map<Language, seq<Language>>)

  datatype LanguageError =
    | DuplicateCode(code: string)
    | NoLocaleCode
    | MissingCountrySegment(code: string)

  /** How the constructor is told the country: the overloads with a country
      parameter take it as given (possibly none); the ones without derive it
      from the first code. */
  datatype CountryArg = Given(c: Option<Countries.Country>) | Derive

  /** The registry after a constructor call, and the constructed language or
      the exception it threw. A failure while deriving the country happens
      after the codes have been put in the map, so that registry is kept. */
  datatype Registration = Registration(registry: Registry, outcome: Result<Language, LanguageError>)

  /** `getLocaleCode`: the first of the language's codes. */
  function LocaleCode(l: Language): (r: string)
    requires l.codes != []
    ensures r in l.codes && r == l.codes[0]
  {
    l.codes[0]
  }

  /** `getConsoleName`: the English name followed by the lower-cased locale
      code in square brackets. */
  function ConsoleName(l: Language): (r: string)
    requires l.codes != []
    ensures |r| == |l.englishName| + |LocaleCode(l)| + 3
    ensures StartsWith(r, l.englishName + " [")
    ensures r[|l.englishName| + 2..|r| - 1] == Lower(LocaleCode(l))
    ensures r[|r| - 1] == ']'
  {
    var code := Lower(LocaleCode(l));
    var r := l.englishName + " [" + code + "]";
    assert |r| == |l.englishName| + 2 + |code| + 1;
    assert r[|l.englishName| + 2..|r| - 1] == code;
    r
  }

  /** `isRegistered` and `grabLanguage`: lookup of the lower-cased code. */
  function GrabLanguage(reg: Registry, code: string): (r: Option<Language>)
    ensures r.Some? <==> Lower(code) in reg.byCode
    ensures r.Some? ==> r.value == reg.byCode[Lower(code)]
  {
    if Lower(code) in reg.byCode then Some(reg.byCode[Lower(code)]) else None
  }

  /** Lookup ignores case: codes equal up to case find the same language. */
  lemma {:induction false} GrabIgnoresCase(reg: Registry, a: string, b: string)
    requires EqualsIgnoreCase(a, b)
    ensures GrabLanguage(reg, a) == GrabLanguage(reg, b)
  {
  }

  predicate AllFresh(reg: Registry, codes: seq<string>) {
    forall i :: 0 <= i < |codes| ==> Lower(codes[i]) !in reg.byCode
  }

  /** The first code whose lower-cased form is already registered. */
  function FirstTaken(reg: Registry, codes: seq<string>): (r: Option<string>)
    ensures r.None? <==> AllFresh(reg, codes)
    ensures r.Some? ==> r.value in codes && Lower(r.value) in reg.byCode
  {
    if codes == [] then None
    else if Lower(codes[0]) in reg.byCode then Some(codes[0])
    else
      var r := FirstTaken(reg, codes[1..]);
      assert AllFresh(reg, codes[1..]) && Lower(codes[0]) !in reg.byCode ==> AllFresh(reg, codes) by {
        if AllFresh(reg, codes[1..]) && Lower(codes[0]) !in reg.byCode {
          forall i | 0 <= i < |codes| ensures Lower(codes[i]) !in reg.byCode {
            if i > 0 { assert codes[i] == codes[1..][i - 1]; }
          }
        }
      }
      r
  }

  /** The map after putting `l` under every lower-cased code of `codes`. */
  function PutAll(m: map<string, Language>, codes: seq<string>, l: Language): (r: map<string, Language>)
    ensures forall c :: c in codes ==> Lower(c) in r && r[Lower(c)] == l
    ensures forall k :: k in r ==> k in m || exists c :: c in codes && Lower(c) == k
    ensures forall k :: k in m && (forall c :: c in codes ==> Lower(c) != k) ==> k in r && r[k] == m[k]
    decreases |codes|
  {
    if codes == [] then m
    else
      var r := PutAll(m[Lower(codes[0]) := l], codes[1..], l);
      forall c | c in codes ensures Lower(c) in r && r[Lower(c)] == l {
        if c !in codes[1..] {
          assert c == codes[0];
          if exists c' :: c' in codes[1..] && Lower(c') == Lower(c) {
            var c' :| c' in codes[1..] && Lower(c') == Lower(c);
            assert r[Lower(c')] == l;
          }
        }
      }
      forall k | k in r ensures k in m || exists c :: c in codes && Lower(c) == k {
        if k !in m && k == Lower(codes[0]) {
          assert codes[0] in codes;
        } else if k !in m {
          var c :| c in codes[1..] && Lower(c) == k;
          assert c in codes;
        }
      }
      forall k | k in m && (forall c :: c in codes ==> Lower(c) != k) ensures k in r && r[k] == m[k] {
        assert codes[0] in codes;
        assert forall c :: c in codes[1..] ==> c in codes;
      }
      r
  }

  /** The last lower-cased code that has a game translation file. */
  function GameFile(codes: seq<string>, resources: set<string>): (r: Option<string>)
    ensures r.Some? ==> exists i :: 0 <= i < |codes| && Lower(codes[i]) == r.value && IsLastWithFile(codes, resources, i)
    ensures r.None? ==> forall c :: c in codes ==> Lower(c) !in resources
  {
    if codes == [] then None
    else if Lower(codes[|codes| - 1]) in resources then Some(Lower(codes[|codes| - 1]))
    else
      var front := codes[..|codes| - 1];
      var r := GameFile(front, resources);
      assert forall c :: c in codes ==> c in front || c == codes[|codes| - 1];
      if r.Some? then
        var i :| 0 <= i < |front| && Lower(front[i]) == r.value && IsLastWithFile(front, resources, i);
        assert codes[i] == front[i];
        assert IsLastWithFile(codes, resources, i);
        r
      else r
  }

  /** Code `i` has a file and no later code has one. */
  predicate IsLastWithFile(codes: seq<string>, resources: set<string>, i: int)
    requires 0 <= i < |codes|
  {
    Lower(codes[i]) in resources && forall j :: i < j < |codes| ==> Lower(codes[j]) !in resources
  }

  /** The country segment of a code: `split("_")[1]`, which exists when
      something other than `_` follows the first `_` (trailing empty
      pieces are dropped), and is the text up to the next `_`. */
  function CountrySegment(code: string): (r: Option<string>)
    ensures '_' !in code ==> r.None?
    ensures '_' in code ==> (r.None? <==> !NotOnly(After(code, '_'), '_'))
    ensures r.Some? ==> r.value == Before(After(code, '_'), '_')
  {
    var parts := Split(code, '_');
    if '_' in code then
      SplitSecond(code, '_');
      if |parts| >= 2 then Some(parts[1]) else None
    else None
  }

  /** `es_ES` names Spain; `en_` has no segment, so its constructor throws. */
  lemma CountrySegmentExamples()
    ensures CountrySegment("es_ES") == Some("ES")
    ensures CountrySegment("en_") == None
  {
    assert "es_ES"[0] == 'e' && "es_ES"[1..] == "s_ES";
    assert "s_ES"[0] == 's' && "s_ES"[1..] == "_ES";
    assert "_ES"[0] == '_' && "_ES"[1..] == "ES";
    assert After("es_ES", '_') == "ES";
    assert "ES"[0] == 'E' && "ES"[1..] == "S" && "S"[1..] == [];
    assert Before("ES", '_') == "ES";
    assert "en_"[0] == 'e' && "en_"[1..] == "n_";
    assert "n_"[0] == 'n' && "n_"[1..] == "_";
    assert After("en_", '_') == [];
  }

  /** The language constructor: every code must be new (compared
      lower-cased), then the language is put under all its codes; it joins
      the listed languages unless it carries a language ID and has no game
      file. A country is derived afterwards from the segment after the
      first `_` of the first code, for the overloads that take none. */
  function Register(reg: Registry, codes: seq<string>, name: string, englishName: string,
                    country: CountryArg, additional: seq<Countries.Country>, hasLanguageId: bool,
                    resources: set<string>, countries: Countries.Registry): (r: Registration)
    ensures !AllFresh(reg, codes) ==> r.registry == reg && r.outcome.Failure? && r.outcome.error.DuplicateCode?
    ensures codes == [] ==> r.registry == reg && r.outcome == Failure(NoLocaleCode)
    ensures r.outcome.Success? ==>
      && AllFresh(reg, codes) && r.outcome.value.codes == codes
      && (forall c :: c in codes ==> GrabLanguage(r.registry, c) == Some(r.outcome.value))
      && (!(hasLanguageId && r.outcome.value.gameFile.None?) ==> r.registry.all == reg.all + [r.outcome.value])
      && (hasLanguageId && r.outcome.value.gameFile.None? ==> r.registry.all == reg.all)
    ensures r.outcome.Success? <==>
      AllFresh(reg, codes) && codes != [] && !(country.Derive? && '_' in codes[0] && CountrySegment(codes[0]).None?)
    ensures r.outcome.Success? ==>
      var l := r.outcome.value;
      && l.name == name && l.englishName == englishName && l.additional == additional
      && l.hasLanguageId == hasLanguageId && l.gameFile == GameFile(codes, resources)
    ensures r.outcome.Success? && country.Given? ==> r.outcome.value.country == country.c
    ensures r.outcome.Success? && country.Derive? && '_' !in codes[0] ==> r.outcome.value.country == None
    ensures r.outcome.Success? && country.Derive? && '_' in codes[0] ==>
      && CountrySegment(codes[0]).Some?
      && r.outcome.value.country == Countries.GrabCountry(countries, CountrySegment(codes[0]).value)
    ensures AllFresh(reg, codes) && codes != [] && country.Derive? && '_' in codes[0] && CountrySegment(codes[0]).None? ==>
      && r.outcome == Failure(MissingCountrySegment(codes[0]))
      && forall c :: c in codes ==> GrabLanguage(r.registry, c).Some? && GrabLanguage(r.registry, c).value.codes == codes
  {
    match FirstTaken(reg, codes)
    case Some(c) => Registration(reg, Failure(DuplicateCode(c)))
    case None =>
      if codes == [] then Registration(reg, Failure(NoLocaleCode))
      else
        var base := Language(codes, name, englishName, if country.Given? then country.c else None,
                             additional, hasLanguageId, GameFile(codes, resources));
        var derived :=
          if country.Derive? && '_' in codes[0] then
            match CountrySegment(codes[0])
            case None => Failure(MissingCountrySegment(codes[0]))
            case Some(seg) => Success(base.(country := Countries.GrabCountry(countries, seg)))
          else Success(base);
        match derived
        case Failure(e) =>
          Registration(Listed(reg, codes, base), Failure(e))
        case Success(l) =>
          Registration(Listed(reg, codes, l), Success(l))
  }

  /** The registry holding `l` under its codes, and in the list unless it has
      a language ID and no game file. */
  function Listed(reg: Registry, codes: seq<string>, l: Language): Registry {
    var m := PutAll(reg.byCode, codes, l);
    if l.hasLanguageId && l.gameFile.None? then reg.(byCode := m) else reg.(byCode := m, all := reg.all + [l])
  }

  /** Registration never takes a code away from an earlier language: every
      code registered before still finds the language it found. */
  lemma RegisterKeepsEarlierCodes(reg: Registry, codes: seq<string>, name: string, englishName: string,
                                  country: CountryArg, additional: seq<Countries.Country>, hasLanguageId: bool,
                                  resources: set<string>, countries: Countries.Registry, old_code: string)
    requires GrabLanguage(reg, old_code).Some?
    ensures GrabLanguage(Register(reg, codes, name, englishName, country, additional, hasLanguageId, resources, countries).registry, old_code)
         == GrabLanguage(reg, old_code)
  {
    if AllFresh(reg, codes) {
      ListedKeeps(reg, codes, old_code);
    }
  }

  /** Listing a language under fresh codes keeps every earlier code. */
  lemma ListedKeeps(reg: Registry, codes: seq<string>, old_code: string)
    requires AllFresh(reg, codes) && GrabLanguage(reg, old_code).Some?
    ensures forall l :: GrabLanguage(Listed(reg, codes, l), old_code) == GrabLanguage(reg, old_code)
  {
    var k := Lower(old_code);
    forall c | c in codes ensures Lower(c) != k {
      var i :| 0 <= i < |codes| && codes[i] == c;
    }
  }

  /** A second language with an alias that differs only in case is refused. */
  lemma {:induction false} CaseVariantRejected(reg: Registry, codes: seq<string>, name: string, englishName: string,
                                               country: CountryArg, additional: seq<Countries.Country>, hasLanguageId: bool,
                                               resources: set<string>, countries: Countries.Registry, c: string)
    requires c in codes && GrabLanguage(reg, c).Some?
    ensures Register(reg, codes, name, englishName, country, additional, hasLanguageId, resources, countries).outcome.Failure?
  {
    var i :| 0 <= i < |codes| && codes[i] == c;
    assert !AllFresh(reg, codes);
  }

  /** `split("_")[0]` of a code; a code made only of underscores splits into
      nothing and the index throws. */
  function Prefix(code: string): (r: Option<string>)
    ensures '_' !in code ==> r == Some(code)
    ensures r.Some? ==> r.value == Before(code, '_')
    ensures r.None? <==> '_' in code && !NotOnly(code, '_')
  {
    var parts := Split(code, '_');
    SplitEmpty(code, '_');
    if |parts| > 0 then Some(parts[0]) else None
  }

  /** `r` is `s` with some entries left out and the others in their order. */
  predicate IsSubsequence(r: seq<Language>, s: seq<Language>) {
    r == [] || (s != [] && ((r[0] == s[0] && IsSubsequence(r[1..], s[1..])) || IsSubsequence(r, s[1..])))
  }

  /** The languages of `langs` whose code prefix equals `p`; fails as soon
      as a code has no prefix. */
  function SamePrefix(langs: seq<Language>, p: string): (r: Option<seq<Language>>)
    requires forall l :: l in langs ==> l.codes != []
    ensures r.Some? ==> forall x :: x in r.value <==> x in langs && Prefix(LocaleCode(x)) == Some(p)
    ensures r.Some? ==> |r.value| <= |langs|
    ensures r.None? <==> exists x :: x in langs && Prefix(LocaleCode(x)).None?
  {
    if langs == [] then Some([])
    else
      var x := langs[0];
      match Prefix(LocaleCode(x))
      case None => None
      case Some(px) =>
        var rest :- SamePrefix(langs[1..], p);
        assert forall y :: y in langs <==> y == x || y in langs[1..];
        Some(if px == p then [x] + rest else rest)
  }

  /** The list keeps the catalogue's order and every repeat of a kept
      language. */
  lemma {:induction false} SamePrefixKeepsOrder(langs: seq<Language>, p: string)
    requires forall l :: l in langs ==> l.codes != []
    requires SamePrefix(langs, p).Some?
    ensures IsSubsequence(SamePrefix(langs, p).value, langs)
    ensures forall x :: x in langs ==>
      multiset(SamePrefix(langs, p).value)[x] == if Prefix(LocaleCode(x)) == Some(p) then multiset(langs)[x] else 0
  {
    if langs != [] {
      var x := langs[0];
      var r := SamePrefix(langs, p).value;
      var rest := SamePrefix(langs[1..], p).value;
      SamePrefixKeepsOrder(langs[1..], p);
      assert langs == [x] + langs[1..];
      assert multiset(langs) == multiset{x} + multiset(langs[1..]);
      if Prefix(LocaleCode(x)) == Some(p) {
        assert r == [x] + rest;
        assert r[1..] == rest;
      } else {
        assert r == rest;
      }
    }
  }

  /** The code of each curated dialect cluster and its fixed list. */
  function Curated(code: string): Option<seq<string>> {
    if code == "ca_es" then Some(["val_ES", "es_ES"])
    else if code == "val_es" then Some(["ca_ES", "es_ES"])
    else if code in {"and_es", "eu_es", "gl_es"} then Some(["es_ES"])
    else None
  }

  /** The first curated cluster whose catalogue language is `l`. */
  function CuratedFor(reg: Registry, l: Language): Option<seq<string>> {
    if GrabLanguage(reg, "ca_ES") == Some(l) then Curated("ca_es")
    else if GrabLanguage(reg, "val_ES") == Some(l) then Curated("val_es")
    else if GrabLanguage(reg, "and_ES") == Some(l) then Curated("and_es")
    else if GrabLanguage(reg, "eu_ES") == Some(l) then Curated("eu_es")
    else if GrabLanguage(reg, "gl_ES") == Some(l) then Curated("gl_es")
    else None
  }

  function GrabAll(reg: Registry, codes: seq<string>): (r: Option<seq<Language>>)
    ensures r.Some? ==> |r.value| == |codes| && forall i :: 0 <= i < |codes| ==> GrabLanguage(reg, codes[i]) == Some(r.value[i])
    ensures r.None? ==> exists i :: 0 <= i < |codes| && GrabLanguage(reg, codes[i]).None?
  {
    if codes == [] then Some([])
    else
      var x :- GrabLanguage(reg, codes[0]);
      var rest :- GrabAll(reg, codes[1..]);
      Some([x] + rest)
  }

  /** `loadSimilarLanguages`: the curated list for the Catalan, Valencian,
      Andalusian, Basque and Galician languages, otherwise every listed
      language sharing the code prefix before the first `_`. */
  function LoadSimilar(reg: Registry, l: Language): (r: Option<seq<Language>>)
    requires l.codes != []
    requires forall x :: x in reg.all ==> x.codes != []
    ensures CuratedFor(reg, l).Some? ==> r == GrabAll(reg, CuratedFor(reg, l).value)
    ensures CuratedFor(reg, l).None? && r.Some? ==>
      forall x :: x in r.value <==> x in reg.all && Prefix(LocaleCode(x)) == Prefix(LocaleCode(l))
    ensures CuratedFor(reg, l).None? ==>
      (r.None? <==> Prefix(LocaleCode(l)).None? || exists x :: x in reg.all && Prefix(LocaleCode(x)).None?)
  {
    match CuratedFor(reg, l)
    case Some(codes) => GrabAll(reg, codes)
    case None =>
      var p :- Prefix(LocaleCode(l));
      SamePrefix(reg.all, p)
  }

  /** The uncurated similarity list is exactly the listed languages with the
      same prefix, so a listed language is similar to itself. */
  lemma SimilarIsSamePrefix(reg: Registry, l: Language, x: Language)
    requires l.codes != [] && forall y :: y in reg.all ==> y.codes != []
    requires CuratedFor(reg, l).None? && LoadSimilar(reg, l).Some?
    ensures x in LoadSimilar(reg, l).value <==> x in reg.all && Prefix(LocaleCode(x)) == Prefix(LocaleCode(l))
    ensures l in reg.all ==> l in LoadSimilar(reg, l).value
  {
  }

  /** Catalan gets Valencian then Spanish, whatever prefixes say. */
  lemma CatalanSimilar(reg: Registry, ca: Language, val: Language, es: Language)
    requires ca.codes != [] && forall y :: y in reg.all ==> y.codes != []
    requires GrabLanguage(reg, "ca_ES") == Some(ca)
    requires GrabLanguage(reg, "val_ES") == Some(val) && GrabLanguage(reg, "es_ES") == Some(es)
    ensures LoadSimilar(reg, ca) == Some([val, es])
  {
    assert CuratedFor(reg, ca) == Some(["val_ES", "es_ES"]);
    var tail: seq<string> := ["es_ES"];
    assert tail[0] == "es_ES" && tail[1..] == [];
    assert GrabLanguage(reg, tail[0]) == Some(es);
    assert GrabAll(reg, tail[1..]) == Some([]);
    assert GrabAll(reg, tail).Some? && GrabAll(reg, tail).value == [es];
    var both: seq<string> := ["val_ES", "es_ES"];
    assert both[0] == "val_ES" && both[1..] == tail;
    assert GrabLanguage(reg, both[0]) == Some(val);
    assert GrabAll(reg, both[1..]).Some? && GrabAll(reg, both[1..]).value == [es];
    assert GrabAll(reg, both).Some? && GrabAll(reg, both).value == [val, es];
  }

  predicate WellFormed(reg: Registry) {
    forall x :: x in reg.all ==> x.codes != []
  }

  /** `getSimilarLanguages`: the stored list when there is one, otherwise the
      freshly loaded list, which is then stored. */
  function GetSimilar(reg: Registry, l: Language): (r: Option<(Registry, seq<Language>)>)
    requires l.codes != [] && WellFormed(reg)
    ensures l in reg.similar ==> r == Some((reg, reg.similar[l]))
    ensures r.Some? ==> l in r.value.0.similar && r.value.0.similar[l] == r.value.1
    ensures r.Some? ==> r.value.0.all == reg.all && r.value.0.byCode == reg.byCode
  {
    if l in reg.similar then Some((reg, reg.similar[l]))
    else
      var s :- LoadSimilar(reg, l);
      Some((reg.(similar := reg.similar[l := s]), s))
  }

  /** The list is computed once: asking again returns the same list, even
      if languages were registered in between. */
  lemma SimilarIsMemoised(reg: Registry, l: Language, later: Registry)
    requires l.codes != [] && WellFormed(reg) && WellFormed(later)
    requires GetSimilar(reg, l).Some?
    requires later.similar == GetSimilar(reg, l).value.0.similar
    ensures GetSimilar(later, l) == Some((later, GetSimilar(reg, l).value.1))
  {
  }

  /** `addSimilarLanguage`: loads the list if needed, then appends `other`
      unless it is already there. */
  function AddSimilar(reg: Registry, l: Language, other: Language): (r: Option<Registry>)
    requires l.codes != [] && WellFormed(reg)
    ensures r.Some? <==> GetSimilar(reg, l).Some?
    ensures r.Some? ==>
      var before := GetSimilar(reg, l).value.1;
      && l in r.value.similar
      && var after := r.value.similar[l];
      && other in after
      && (other in before ==> after == before)
      && (other !in before ==> after == before + [other])
  {
    var (reg1, s) :- GetSimilar(reg, l);
    if other in s then Some(reg1)
    else Some(reg1.(similar := reg1.similar[l := s + [other]]))
  }

  /** Adding never creates a duplicate: a list without repeats keeps none. */
  lemma AddSimilarNoDuplicates(reg: Registry, l: Language, other: Language)
    requires l.codes != [] && WellFormed(reg)
    requires AddSimilar(reg, l, other).Some?
    requires var s := GetSimilar(reg, l).value.1; forall i, j :: 0 <= i < j < |s| ==> s[i] != s[j]
    ensures var s := AddSimilar(reg, l, other).value.similar[l]; forall i, j :: 0 <= i < j < |s| ==> s[i] != s[j]
  {
  }

  /** The plugin's default language file as a path and its parent folder. */
  datatype DefaultFile = DefaultFile(path: string, parent: string)

  /** `getTranslationsFilePath`: the plugin's own default file when the
      language is the plugin's default and such a file exists, otherwise
      `<data folder>/languages/<lower-cased code>.yml`. */
  function TranslationsFilePath(l: Language, defaultLanguage: Language, defaultFile: Option<DefaultFile>,
                                dataFolder: string): (r: string)
    requires l.codes != []
    ensures l == defaultLanguage && defaultFile.Some? ==> r == defaultFile.value.path
    ensures !(l == defaultLanguage && defaultFile.Some?) ==>
      |r| == |dataFolder| + 11 + |LocaleCode(l)| + 4 &&
      StartsWith(r, dataFolder + "/languages/") && EndsWith(r, ".yml") &&
      r[|dataFolder| + 11..|r| - 4] == Lower(LocaleCode(l))
  {
    if l == defaultLanguage && defaultFile.Some? then defaultFile.value.path
    else
      var folder := FolderPath(l, defaultLanguage, defaultFile, dataFolder);
      var code := Lower(LocaleCode(l));
      var r := folder + code + ".yml";
      assert folder == dataFolder + "/languages/" && |folder| == |dataFolder| + 11;
      assert r[|dataFolder| + 11..|r| - 4] == code;
      r
  }

  /** `getFolderPath`: the default file's parent for the default language
      with a file, otherwise the plugin's languages folder. */
  function FolderPath(l: Language, defaultLanguage: Language, defaultFile: Option<DefaultFile>,
                      dataFolder: string): string
  {
    if l == defaultLanguage && defaultFile.Some? then defaultFile.value.parent
    else dataFolder + "/languages/"
  }
}
