# LanguagesAPI in Dafny

A model of the core of LanguagesAPI, a Bukkit/Spigot library through which
plugins declare translatable messages and look them up in each player's
language. The model covers:

- the language and country catalogues: registration under locale codes,
  lookup that ignores case, and similar-language lists;
- translation values and their two types, STRING and LIST, with the JSON
  and text forms of each;
- the per-plugin translation store: creating and fetching translations,
  the unmodifiable variant, default values, and hooking and unhooking
  plugins;
- placeholder discovery (`{name}`) and placeholder formatting
  (`{name}` becomes `%i$s`);
- the lookup chain (`FindTask`): exact language, similar language, server
  language, the plugin's default language, then the key itself;
- the result pipeline: `$T{…}` references to other messages, `$MC{…}` game
  texts, colours and placeholder formatting (the reference splice is the
  corrected one; see "## Findings" and "## Left out");
- the game's own vocabulary: key patterns, fragment functions and a
  fallback chain over language files;
- player language detection at join;
- the display event's cause and previous language;
- the PlaceholderAPI expansion's identifier dispatch;
- the SQL text of the storage layer, and the upload and download of
  translations to the shared database table.

Languages, translations and managers are immutable datatypes. Each
operation that mutates a map or list in the source is a function that
returns the new state, with errors as a `Result`. Exceptions the source
throws become `Failure` values. Asynchronous tasks run to the end in one
step.

Modules, one per component of the library:

| module | component |
|---|---|
| `Wrappers` | `Option` and `Result` |
| `Text` | Java string operations: lower/upper case, `indexOf`, `replace`, `split`, integers as text, and `replaceFirst` with a literal target and the `Matcher` replacement syntax (`$0`, `\x`) |
| `StringUtils` | list joining, `getStringInside`, element-wise `replaceAll` |
| `Countries` | `Country` and its `Alpha2` registration map |
| `Languages` | `Language`: codes, registration, similar languages, file paths |
| `Values` | `Translation.Type` |
| `Store` | `Translation` state and the `PluginManager` store |
| `Placeholders` | placeholder scanning and formatting |
| `References` | `$T{…}` and `$MC{…}` matching and splicing |
| `Resolution` | `FindTask` and `Result` |
| `Minecraft` | `MinecraftTranslation` |
| `Detection` | `PlayerLoadLanguageTask` and `getLanguage(player)` |
| `DisplayEvent` | `PlayerLanguageDisplayEvent` |
| `Expansion` | the PlaceholderAPI expansion |
| `Database` | tables, columns and their SQL text |
| `Sync` | uploading and downloading translations |

## Model

| member | source | states |
|---|---|---|
| Countries.MakeAlpha2 | src/dev/sergiferry/languages/api/location/Country.java:207-208 | an `Alpha2` is built exactly when the code has two characters, and it keeps the code |
| Countries.Register | src/dev/sergiferry/languages/api/location/Country.java:180-193 | a country is registered iff its code has two characters; it is then found under that code, every other code keeps its country, and no other code is added |
| Countries.IsRegistered | src/dev/sergiferry/languages/api/location/Country.java:19-29 | a code is registered iff it has length two and is a key of the map |
| Countries.GrabCountry | src/dev/sergiferry/languages/api/location/Country.java:24-30 | the lookup gives nothing for a code whose length is not two, otherwise the country under that exact code |
| Countries.LastRegistrationWins | src/dev/sergiferry/languages/api/location/Country.java:184 | registering a code twice leaves the later country in place |
| Countries.LookupIsCaseSensitive | src/dev/sergiferry/languages/api/location/Country.java:207-210 | a country registered as `ES` is not found under `es`, although the record's own `equals` overload ignores case |
| Languages.ConsoleName | src/dev/sergiferry/languages/api/Language.java:269 | the console name is the English name, ` [`, the lower-cased locale code and `]`, with the length that implies |
| Languages.GrabLanguage | src/dev/sergiferry/languages/api/Language.java:33-34 | a code is found iff its lower-cased form is a key, and then gives that key's language |
| Languages.GrabIgnoresCase | src/dev/sergiferry/languages/api/Language.java:34 | codes equal up to case find the same language |
| Languages.FirstTaken | src/dev/sergiferry/languages/api/Language.java:207 | the first code whose lower-cased form is already registered; none iff every code is new |
| Languages.PutAll | src/dev/sergiferry/languages/api/Language.java:218-219 | after the loop every given code finds the language, and every other key keeps its language |
| Languages.GameFile | src/dev/sergiferry/languages/api/Language.java:218-223 | the game file is the lower-cased form of the last code whose lower-cased form is among the resources; none iff no code has one |
| Languages.LocaleCode | src/dev/sergiferry/languages/api/Language.java:259 | the locale code is the first of the language's codes |
| Languages.Register | src/dev/sergiferry/languages/api/Language.java:206-251 | refused, with the registry unchanged, when one of the codes is already taken up to case; on success every code finds the language, which keeps its names, additional countries and language ID, has the last code with a file as its game file, and is listed unless it has a language ID and no game file; a given country is kept; a derived one is none for a first code without `_` and otherwise the registered country under the segment after the first `_`; a first code such as `en_` with no segment throws after the codes were registered |
| Languages.CountrySegment | src/dev/sergiferry/languages/api/Language.java:241 | none for a code without `_`; with `_`, a segment exists iff something other than `_` follows the first `_`, and it is the text after the first `_` up to the next one |
| Languages.CountrySegmentExamples | src/dev/sergiferry/languages/api/Language.java:241 | `es_ES` gives `ES`; `en_` gives no segment |
| Languages.RegisterKeepsEarlierCodes | src/dev/sergiferry/languages/api/Language.java:207-219 | registration never takes a code from an earlier language |
| Languages.CaseVariantRejected | src/dev/sergiferry/languages/api/Language.java:207 | a second language with an alias that differs only in case is refused |
| Languages.Prefix | src/dev/sergiferry/languages/api/Language.java:341 | the text before the first `_`; a code without `_` is its own prefix; there is no prefix (the source's index throws) exactly when the code holds `_` and nothing else |
| Languages.SamePrefix | src/dev/sergiferry/languages/api/Language.java:341 | exactly the listed languages with that prefix; fails iff some listed language's code has no prefix |
| Languages.SamePrefixKeepsOrder | src/dev/sergiferry/languages/api/Language.java:341 | the list is a subsequence of the catalogue, and each kept language occurs as often as in the catalogue, each other one not at all |
| Languages.SimilarIsSamePrefix | src/dev/sergiferry/languages/api/Language.java:341 | outside the curated clusters, a language is similar iff it is listed and shares the code prefix; a listed language is similar to itself |
| Languages.CatalanSimilar | src/dev/sergiferry/languages/api/Language.java:336 | Catalan's similar list is Valencian then Spanish |
| Languages.LoadSimilar | src/dev/sergiferry/languages/api/Language.java:333-342 | the curated list for the five dialect languages; otherwise exactly the listed languages sharing the code prefix, and a failure iff the language's own code or a listed one has no prefix |
| Languages.GetSimilar | src/dev/sergiferry/languages/api/Language.java:327-331 | the stored list when there is one; otherwise the loaded list, which is then stored |
| Languages.SimilarIsMemoised | src/dev/sergiferry/languages/api/Language.java:328-331 | asking again gives the same list, even after more languages are registered |
| Languages.AddSimilar | src/dev/sergiferry/languages/api/Language.java:310-315 | the list afterwards contains the added language, keeps every earlier entry, and grows only when the language was absent |
| Languages.AddSimilarNoDuplicates | src/dev/sergiferry/languages/api/Language.java:313-314 | adding never creates a duplicate |
| Languages.TranslationsFilePath | src/dev/sergiferry/languages/api/Language.java:283-291 | the default file for the plugin's default language when one exists, otherwise `<folder>/languages/<lower-cased code>.yml` |
| Values.ToJson | src/dev/sergiferry/languages/api/Translation.java:69-100 | a string becomes a one-element array; a list becomes its elements in order |
| Values.FromJson | src/dev/sergiferry/languages/api/Translation.java:74-105 | the value read has the requested type; it fails iff a STRING is read from an empty array |
| Values.JsonRoundTrip | src/dev/sergiferry/languages/api/Translation.java:69-105 | reading a value's JSON back with its own type gives the value |
| Values.StringJsonKeepsFirst | src/dev/sergiferry/languages/api/Translation.java:74 | a STRING read from a longer array keeps only the first element, so the array side round-trips only for one element |
| Values.ToText | src/dev/sergiferry/languages/api/Translation.java:57-79 | a string prints as itself; a list prints as its elements joined by new lines |
| Values.FromText | src/dev/sergiferry/languages/api/Translation.java:58-80 | text read as a STRING is itself; read as a LIST it is a one-element list |
| Values.TextRoundTrip | src/dev/sergiferry/languages/api/Translation.java:57-80 | text read into either type prints back as the same text |
| Values.ListTextLosesStructure | src/dev/sergiferry/languages/api/Translation.java:79-80 | a list of several lines is not recovered from its text |
| Values.GrabTypeByName | src/dev/sergiferry/languages/api/Translation.java:50 | a name finds a type iff its upper-cased form is that type's name |
| Values.GrabTypeByOwnName | src/dev/sergiferry/languages/api/Translation.java:137-149 | every type is found under its own name, in any case |
| Store.NewTranslation | src/dev/sergiferry/languages/api/Translation.java:191-197 | a new translation has no values and no placeholders, and its key is lower-cased |
| Store.SetDefault | src/dev/sergiferry/languages/api/Translation.java:199-202 | the value is stored only when the language has none; for the plugin's default language the placeholders found in its text are appended, stored or not; every other language keeps its value |
| Store.SetCache | src/dev/sergiferry/languages/api/Translation.java:239 | the language gets the value, replacing any earlier one; other languages are unchanged |
| Store.Set | src/dev/sergiferry/languages/api/Translation.java:220-226 | an unmodifiable translation refuses; otherwise the value is cached |
| Store.TranslatedInAny | src/dev/sergiferry/languages/api/Translation.java:242-244 | `isTranslatedIn` a collection holds iff some language of it has a value |
| Store.DefaultNeverOverrides | src/dev/sergiferry/languages/api/Translation.java:199-202 | a default never overrides an explicit value or an earlier default |
| Store.DefaultTwiceRepeatsPlaceholders | src/dev/sergiferry/languages/api/Translation.java:204-214 | declaring the same default twice lists its placeholders twice |
| Store.Without | src/dev/sergiferry/languages/api/LanguagesAPI.java:459 | the languages of the list other than the given one, as a subsequence of the list, each kept with its multiplicity |
| Store.NewManager | src/dev/sergiferry/languages/api/LanguagesAPI.java:441-461 | every fallback and colouring is on, formatted placeholders only for the library's own plugin, no translations, and the languages are the default one followed by the others |
| Store.AddLanguageAvailable | src/dev/sergiferry/languages/api/LanguagesAPI.java:720-724 | the language is listed afterwards; the list grows by it only when it was absent |
| Store.AddLanguageKeepsNoRepeats | src/dev/sergiferry/languages/api/LanguagesAPI.java:720-724 | adding keeps a list without repeats, and adding twice is the same as adding once |
| Store.GrabTranslationType | src/dev/sergiferry/languages/api/LanguagesAPI.java:779-783 | the type of the translation stored under the lower-cased key; none iff there is none |
| Store.CreateTranslationAsWritten | src/dev/sergiferry/languages/api/LanguagesAPI.java:908-911 | a free key gets a new translation, and the result is always nothing |
| Store.CreateTranslation | src/dev/sergiferry/languages/api/LanguagesAPI.java:901-911 | the new translation when the key was free, nothing and no change when it was taken |
| Store.CreateReturnsNothing | src/dev/sergiferry/languages/api/LanguagesAPI.java:908-911 | creating a free key stores the translation but returns nothing, against the documented promise |
| Store.GetTranslation | src/dev/sergiferry/languages/api/LanguagesAPI.java:812-821 | the translation under the lower-cased key, created when absent; refused iff it is unmodifiable or of another type, and a refusal changes nothing |
| Store.GetTranslationIsStable | src/dev/sergiferry/languages/api/LanguagesAPI.java:815-816 | asking again, in any case, gives the same translation and changes nothing |
| Store.TypeIsFixedAtCreation | src/dev/sergiferry/languages/api/LanguagesAPI.java:819 | a key created as STRING cannot be asked for as LIST |
| Store.GetUnmodifiableAsWritten | src/dev/sergiferry/languages/api/LanguagesAPI.java:824-833 | any existing key is refused, because the default argument that creates the translation is evaluated first |
| Store.GetUnmodifiableTranslation | src/dev/sergiferry/languages/api/LanguagesAPI.java:824-833 | an existing unmodifiable translation of the right type is returned; a modifiable one or another type is refused; a free key gets a new unmodifiable translation |
| Store.SecondUnmodifiableRequest | src/dev/sergiferry/languages/api/LanguagesAPI.java:828 | as written, a second request for an unmodifiable translation fails; with the checks reachable it returns the first request's translation |
| Store.UnmodifiableStaysUnmodifiable | src/dev/sergiferry/languages/api/LanguagesAPI.java:816-818 | a translation obtained as unmodifiable cannot be obtained for modification and refuses `set` |
| Store.Hook | src/dev/sergiferry/languages/api/LanguagesAPI.java:192-200 | refused iff the lower-cased name is hooked; otherwise the new manager is stored under the lower-cased name and the others are kept |
| Store.GetPluginManager | src/dev/sergiferry/languages/api/LanguagesAPI.java:232-236 | the manager under the lower-cased name; a failure iff there is none |
| Store.HookThenFind | src/dev/sergiferry/languages/api/LanguagesAPI.java:194-235 | a hooked plugin is found under any spelling of its name and cannot be hooked again under any spelling |
| Store.UnhookAsWritten | src/dev/sergiferry/languages/api/LanguagesAPI.java:463-469 | `disable` removes the entry under the name as typed, if it holds this manager |
| Store.Unhook | src/dev/sergiferry/languages/api/LanguagesAPI.java:463-469 | removing under the lower-cased name frees it, and every other plugin stays hooked |
| Store.DisableKeepsMixedCaseHook | src/dev/sergiferry/languages/api/LanguagesAPI.java:468 | a plugin whose name has an upper-case letter stays hooked after `disable` as written; removing under the lower-cased name frees it |
| Placeholders.MatchAt | src/dev/sergiferry/languages/api/Translation.java:35-36 | a match at a position spans a `{`, a placeholder name and a `}` |
| Placeholders.Scan | src/dev/sergiferry/languages/api/Translation.java:205-206 | every match found starts at or after the position and within the text |
| Placeholders.ScanSound | src/dev/sergiferry/languages/api/Translation.java:205-208 | every token found is a `{name}` occurrence at its start |
| Placeholders.FindPlaceholders | src/dev/sergiferry/languages/api/Translation.java:204-214 | every name found is a placeholder name that occurs in braces in the text |
| Placeholders.CheckPlaceholders | src/dev/sergiferry/languages/api/Translation.java:204-214 | the list is kept as a prefix, one name is appended per placeholder found, even names already there, and each is a name in braces in the text |
| Placeholders.FindPlaceholdersOfTemplate | src/dev/sergiferry/languages/api/Translation.java:204-214 | the scan of a rendered plain template gives exactly its tags, in order and with repeats |
| Placeholders.ReferencesAreNotPlaceholders | src/dev/sergiferry/languages/api/Translation.java:210-211 | a token right after `$T` or `$MC` is not a placeholder |
| Placeholders.Marker | src/dev/sergiferry/languages/api/Translation.java:404 | the marker holds `$` and no `{`, so it cannot be taken for a placeholder |
| Placeholders.FormatPlaceholders | src/dev/sergiferry/languages/api/Translation.java:398-408 | with no placeholders the text is unchanged |
| Placeholders.ReplaceTagInRender | src/dev/sergiferry/languages/api/Translation.java:404 | replacing `{t}` in a brace-free rendering rewrites exactly the `t` tags |
| Placeholders.FormatTemplate | src/dev/sergiferry/languages/api/Translation.java:398-408 | every tag becomes the marker of the first position of its name in the list, repeats included, and nothing else changes |
| Placeholders.DiscoverThenFormat | src/dev/sergiferry/languages/api/Translation.java:381-408 | the placeholders discovered in a plain template format each tag into `%n$s`, with n the first position of its name in the discovered list |
| Placeholders.GreetingExample | src/dev/sergiferry/languages/api/Translation.java:398-408 | `Hi {name}` declares one placeholder and formats to `Hi %1$s` |
| References.RefAt | src/dev/sergiferry/languages/api/Translation.java:452-455 | a reference match at a position is the opener, a name with no `}` and no line terminator, and the first `}` after it |
| References.Refs | src/dev/sergiferry/languages/api/Translation.java:452-453 | the matches are in order, do not overlap and lie in the text |
| References.RefsAreMatches | src/dev/sergiferry/languages/api/Translation.java:452-455 | every span found is a match of the pattern |
| References.NoOpenerNoRefs | src/dev/sergiferry/languages/api/Translation.java:450 | text without the opener has no match |
| References.BuilderReplace | src/dev/sergiferry/languages/api/Translation.java:463 | `StringBuilder.replace` fails iff the start is past the length; an end past the length is cut to it |
| References.SpliceAsWritten | src/dev/sergiferry/languages/api/Translation.java:449-466 | the builder splice with positions from the original text: with nothing to replace the text is kept; it can fail only when something is replaced |
| References.FillNothing | src/dev/sergiferry/languages/api/Translation.java:453-464 | with nothing to replace the text is unchanged |
| References.FillOnly | src/dev/sergiferry/languages/api/Translation.java:460-463 | replacing only one reference replaces exactly its span |
| References.AsWrittenSkips | src/dev/sergiferry/languages/api/Translation.java:456-461 | references that are all skipped leave the builder alone |
| References.AsWrittenAgreesOnOne | src/dev/sergiferry/languages/api/Translation.java:460-463 | with one reference whose text does not occur earlier, the builder's splice agrees with the intended one |
| References.SpliceCounterexample | src/dev/sergiferry/languages/api/Translation.java:460-463 | on `$T{a} $T{b}` with `a` as `xx` and `b` as `B` the builder gives `xx $T{B`, while the intended result is `xx B` |
| References.SpliceTemplate | src/dev/sergiferry/languages/api/Translation.java:449-466 | on a rendered plain template the references found are the template's, and filling them renders the template with the resolved texts in their places |
| Resolution.KeyText | src/dev/sergiferry/languages/api/Translation.java:336 | the plugin name's text, then `:`, then the translation's key |
| Resolution.KeyValue | src/dev/sergiferry/languages/api/Translation.java:336 | a value of the translation's type whose text is the key text |
| Resolution.FirstTranslated | src/dev/sergiferry/languages/api/Translation.java:329 | the first language of the list, other than the requested one, that has a value; none iff there is none |
| Resolution.Resolve | src/dev/sergiferry/languages/api/Translation.java:312-317 | the outcome keeps the translation's type in both the plain and the final value; an unanswered request gives the key value as both |
| Resolution.Task | src/dev/sergiferry/languages/api/Translation.java:321-339 | the chosen value has the translation's type; with no answering language it is the key value |
| Resolution.TaskFollowsChoice | src/dev/sergiferry/languages/api/Translation.java:321-339 | the chain as written agrees with the rule "the first candidate with a value, then the default language's lookup, then the key" |
| Resolution.Pipeline | src/dev/sergiferry/languages/api/Translation.java:368-379 | the value's type is kept; with no answering language the value is returned as is |
| Resolution.Finish | src/dev/sergiferry/languages/api/Translation.java:377-378 | one output per string; without colours, and without formatting or placeholders, the strings are unchanged |
| Resolution.TranslationStage | src/dev/sergiferry/languages/api/Translation.java:419-432 | one output string per input string |
| Resolution.ExpandTranslations | src/dev/sergiferry/languages/api/Translation.java:449-466 | text without `$T{` is kept; otherwise it fails as its choices fail, with the same error, and else the references found are filled with the choices |
| Resolution.Skipped | src/dev/sergiferry/languages/api/Translation.java:456-459 | a reference is used iff it names, up to case, another message that exists and is a STRING |
| Resolution.TranslationChoices | src/dev/sergiferry/languages/api/Translation.java:449-466 | one choice per reference, in order; a reference is left alone iff it is skipped (the message itself, a missing message or one that is not STRING) |
| Resolution.Referenced | src/dev/sergiferry/languages/api/LanguagesAPI.java:856 | a referenced STRING message always yields text; with no nesting fuel left it is a stack overflow |
| Resolution.GameStage | src/dev/sergiferry/languages/api/Translation.java:434-447 | one output string per input string |
| Resolution.ExpandGameTexts | src/dev/sergiferry/languages/api/Translation.java:468-483 | text without `$MC{` is kept; otherwise it fails iff the game lookup of some code found fails, and else the codes found are filled with their choices |
| Resolution.GameChoice | src/dev/sergiferry/languages/api/Translation.java:475-480 | a code gets a text iff the language's game file holds it; the lookup fails iff that code is no valid replacement; a code without `$` or `\` gets the file's own text |
| Resolution.GameChoices | src/dev/sergiferry/languages/api/Translation.java:468-483 | one choice per `$MC{code}`; each choice is that code's game choice, and the stage fails iff one code's choice fails |
| Resolution.ResultText | src/dev/sergiferry/languages/api/Translation.java:510-514 | the key text when no language answered |
| Resolution.ResultTextIsFinalText | src/dev/sergiferry/languages/api/Translation.java:510-514 | `toString` always prints the final value's text |
| Resolution.StagesKeepPlainText | src/dev/sergiferry/languages/api/Translation.java:449-470 | strings without `$` pass both reference stages unchanged |
| Resolution.PipelineKeepsPlainText | src/dev/sergiferry/languages/api/Translation.java:368-379 | without `$`, colours and formatting, the pipeline gives back the value found |
| Resolution.DefaultTierWithoutValues | src/dev/sergiferry/languages/api/Translation.java:333-336 | with no values and the default fallback on, a request for another language is answered by the default language with the key text |
| Resolution.FormattedLookup | src/dev/sergiferry/languages/api/Translation.java:381-408 | a plain template comes out with each tag replaced by the marker of its name's first position in the placeholder list |
| Resolution.RegisteredMessageFormats | src/dev/sergiferry/languages/api/Translation.java:199-214 | registering a default template and looking it up in the default language gives each tag as `%n$s`, with n the first position of its name among the tags |
| Resolution.ExpandTemplate | src/dev/sergiferry/languages/api/Translation.java:449-466 | exactly the references not skipped are replaced by their lookups, and the rest of the text is kept |
| Resolution.ReferenceStep | src/dev/sergiferry/languages/api/Translation.java:456-462 | a message holding `$T{y}` fails as the lookup of `y` fails, and overflows with no fuel |
| Resolution.ReferenceCycleOverflows | src/dev/sergiferry/languages/api/Translation.java:449-466 | two messages that refer to each other overflow for every amount of fuel |
| Minecraft.FirstSimilar | src/dev/sergiferry/languages/api/minecraft/MinecraftTranslation.java:484 | the first similar language, other than the requested one, that holds the key; none iff there is none |
| Minecraft.Find | src/dev/sergiferry/languages/api/minecraft/MinecraftTranslation.java:481-490 | an exact hit answers first; a found result always comes from a language that holds the key; a miss is reported for the requested language |
| Minecraft.FindIsFirstHolder | src/dev/sergiferry/languages/api/minecraft/MinecraftTranslation.java:481-490 | the lookup settles on the first candidate (requested, similar, server, English) that holds the key |
| Minecraft.FirstHolderSkipsSimilar | src/dev/sergiferry/languages/api/minecraft/MinecraftTranslation.java:484-485 | excluding the requested language from its similar list does not change the first holder |
| Minecraft.FinalResult | src/dev/sergiferry/languages/api/minecraft/MinecraftTranslation.java:526-529 | the text found, or the key when nothing was found |
| Minecraft.StartLanguage | src/dev/sergiferry/languages/api/minecraft/MinecraftTranslation.java:164 | a missing language becomes the server language |
| Minecraft.MissAnswersWithKey | src/dev/sergiferry/languages/api/minecraft/MinecraftTranslation.java:526-532 | a miss answers with the key itself, and then neither the server language nor English holds the key |
| Minecraft.MarkerFill | src/dev/sergiferry/languages/api/minecraft/MinecraftTranslation.java:202 | filling the only `%f` of a pattern puts the fragment in its place, and the marker is found right after the prefix |
| Minecraft.SingleKey | src/dev/sergiferry/languages/api/minecraft/MinecraftTranslation.java:197-203 | fails iff the fragment is missing or empty, or is not a full key and no valid replacement; a missing fragment is the error reported first, an invalid one is reported as itself; `effect.none` for an effect type and `entity.notFound` for the entity type are keys as they stand; any other key is the pattern's prefix followed by the fragment's replacement text |
| Minecraft.SingleKeyOfPlainFragment | src/dev/sergiferry/languages/api/minecraft/MinecraftTranslation.java:197-203 | a non-empty fragment without `$` or `\` is put into the pattern as it stands |
| Minecraft.BiKey | src/dev/sergiferry/languages/api/minecraft/MinecraftTranslation.java:228-233 | fails iff either fragment is missing or empty or is no valid replacement, a missing first fragment being the error reported first; when the first fragment's replacement text holds no `%`, the key is head, first fragment's replacement, middle, second fragment's replacement |
| Minecraft.BiKeyOfPlainFragments | src/dev/sergiferry/languages/api/minecraft/MinecraftTranslation.java:228-233 | two non-empty fragments without `$`, `\` or `%` give head, first fragment, middle, second fragment |
| Minecraft.CustomKeyIsCode | src/dev/sergiferry/languages/api/minecraft/MinecraftTranslation.java:62 | a non-empty custom code gives a key iff it is a valid replacement, and the key is its replacement text; a code without `$` or `\` is its own key |
| Minecraft.CustomKeyEscapes | src/dev/sergiferry/languages/api/minecraft/MinecraftTranslation.java:62 | the custom code `x$0` reads the key `x%f`; `a$b` is refused |
| Minecraft.TeamOptionFragment | src/dev/sergiferry/languages/api/minecraft/MinecraftTranslation.java:354-357 | only the name-tag visibility and collision options have a fragment |
| Minecraft.TeamStatusFragment | src/dev/sergiferry/languages/api/minecraft/MinecraftTranslation.java:358-371 | every status has a fragment except the own-team and other-teams statuses of the death-message option |
| Minecraft.TeamOptionKey | src/dev/sergiferry/languages/api/minecraft/MinecraftTranslation.java:354-371 | an unsupported option fails before its status is looked at; otherwise the key is `team.<option>.<status>` |
| Minecraft.TeamOptionKeysDistinct | src/dev/sergiferry/languages/api/minecraft/MinecraftTranslation.java:354-371 | distinct supported option and status pairs have distinct keys |
| Minecraft.TeamOptionKeyExamples | src/dev/sergiferry/languages/api/minecraft/MinecraftTranslation.java:355-362 | the collision rule for the own team reads `team.collision.pushOwnTeam` |
| Minecraft.InventoryFragment | src/dev/sergiferry/languages/api/minecraft/MinecraftTranslation.java:310-319 | a type outside the renamed ones reads as its lower-cased name; the renamed ones have a non-empty fragment, lower-case except `shulkerBox` |
| Minecraft.InventoryKeys | src/dev/sergiferry/languages/api/minecraft/MinecraftTranslation.java:310-319 | every inventory type's key is `container.` followed by its fragment (whose replacement text is itself exactly when the type's name has no `$` or `\`), and both smithing tables read the same key |
| Minecraft.MaterialKey | src/dev/sergiferry/languages/api/minecraft/MinecraftTranslation.java:68-71 | blocks use the block pattern, other items the item pattern, with the key's replacement text; fails iff the material is no item, its key is empty or no valid replacement |
| Minecraft.LevelFragment | src/dev/sergiferry/languages/api/minecraft/MinecraftTranslation.java:264-306 | enchantment levels 1 to 10, potion potency and merchant levels 1 to 5 have a fragment, and nothing else |
| Minecraft.Lookup | src/dev/sergiferry/languages/api/minecraft/MinecraftTranslation.java:173-174 | a key held by the requested language answers with its text; a key no candidate holds answers with itself |
| Minecraft.Translate | src/dev/sergiferry/languages/api/minecraft/MinecraftTranslation.java:184-188 | a fragment error is passed on; otherwise the generated key is looked up |
| Minecraft.CustomTranslation | src/dev/sergiferry/languages/api/minecraft/MinecraftTranslation.java:62 | fails iff the code is empty or no valid replacement, with those errors; otherwise the lookup of the code's replacement text; a code without `$` or `\` is looked up as itself, and a code the language's file holds answers with that file's text |
| Minecraft.PotionPotency | src/dev/sergiferry/languages/api/minecraft/MinecraftTranslation.java:83-86 | outside 1 to 5 the number itself, without a lookup; inside, the lookup of `potion.potency.<n>` |
| Minecraft.EnchantmentLevel | src/dev/sergiferry/languages/api/minecraft/MinecraftTranslation.java:98-101 | outside 1 to 10 the number itself; inside, the lookup of `enchantment.level.<n>` |
| Minecraft.MerchantLevel | src/dev/sergiferry/languages/api/minecraft/MinecraftTranslation.java:89 | fails iff the level is outside 1 to 5; otherwise the lookup of `merchant.level.<n>` |
| Minecraft.LevelGuardsMatchKeyFunctions | src/dev/sergiferry/languages/api/minecraft/MinecraftTranslation.java:83-101 | the potency and enchantment-level getters never fail, because their guards admit exactly what the key functions accept |
| Expansion.Parse | src/dev/sergiferry/languages/integration/integrations/PlaceholderAPI.java:89-141 | a `translation_` request's plugin name never holds `_`, because the split is at the first `_` after the prefix |
| Expansion.Bracket | src/dev/sergiferry/languages/integration/integrations/PlaceholderAPI.java:110-112 | the first `[` at or after the position with the first following `]`, with no line break between |
| Expansion.LocaleOverride | src/dev/sergiferry/languages/integration/integrations/PlaceholderAPI.java:109-118 | without a bracketed part the language and code stand; the language changes only when there is one |
| Expansion.Answer | src/dev/sergiferry/languages/integration/integrations/PlaceholderAPI.java:89-141 | author and version as given; a language detail without a player fails; with a player, `code` gives the first locale code, `name` the name and `englishName` the English name, and a missing detail gives no answer; a hooked plugin's translation is its message in the `[locale]` language, or the player's or the server's language, with the locale suffix removed from the code; a game text is the custom game translation for that language and code, and a failure to build its key is reported with the code; the usage texts; an unknown plugin's error text; no answer for an unknown identifier |
| Expansion.MessageText | src/dev/sergiferry/languages/integration/integrations/PlaceholderAPI.java:120-121 | an error text for a code the plugin does not have; a LIST message fails; an unmodifiable message is refused with the store's error; a modifiable STRING message answers with its full lookup's final text in the given language, or the lookup's failure |
| Expansion.OnPlaceholderRequest | src/dev/sergiferry/languages/integration/integrations/PlaceholderAPI.java:89-94 | `author` and `version`, in any case, answer the author and the version; a `language_` identifier without a player is refused |
| Expansion.RelationalIgnoresSecondPlayer | src/dev/sergiferry/languages/integration/integrations/PlaceholderAPI.java:144-146 | the two-player request answers for the first player, whoever the second is |
| Expansion.ParseIgnoresCase | src/dev/sergiferry/languages/integration/integrations/PlaceholderAPI.java:90 | an identifier and its lower-cased form ask for the same thing |
| Expansion.EnglishNameNeverAnswered | src/dev/sergiferry/languages/integration/integrations/PlaceholderAPI.java:90-97 | no identifier asks for the English name, because the `_englishName` ending is tested on lower-cased text |
| Expansion.TranslationIdentifierRoundTrip | src/dev/sergiferry/languages/integration/integrations/PlaceholderAPI.java:99-104 | writing a plugin name without `_` and a code into a `translation_` identifier and parsing it gives both back |
| Expansion.TranslationWithoutSeparator | src/dev/sergiferry/languages/integration/integrations/PlaceholderAPI.java:100-101 | a `translation_` identifier without a second `_` gets the usage text |
| Expansion.GameIdentifierRoundTrip | src/dev/sergiferry/languages/integration/integrations/PlaceholderAPI.java:123-125 | a `minecraft_` identifier asks for the game text of the rest, and gets the usage text when there is none |
| Expansion.RecognisedLocaleOverrides | src/dev/sergiferry/languages/integration/integrations/PlaceholderAPI.java:109-118 | a `[locale]` suffix naming a registered language selects it and is removed from the code |
| Expansion.UnrecognisedLocaleKept | src/dev/sergiferry/languages/integration/integrations/PlaceholderAPI.java:113-117 | a `[locale]` suffix naming no registered language stays in the code, and the request's language stands |
| Expansion.TranslationRequest | src/dev/sergiferry/languages/integration/integrations/PlaceholderAPI.java:99-121 | `translation_<plugin>_<code>[<locale>]` for a hooked plugin's modifiable STRING message answers with its full lookup in the named language |
| Expansion.TranslationRequestWithoutLocale | src/dev/sergiferry/languages/integration/integrations/PlaceholderAPI.java:99-121 | `translation_<plugin>_<code>` without a locale suffix, for a hooked plugin's modifiable STRING message, answers with its full lookup in the player's language, or the server's without a player |
| Expansion.GameLocaleWithoutCode | src/dev/sergiferry/languages/integration/integrations/PlaceholderAPI.java:128-139 | `minecraft_[<locale>]` selects the language but leaves no code, so building the game key fails |
| DisplayEvent.NewDisplay | src/dev/sergiferry/languages/api/events/player/PlayerLanguageDisplayEvent.java:24-30 | the event is refused iff the language is missing, and otherwise keeps the language and the cause |
| DisplayEvent.CauseOf | src/dev/sergiferry/languages/api/events/player/PlayerLanguageDisplayEvent.java:42-48 | CHANGE iff a change event caused it, LOAD iff a load event did |
| DisplayEvent.PreviousLanguage | src/dev/sergiferry/languages/api/events/player/PlayerLanguageDisplayEvent.java:34-40 | `en_US` after a load, the change's origin after a change, the shown language on a refresh; only a change can report none |
| DisplayEvent.ChangeRoundTrip | src/dev/sergiferry/languages/api/events/player/PlayerLanguageDisplayEvent.java:34-48 | a change's event reports CHANGE, the origin as previous language and the target as shown language |
| DisplayEvent.LoadPreviousIsEnglish | src/dev/sergiferry/languages/api/events/player/PlayerLanguageDisplayEvent.java:36 | after a load the previous language is `en_US`, whatever was loaded |
| DisplayEvent.PreviousAbsentOnlyForFirstChange | src/dev/sergiferry/languages/api/events/player/PlayerLanguageDisplayEvent.java:34-40 | no previous language only for a change without an origin |
| DisplayEvent.RefreshAnnouncesNoChange | src/dev/sergiferry/languages/api/events/player/PlayerLanguageDisplayEvent.java:38 | a refresh reports the shown language as the previous one |
| Detection.Complete | src/dev/sergiferry/languages/api/LanguagesAPI.java:370 | the first completion wins; a later one changes nothing |
| Detection.FromLocale | src/dev/sergiferry/languages/api/LanguagesAPI.java:411-416 | the locale's registered language as the client's language, else the server language as the server default |
| Detection.TickLimit | src/dev/sergiferry/languages/api/LanguagesAPI.java:395 | the poll waits 10 or 30 ticks |
| Detection.Start | src/dev/sergiferry/languages/api/LanguagesAPI.java:363-405 | a stored selection completes the task and becomes the player's selection; a finished task is not completed again. Without a stored selection the selection is kept, and: with the protocol hook the task waits for the client; a client still on the default locale whose last stored locale is also the default completes at once; otherwise, within the join window, polling starts from the stored locale; after it, the task completes from the client's locale |
| Detection.NoSelectionCompletes | src/dev/sergiferry/languages/api/LanguagesAPI.java:371-404 | a player with no stored selection but a stored last locale, whose client reports the default locale, without the protocol hook, ends with the default locale's language once the polling limit's ticks have passed |
| Detection.Tick | src/dev/sergiferry/languages/api/LanguagesAPI.java:388-396 | only a polling task changes, and the selection never does |
| Detection.Step | src/dev/sergiferry/languages/api/LanguagesAPI.java:363-416 | a finished task keeps its result; only a stored selection replaces the player's selection, and then by that selection |
| Detection.HookLocale | src/dev/sergiferry/languages/api/LanguagesAPI.java:409-416 | a task still loading completes from the hook's locale; otherwise nothing changes |
| Detection.FirstCompletionWins | src/dev/sergiferry/languages/api/LanguagesAPI.java:370-373 | once done, no sequence of events changes the task's result |
| Detection.PollingReachesLimit | src/dev/sergiferry/languages/api/LanguagesAPI.java:385-396 | a client that keeps the default locale is completed from it when the tick limit is reached |
| Detection.NullLastLocaleNeverCompletes | src/dev/sergiferry/languages/api/LanguagesAPI.java:395 | with no stored last locale the poll never completes while the client reports the default locale |
| Detection.RealLocaleEndsPolling | src/dev/sergiferry/languages/api/LanguagesAPI.java:389-393 | a locale other than the default completes the poll from it |
| Detection.LanguageOf | src/dev/sergiferry/languages/api/LanguagesAPI.java:247-254 | the server language while loading; then the held selection; then the client locale's language; then the server language |
| Detection.SelectionDecides | src/dev/sergiferry/languages/api/LanguagesAPI.java:366-370 | a stored selection decides the reported language from then on |
| Detection.SelectionKept | src/dev/sergiferry/languages/api/LanguagesAPI.java:388-404 | ticks and hook events never touch the selection |
| Detection.ClientCompletionFollowsLocale | src/dev/sergiferry/languages/api/LanguagesAPI.java:249-251 | a task completed from the client's locale holds no selection, so the reported language follows the locale at the time of asking |
| Database.Declare | src/dev/sergiferry/languages/storage/Database.java:468-474 | the column joins the table's list; a second primary column is refused |
| Database.DatabaseType.IsLocal | src/dev/sergiferry/languages/storage/Database.java:52 | a backend is local iff it is not MySQL |
| Database.DeclarationOrder | src/dev/sergiferry/languages/storage/Database.java:468-474 | declaring columns succeeds iff at most one is primary, and then the table holds them in order with that primary |
| Database.AfterPrimary | src/dev/sergiferry/languages/storage/Database.java:472 | after a primary column, the rest succeeds iff none of it is primary |
| Database.CommaList | src/dev/sergiferry/languages/storage/Database.java:366-369 | accumulating `, entry` and removing the first `, ` joins the entries by `, ` |
| Database.ValuesEmptySyntax | src/dev/sergiferry/languages/storage/Database.java:351-355 | one `?` per column, joined by `, ` |
| Database.ParameterMarks | src/dev/sergiferry/languages/storage/Database.java:351-355 | the parameter list has a `?` at every third position and `, ` between, `3n-2` characters for n columns |
| Database.VariablesSyntax | src/dev/sergiferry/languages/storage/Database.java:365-370 | the columns' entries joined by `, ` |
| Database.SingleColumnSyntax | src/dev/sergiferry/languages/storage/Database.java:365-370 | one column gives its entry and one `?`, with no stray separator |
| Database.KeyClause | src/dev/sergiferry/languages/storage/Database.java:374 | no clause without a primary column; the key's length is written only on MySQL |
| Database.CreateSql | src/dev/sergiferry/languages/storage/Database.java:372-378 | the statement is `CREATE TABLE IF NOT EXISTS <name> (`, the columns with their types, then `, PRIMARY KEY (<key>))` with the key, or `(<key>(<length>)))` on MySQL when the key has a length, or just `)` without a primary key |
| Database.BackendsAgreeWithoutKeyLength | src/dev/sergiferry/languages/storage/Database.java:374 | without a key length both backends produce the same statement |
| Database.KeyLengthOnlyOnMysql | src/dev/sergiferry/languages/storage/Database.java:374 | with a key length, the statements differ only by the length after the key's name on MySQL |
| Database.ReplaceIntoSql | src/dev/sergiferry/languages/storage/Database.java:114-115 | every column named and one parameter per column, in declaration order |
| Database.Build | src/dev/sergiferry/languages/storage/Database.java:106-111 | a table built from declarations with at most one primary holds them in order |
| Database.PlayerLanguagesTable | src/dev/sergiferry/languages/storage/Database.java:106-111 | the player table has three columns and `uuid` as its primary |
| Database.ExternalTable | src/dev/sergiferry/languages/storage/Database.java:382-385 | an external table is refused iff the backend is local |
| Database.NewDb | src/dev/sergiferry/languages/storage/Database.java:35-47 | a local database holds only the player table; MySQL holds all three |
| Database.GetExternalTable | src/dev/sergiferry/languages/storage/Database.java:91-98 | the server-languages and plugin-translations getters: refused iff the backend is local; otherwise the table under the given name |
| Database.ExternalTablesOnlyOnMysql | src/dev/sergiferry/languages/storage/Database.java:35-98 | on a new database the external getters succeed with their tables iff the backend is MySQL, and the player table is always there |
| Database.Reconvert | src/dev/sergiferry/languages/storage/Database.java:424-427 | an SQL `NULL` reads as nothing |
| Database.ReadLanguage | src/dev/sergiferry/languages/storage/Database.java:109 | an SQL `NULL` language cell reads as no language |
| Database.LanguageCellRoundTrip | src/dev/sergiferry/languages/storage/Database.java:109 | a language written as its lower-cased locale code reads back as itself |
| Database.ReadKind | src/dev/sergiferry/languages/storage/Database.java:188 | an SQL `NULL` type cell reads as no type |
| Database.KindCellRoundTrip | src/dev/sergiferry/languages/storage/Database.java:188 | a type written as its name reads back as itself |
| Database.PlayerLanguagesColumns | src/dev/sergiferry/languages/storage/Database.java:106-111 | the player table's columns are `uuid` VARCHAR(36), `pl_lang` VARCHAR(16) and `cl_lang` VARCHAR(16), in that order |
| Database.PlayerLanguagesReplaceInto | src/dev/sergiferry/languages/storage/Database.java:113-121 | the player setter's statement names the three columns and has three parameters |
| Database.PlayerLanguagesTyped | src/dev/sergiferry/languages/storage/Database.java:365-368 | the player table's typed column list |
| Database.PlayerLanguagesCreate | src/dev/sergiferry/languages/storage/Database.java:372-378 | the player table's `CREATE TABLE` on both backends; the key's length appears only on MySQL |
| Sync.NamespacedKey | src/dev/sergiferry/languages/api/Translation.java:193 | the namespaced key starts with the lower-cased plugin name and `:`, and the key follows |
| Sync.NamespacedKeyInjective | src/dev/sergiferry/languages/api/Translation.java:193 | within one plugin, distinct keys have distinct namespaced keys |
| Sync.Upload | src/dev/sergiferry/languages/api/Translation.java:228-232 | refused iff the backend is local; no value writes nothing; otherwise the pair's row becomes the value's JSON and type, and every other row is kept |
| Sync.DownloadOne | src/dev/sergiferry/languages/api/Translation.java:234-237 | refused iff the backend is local; a missing row changes nothing; a row read fails only for an empty array read as a STRING, and otherwise caches the value read; other languages are untouched and the type is kept |
| Sync.UploadThenDownload | src/dev/sergiferry/languages/api/Translation.java:228-237 | uploading a value and reading it back restores it, whatever was cached in between |
| Sync.SetAndUpload | src/dev/sergiferry/languages/api/Translation.java:220-226 | an unmodifiable translation refuses; otherwise the value is cached and, on MySQL, its row is written; a local backend leaves the table alone |
| Sync.RowsOf | src/dev/sergiferry/languages/api/LanguagesAPI.java:631-633 | one row per language that has a value and is admitted, under the namespaced key |
| Sync.UploadEach | src/dev/sergiferry/languages/api/LanguagesAPI.java:631-637 | rows outside the plugin's namespace, and for a single language rows of other languages, are untouched |
| Sync.UploadEachWrites | src/dev/sergiferry/languages/api/LanguagesAPI.java:631-637 | every visited translation has its row for every admitted language it has a value in |
| Sync.UploadEachKeeps | src/dev/sergiferry/languages/api/LanguagesAPI.java:645-652 | the row of a key the upload does not visit keeps its value |
| Sync.UploadLanguage | src/dev/sergiferry/languages/api/LanguagesAPI.java:628-640 | refused iff the backend is local; rows of other languages are untouched |
| Sync.UploadAll | src/dev/sergiferry/languages/api/LanguagesAPI.java:642-655 | refused iff the backend is local |
| Sync.UploadsArePlaced | src/dev/sergiferry/languages/api/LanguagesAPI.java:628-655 | after either upload the table holds each translation's value under its namespaced key |
| Sync.EntriesFor | src/dev/sergiferry/languages/storage/Database.java:243-250 | exactly the complete rows of the single-language query (a key of the plugin, an array cell, a known type), each as an entry for that language; none iff no row is complete; rows whose cell is no array are handled by `DownloadLanguage` before this |
| Sync.EntriesForAppend | src/dev/sergiferry/languages/storage/Database.java:243-250 | the rows are read in the query's order: two runs of rows give the first run's entries, then the second's |
| Sync.EntriesForLastRow | src/dev/sergiferry/languages/storage/Database.java:243-250 | the last complete row for a key gives the entry that is last for that key and language |
| Sync.DownloadLanguageCachesLastRow | src/dev/sergiferry/languages/api/LanguagesAPI.java:701-709 | a single-language download that finishes caches, for each key, the value read from the last complete row for it |
| Sync.EntriesOf | src/dev/sergiferry/languages/storage/Database.java:263-273 | exactly the complete rows (available language, a key of the plugin, an array cell, a known type), each as its entry; rows whose cell is no array are handled by `DownloadAll` before this |
| Sync.EntriesOfAppend | src/dev/sergiferry/languages/storage/Database.java:263-273 | the all-languages query's rows are read in order: two runs of rows give the first run's entries, then the second's |
| Sync.Apply | src/dev/sergiferry/languages/api/LanguagesAPI.java:672-681 | the keys keep agreeing with the translations, the keys already read stay in the result, and the plugin and its languages are untouched |
| Sync.ApplyOne | src/dev/sergiferry/languages/api/LanguagesAPI.java:674-678 | one row: fails iff its array cannot be read with its type or the translation cannot be fetched with that type; otherwise the row's value is cached and every other cached value is kept |
| Sync.ApplyCachesLastRow | src/dev/sergiferry/languages/api/LanguagesAPI.java:672-681 | after a download that succeeds, each key and language holds the value read from the last row for it |
| Sync.ApplyKeeps | src/dev/sergiferry/languages/api/LanguagesAPI.java:672-681 | a download that succeeds keeps every value no row writes |
| Sync.DownloadLanguage | src/dev/sergiferry/languages/api/LanguagesAPI.java:688-714 | refused iff the backend is local; a failed query fails the future; a row of the plugin whose cell is no array throws while the query is read (Database.java:187, 246), so the future times out with nothing cached; otherwise no complete rows fail it as empty |
| Sync.DownloadAll | src/dev/sergiferry/languages/api/LanguagesAPI.java:658-686 | refused iff the backend is local; a failed query fails; a row of an available language and of the plugin whose cell is no array throws while the query is read (Database.java:187, 269), so the future times out with nothing cached; no row of an available language gives an empty result |
| Sync.IncompleteRowsGiveEmptySuccess | src/dev/sergiferry/languages/api/LanguagesAPI.java:666 | rows of available languages that are all incomplete, and whose cells can be read, make the all-languages download succeed with nothing read, while the single-language one fails as empty |
| Sync.UnreadableCellTimesOut | src/dev/sergiferry/languages/storage/Database.java:187 | one row of the plugin whose translation cell is no JSON array makes the single-language download time out with nothing cached, whatever the rows around it, and the all-languages one too when its language is available |
| Sync.SkippedRowsDoNotThrow | src/dev/sergiferry/languages/storage/Database.java:244-269 | a row skipped before its cell is read (a key outside the plugin, or in the all-languages query a language that is not available) never throws |
| Sync.KeysOf | src/dev/sergiferry/languages/api/LanguagesAPI.java:679 | the set of keys read is exactly the keys of the rows |
| Sync.DownloadOwnValuesIsNoOp | src/dev/sergiferry/languages/api/LanguagesAPI.java:672-682 | reading back a manager's own modifiable values changes nothing and reports every key read |
| Sync.UnmodifiableRowTimesOut | src/dev/sergiferry/languages/api/LanguagesAPI.java:677 | an unmodifiable translation's row cannot be read back, so the download times out |
| StringUtils.GetStringFromList | src/dev/sergiferry/languages/utils/StringUtils.java:57-65 | with `firstDifferent` the elements joined by the separator; without it, the separator in front of every element |
| StringUtils.GetStringFromListDefault | src/dev/sergiferry/languages/utils/StringUtils.java:53-55 | the two-argument form joins without a leading separator, so one element is itself |
| StringUtils.PrefixedIsSepThenJoin | src/dev/sergiferry/languages/utils/StringUtils.java:61 | without `firstDifferent` the result is the separator followed by the join |
| StringUtils.JoinLength | src/dev/sergiferry/languages/utils/StringUtils.java:57-65 | a join is as long as its elements plus one separator per gap |
| StringUtils.LazyClose | src/dev/sergiferry/languages/utils/StringUtils.java:47 | the first delimiter at or after the position with no line terminator before it |
| StringUtils.GetStringInside | src/dev/sergiferry/languages/utils/StringUtils.java:46-51 | the text found never holds the delimiter |
| StringUtils.InsideIsBetweenFirstTwo | src/dev/sergiferry/languages/utils/StringUtils.java:46-51 | on text without line terminators, the result is the text between the first two delimiters |
| StringUtils.InsideEmptyWithoutPair | src/dev/sergiferry/languages/utils/StringUtils.java:49-50 | without two delimiters the result is empty |
| StringUtils.ReplaceInList | src/dev/sergiferry/languages/utils/StringUtils.java:67-71 | each element has every occurrence of the target replaced, the length is kept, and elements without the target are unchanged |

## Left out

- Colour codes: `formatColor` (hex colours and `&` codes) is a parameter of the pipeline, not interpreted.
- PlaceholderAPI's own `replace` and expansion registration are calls into another plugin; `replacePlaceholderAPI` is not modelled.
- The scheduler, the asynchronous tasks and `CompletableFuture`: each task runs to the end in one step. A task that throws after its query is seen as its five-second timeout.
- Resolution.Referenced: `$T{…}` nesting has no cycle guard in the source, so the recursion is bounded by a fuel parameter. Running out of fuel stands for the stack overflow the source would hit.
- Lower- and upper-casing are ASCII only; Java's full Unicode case mapping is not modelled.
- YAML and JSON file reading and writing (`load`, `save`, `saveDefaults`, the game's language files) are left out. The game files' contents are a parameter.
- `HashMap` iteration order (translations, download rows) is a parameter. Duplicate rows of a download collapse in the source's maps, and the model applies each row in turn.
- Database: JDBC connections, statement execution and `ResultSet` reading are left out. The rows a query returns are a parameter, with each translation cell read as NULL, as text that is no JSON array (reading it throws), or as an array. The UUID column's conversion is not modelled.
- Sync.DownloadOne: the table is modelled by the rows uploads write, which always hold an array, so the single-row read never meets a cell that is no array; in the source such a cell would throw out of `downloadFromDatabase`.
- Database.Declare: when a second primary column is refused, the source has already added the column to the table's list; the model refuses without adding it.
- Expansion.LocaleOverride: the `[locale]` removal uses the locale as a regular expression; the model takes it literally, which agrees while registered codes hold no regex metacharacter.
- Expansion.Answer: `getAuthor` and `getVersion` read the plugin's description file; they are parameters.
- StringUtils.GetStringInside: only delimiters that are not regex metacharacters are modelled, because the source builds its pattern from the character unescaped.
- StringUtils.ReplaceInList: the pattern is a non-empty literal, which is how the source calls it (`§`); general regular expressions are not modelled. The replacement is also taken literally, while `replaceAll` (StringUtils.java:69) reads `$` and `\` in it as group references and escapes. The only caller's replacement is `&`, which holds neither, so the two agree there.
- `Type.isEmpty` is a predicate only, with no contract of its own.
- The thin event classes (`PlayerLanguageChangeEvent`, `PlayerLanguageLoadEvent`) are modelled only as the causes the display event reads.
- The game object fragment functions that read Bukkit objects (biome keys, entity keys, potion data) are the given fragment text.
- Resolution.ExpandTranslations / Resolution.ExpandGameTexts: the references are spliced with the corrected splice (`References.Fill`), not the builder splice of Translation.java:449-483 (`References.SpliceAsWritten`). The two differ when a reference's text occurs earlier in the string or an earlier replacement changed the length: as written, `$T{a} $T{a}` with `a` as `xx` gives `xx{a}` rather than `xx xx`, and `$T{abc} $T{d}` with `abc` as the empty text throws rather than giving the second reference's text. The difference is recorded under "## Findings", and the rest of the model follows the corrected splice.
- Resolution.Resolve, Resolution.Pipeline, Resolution.TranslationStage, Resolution.GameStage, Resolution.ExpandTemplate: for the same reason, these describe the corrected splice; on text with repeated or length-changing references the source gives other text or throws.
- Languages.Register: an empty code list is refused with `NoLocaleCode`, and the registry is left as it was. In the source, the array constructor with no codes finds no game file and calls `hasLanguageID` (Language.java:224). That reads `getField` (line 293), which calls `getLocaleCode` (line 259), whose `orElseThrow` raises `NoSuchElementException`. The catch at line 302 takes only `NoSuchFieldException` and `SecurityException`, so the constructor throws before the language is listed. The `NoLocaleCode` refusal stands for that throw. Every call site passes at least one code.
- Languages.LoadSimilar: the model reads the language's own code prefix before filtering the catalogue. The source reads it inside the filter (Language.java:341), once per catalogue entry. So for a code with no prefix, such as `_`, and an empty catalogue, the model fails where the source gives an empty list. This cannot arise in the library: the catalogue is filled when the class is initialised, so it is never empty when a list is loaded.
- Store.NewTranslation: Bukkit's `NamespacedKey` constructor (Translation.java:193) rejects keys outside `[a-z0-9/._-]`, such as `hello world`, `a:b` or the empty key. That validation is server-library code outside this repository and is not modelled, so such keys get a translation here.
- Store.GetTranslation: for the same reason, its "refused iff unmodifiable or of another type" holds only for keys that `NamespacedKey` accepts; the creation members (`CreateTranslation`, `GetUnmodifiableTranslation`) likewise accept every key.
- Minecraft.SingleKey: the pattern markers `%f` and `%s` are regular expressions in the source; they hold no metacharacter, so they are matched literally here.

## Findings

| source | as written | input that shows it | evidently intended | confidence | as-written member | corrected member |
|---|---|---|---|---|---|---|
| src/dev/sergiferry/languages/api/Translation.java:460-463 | the splice position is the first occurrence in the original string, applied to a builder that earlier splices have already resized | `$T{a} $T{b}` with `a` resolving to `xx` and `b` to `B` gives `xx $T{B` | `xx B`: each reference replaced in its own place | not executed | References.SpliceCounterexample | References.SpliceTemplate |
| src/dev/sergiferry/languages/api/LanguagesAPI.java:908-911 | `createTranslation` returns what `put` returned, which is always null for a free key | creating `greeting` in an empty manager returns nothing | the new translation for a free key, as the doc comment says | not executed | Store.CreateReturnsNothing | Store.CreateTranslation |
| src/dev/sergiferry/languages/api/LanguagesAPI.java:824-833 | `getOrDefault` evaluates `createUnmodifiableTranslation` first, and it throws for any existing key | a second `getUnmodifiableTranslation` of the same key and type throws | the existing unmodifiable translation is returned | not executed | Store.SecondUnmodifiableRequest | Store.GetUnmodifiableTranslation |
| src/dev/sergiferry/languages/api/LanguagesAPI.java:468 | `disable` removes the entry under the plugin's name as typed, but `hook` stored it under the lower-cased name | a plugin named `MyPlugin` stays hooked after `disable` | the plugin is unhooked | not executed | Store.DisableKeepsMixedCaseHook | Store.Unhook |
