/** The translation store: one `Translation` per key with its per-language
    values and discovered placeholders, the per-plugin manager that owns the
    translations, and the registry of hooked plugins. */
module Store {
  import opened Wrappers
  import opened Text
  import opened Values
  import Languages
  import Placeholders

  type Language = Languages.Language

  /** A translation: its lower-cased simple key, its type, the value per
      language, the placeholder names found in the default-language values
      (in order, repeats kept) and whether it is the unmodifiable variant. */
  datatype Translation = Translation(
    key: string,
    kind: Kind,
    values: map<Language, Value>,
    placeholders: seq<string>,
    modifiable: bool)

  /** Every stored value has the translation's own type (the source's
      generic parameter guarantees this statically). */
  predicate Typed(t: Translation) {
    forall l :: l in t.values ==> t.values[l].Kind() == t.kind
  }

  /** The constructor: no values and no placeholders yet. The key is stored
      lower-cased, as the namespaced key does. */
  function NewTranslation(simpleKey: string, kind: Kind, modifiable: bool): (r: Translation)
    ensures r.key == Lower(simpleKey) && IsLower(r.key)
    ensures r.kind == kind && r.modifiable == modifiable
    ensures r.values == map[] && r.placeholders == []
    ensures Typed(r)
  {
    LowerIsLower(simpleKey);
    Translation(Lower(simpleKey), kind, map[], [], modifiable)
  }

  predicate IsTranslatedIn(t: Translation, l: Language) {
    l in t.values
  }

  /** `isTranslatedIn(Collection)`: some language of the collection has a value. */
  predicate IsTranslatedInAny(t: Translation, ls: seq<Language>) {
    exists i :: 0 <= i < |ls| && ls[i] in t.values
  }

  /** `isTranslatedIn(Collection)` holds exactly when `isTranslatedIn`
      holds for one of the languages. */
  lemma TranslatedInAny(t: Translation, ls: seq<Language>)
    ensures IsTranslatedInAny(t, ls) <==> exists l :: l in ls && IsTranslatedIn(t, l)
  {
    if exists l :: l in ls && IsTranslatedIn(t, l) {
      var l :| l in ls && IsTranslatedIn(t, l);
      var i :| 0 <= i < |ls| && ls[i] == l;
    }
    if IsTranslatedInAny(t, ls) {
      var i :| 0 <= i < |ls| && ls[i] in t.values;
      assert ls[i] in ls && IsTranslatedIn(t, ls[i]);
    }
  }

  /** `setDefault`: stores the value only when the language has none yet;
      when the language is the plugin's default, the value's text is scanned
      for placeholders whether or not it was stored. */
  function SetDefault(t: Translation, defaultLanguage: Language, l: Language, v: Value): (r: Translation)
    requires v.Kind() == t.kind
    ensures l in r.values
    ensures l in t.values ==> r.values == t.values
    ensures l !in t.values ==> r.values[l] == v
    ensures forall x :: x != l ==> (x in r.values <==> x in t.values)
    ensures forall x :: x in t.values ==> x in r.values && r.values[x] == t.values[x]
    ensures l != defaultLanguage ==> r.placeholders == t.placeholders
    ensures l == defaultLanguage ==>
      r.placeholders == Placeholders.CheckPlaceholders(t.placeholders, ToText(v))
    ensures r.key == t.key && r.kind == t.kind && r.modifiable == t.modifiable
    ensures Typed(t) ==> Typed(r)
  {
    var values := if l in t.values then t.values else t.values[l := v];
    var placeholders :=
      if l == defaultLanguage then Placeholders.CheckPlaceholders(t.placeholders, ToText(v))
      else t.placeholders;
    t.(values := values, placeholders := placeholders)
  }

  /** `setCache`: stores the value, replacing any earlier one. */
  function SetCache(t: Translation, l: Language, v: Value): (r: Translation)
    requires v.Kind() == t.kind
    ensures l in r.values && r.values[l] == v
    ensures forall x :: x != l ==> (x in r.values <==> x in t.values)
    ensures forall x :: x != l && x in t.values ==> r.values[x] == t.values[x]
    ensures r.placeholders == t.placeholders
    ensures r.key == t.key && r.kind == t.kind && r.modifiable == t.modifiable
    ensures Typed(t) ==> Typed(r)
  {
    t.(values := t.values[l := v])
  }

  datatype StoreError =
    | UnmodifiableTranslation(key: string)
    | NotUnmodifiable(key: string)
    | TypeMismatch(key: string, requested: Kind, actual: Kind)
    | AlreadyCreated(key: string)
    | AlreadyHooked(name: string)
    | NotHooked(name: string)

  /** `set`: the unmodifiable variant refuses; otherwise the value is cached
      (the asynchronous upload that follows is in module `Sync`). */
  function Set(t: Translation, l: Language, v: Value): (r: Result<Translation, StoreError>)
    requires v.Kind() == t.kind
    ensures r.Failure? <==> !t.modifiable
    ensures r.Failure? ==> r.error == UnmodifiableTranslation(t.key)
    ensures r.Success? ==> r.value == SetCache(t, l, v)
  {
    if !t.modifiable then Failure(UnmodifiableTranslation(t.key))
    else Success(SetCache(t, l, v))
  }

  /** A first default never overrides a later explicit value, and a later
      default never overrides the first one. */
  lemma DefaultNeverOverrides(t: Translation, d: Language, l: Language, a: Value, b: Value)
    requires a.Kind() == t.kind && b.Kind() == t.kind
    ensures SetDefault(SetDefault(t, d, l, a), d, l, b).values[l] == (if l in t.values then t.values[l] else a)
    ensures SetCache(SetDefault(t, d, l, a), l, b).values[l] == b
  {
  }

  /** Declaring the same default twice for the default language lists its
      placeholders twice: the source's duplicate test compares a name with
      records and never matches. */
  lemma DefaultTwiceRepeatsPlaceholders(t: Translation, d: Language, v: Value)
    requires v.Kind() == t.kind
    ensures var once := SetDefault(t, d, d, v);
            var twice := SetDefault(once, d, d, v);
            twice.values == once.values &&
            twice.placeholders == once.placeholders + Placeholders.FindPlaceholders(ToText(v))
  {
  }

  // ----- The plugin manager -----

  /** The per-plugin switches. */
  datatype Flags = Flags(
    formattedPlaceholders: bool,
    fallbackToSimilar: bool,
    fallbackToServer: bool,
    fallbackToDefault: bool,
    autoColour: bool,
    saveOnDisable: bool)

  /** `PluginManager`: the plugin's name, its default language and optional
      default file, the languages it is translated into, the switches and the
      translations keyed by lower-cased simple key. */
  datatype Manager = Manager(
    plugin: string,
    defaultLanguage: Language,
    defaultFile: Option<string>,
    languages: seq<Language>,
    flags: Flags,
    translations: map<string, Translation>)

  /** The elements of `ls` other than `d`, in order, repeats kept. */
  function Without(ls: seq<Language>, d: Language): (r: seq<Language>)
    ensures forall x :: x in r <==> x in ls && x != d
    ensures |r| <= |ls|
    ensures Languages.IsSubsequence(r, ls)
    ensures forall x :: multiset(r)[x] == if x == d then 0 else multiset(ls)[x]
  {
    if ls == [] then []
    else
      var rest := Without(ls[1..], d);
      assert ls == [ls[0]] + ls[1..];
      assert multiset(ls) == multiset{ls[0]} + multiset(ls[1..]);
      if ls[0] == d then rest
      else
        assert ([ls[0]] + rest)[1..] == rest;
        [ls[0]] + rest
  }

  /** The constructor: every fallback and colouring is on, formatted
      placeholders only for the library's own plugin, and the language list
      is the default language followed by the other given languages. */
  function NewManager(plugin: string, isLibraryPlugin: bool, defaultLanguage: Language,
                      defaultFile: Option<string>, additional: seq<Language>): (r: Manager)
    ensures r.plugin == plugin && r.defaultLanguage == defaultLanguage && r.defaultFile == defaultFile
    ensures r.flags == Flags(isLibraryPlugin, true, true, true, true, false)
    ensures r.translations == map[]
    ensures |r.languages| >= 1 && r.languages[0] == defaultLanguage
    ensures defaultLanguage !in r.languages[1..]
    ensures forall x :: x in r.languages <==> x == defaultLanguage || x in additional
  {
    var rest := Without(additional, defaultLanguage);
    assert ([defaultLanguage] + rest)[1..] == rest;
    Manager(plugin, defaultLanguage, defaultFile, [defaultLanguage] + rest,
            Flags(isLibraryPlugin, true, true, true, true, false), map[])
  }

  /** `addLanguageAvailable`: appends a language that is not listed yet. */
  function AddLanguageAvailable(m: Manager, l: Language): (r: Manager)
    ensures l in r.languages
    ensures l in m.languages ==> r == m
    ensures l !in m.languages ==> r.languages == m.languages + [l]
    ensures r.translations == m.translations && r.defaultLanguage == m.defaultLanguage
  {
    if l in m.languages then m else m.(languages := m.languages + [l])
  }

  predicate NoRepeats(ls: seq<Language>) {
    forall i, j :: 0 <= i < j < |ls| ==> ls[i] != ls[j]
  }

  /** Adding languages one at a time never creates a repeat, and adding a
      language twice is the same as adding it once. */
  lemma AddLanguageKeepsNoRepeats(m: Manager, l: Language)
    requires NoRepeats(m.languages)
    ensures NoRepeats(AddLanguageAvailable(m, l).languages)
    ensures AddLanguageAvailable(AddLanguageAvailable(m, l), l) == AddLanguageAvailable(m, l)
  {
  }

  /** `hasTranslation`: lookup under the lower-cased key. */
  predicate HasTranslation(m: Manager, simpleKey: string) {
    Lower(simpleKey) in m.translations
  }

  /** `grabTranslationType`: the stored translation's type, if any. */
  function GrabTranslationType(m: Manager, simpleKey: string): (r: Option<Kind>)
    ensures r.Some? <==> HasTranslation(m, simpleKey)
    ensures r.Some? ==> r.value == m.translations[Lower(simpleKey)].kind
  {
    if Lower(simpleKey) in m.translations then Some(m.translations[Lower(simpleKey)].kind) else None
  }

  /** Keys and lookups agree: every translation is stored under its own
      key, which is lower-cased. */
  predicate KeysAgree(m: Manager) {
    forall k :: k in m.translations ==> IsLower(k) && m.translations[k].key == k && Typed(m.translations[k])
  }

  /** `createTranslation` as written: a new translation is stored when the
      key is free, but the method returns what the map held before the put,
      which is always nothing. */
  function CreateTranslationAsWritten(m: Manager, simpleKey: string, kind: Kind): (r: (Manager, Option<Translation>))
    ensures r.1.None?
    ensures HasTranslation(m, simpleKey) ==> r.0 == m
    ensures !HasTranslation(m, simpleKey) ==>
      r.0.translations == m.translations[Lower(simpleKey) := NewTranslation(simpleKey, kind, true)]
  {
    if HasTranslation(m, simpleKey) then (m, None)
    else (m.(translations := m.translations[Lower(simpleKey) := NewTranslation(simpleKey, kind, true)]), None)
  }

  /** `createTranslation` as documented: the new translation when the key was
      free, nothing (and no change) when it was taken. */
  function CreateTranslation(m: Manager, simpleKey: string, kind: Kind): (r: (Manager, Option<Translation>))
    ensures r.1.Some? <==> !HasTranslation(m, simpleKey)
    ensures r.1.None? ==> r.0 == m
    ensures r.1.Some? ==> r.1.value == NewTranslation(simpleKey, kind, true)
    ensures r.1.Some? ==> r.0.translations == m.translations[Lower(simpleKey) := r.1.value]
    ensures r.0 == CreateTranslationAsWritten(m, simpleKey, kind).0
    ensures KeysAgree(m) ==> KeysAgree(r.0)
  {
    if HasTranslation(m, simpleKey) then (m, None)
    else
      var t := NewTranslation(simpleKey, kind, true);
      (m.(translations := m.translations[Lower(simpleKey) := t]), Some(t))
  }

  /** The documented promise fails as written: creating a fresh key returns
      nothing although the translation was stored. */
  lemma CreateReturnsNothing(m: Manager, simpleKey: string, kind: Kind)
    requires !HasTranslation(m, simpleKey)
    ensures CreateTranslationAsWritten(m, simpleKey, kind).1.None?
    ensures HasTranslation(CreateTranslationAsWritten(m, simpleKey, kind).0, simpleKey)
    ensures CreateTranslation(m, simpleKey, kind).1 == Some(NewTranslation(simpleKey, kind, true))
  {
  }

  /** `getTranslation(simpleKey, type)`: creates the translation when the
      key is free, then refuses the unmodifiable variant and a different
      type. A refusal leaves the manager unchanged. */
  function GetTranslation(m: Manager, simpleKey: string, kind: Kind): (r: Result<(Manager, Translation), StoreError>)
    ensures r.Failure? ==> HasTranslation(m, simpleKey)
    ensures r.Success? <==>
      !HasTranslation(m, simpleKey) ||
      (m.translations[Lower(simpleKey)].modifiable && m.translations[Lower(simpleKey)].kind == kind)
    ensures r.Failure? && !m.translations[Lower(simpleKey)].modifiable ==>
      r.error == UnmodifiableTranslation(Lower(simpleKey))
    ensures r.Success? ==> r.value.1.kind == kind && r.value.1.modifiable
    ensures r.Success? ==> Lower(simpleKey) in r.value.0.translations &&
                           r.value.0.translations[Lower(simpleKey)] == r.value.1
    ensures r.Success? && HasTranslation(m, simpleKey) ==> r.value.0 == m
    ensures r.Success? && !HasTranslation(m, simpleKey) ==>
      r.value.1 == NewTranslation(simpleKey, kind, true) &&
      r.value.0.translations.Keys == m.translations.Keys + {Lower(simpleKey)}
    ensures r.Success? ==> forall k :: k in m.translations ==>
      k in r.value.0.translations && r.value.0.translations[k] == m.translations[k]
    ensures r.Success? ==> r.value.0.languages == m.languages && r.value.0.flags == m.flags
  {
    var key := Lower(simpleKey);
    LowerTwice(simpleKey);
    var (m1, _) := CreateTranslation(m, key, kind);
    var t := m1.translations[key];
    if !t.modifiable then Failure(UnmodifiableTranslation(key))
    else if t.kind != kind then Failure(TypeMismatch(key, kind, t.kind))
    else Success((m1, t))
  }

  /** Asking again for the same translation gives the same one and changes
      nothing, whatever the case of the key. */
  lemma GetTranslationIsStable(m: Manager, a: string, b: string, kind: Kind)
    requires Lower(a) == Lower(b)
    requires GetTranslation(m, a, kind).Success?
    ensures var (m1, t) := GetTranslation(m, a, kind).value;
            GetTranslation(m1, b, kind) == Success((m1, t))
  {
  }

  /** A key once created as a STRING cannot be asked for as a LIST. */
  lemma TypeIsFixedAtCreation(m: Manager, k: string)
    requires !HasTranslation(m, k)
    ensures var m1 := GetTranslation(m, k, STRING).value.0;
            GetTranslation(m1, k, LIST) == Failure(TypeMismatch(Lower(k), LIST, STRING))
  {
    LowerTwice(k);
  }

  /** `getUnmodifiableTranslation` as written: the default argument is
      evaluated first, and creating it throws whenever the key exists, so any
      existing key is refused, even an unmodifiable one of the right type. */
  function GetUnmodifiableAsWritten(m: Manager, simpleKey: string, kind: Kind): (r: Result<(Manager, Translation), StoreError>)
    ensures r.Failure? <==> HasTranslation(m, simpleKey)
    ensures r.Failure? ==> r.error == AlreadyCreated(Lower(simpleKey))
    ensures r.Success? ==> r.value.1 == NewTranslation(simpleKey, kind, false)
    ensures r.Success? ==> r.value.0.translations == m.translations[Lower(simpleKey) := r.value.1]
  {
    if HasTranslation(m, simpleKey) then Failure(AlreadyCreated(Lower(simpleKey)))
    else
      var t := NewTranslation(simpleKey, kind, false);
      Success((m.(translations := m.translations[Lower(simpleKey) := t]), t))
  }

  /** `getUnmodifiableTranslation` with the checks that follow the creation
      reachable: an existing unmodifiable translation of the right type is
      returned; a modifiable one or a different type is refused. */
  function GetUnmodifiableTranslation(m: Manager, simpleKey: string, kind: Kind): (r: Result<(Manager, Translation), StoreError>)
    ensures !HasTranslation(m, simpleKey) ==> r == GetUnmodifiableAsWritten(m, simpleKey, kind)
    ensures r.Success? <==>
      !HasTranslation(m, simpleKey) ||
      (!m.translations[Lower(simpleKey)].modifiable && m.translations[Lower(simpleKey)].kind == kind)
    ensures r.Success? ==> !r.value.1.modifiable && r.value.1.kind == kind
    ensures r.Success? ==>
      Lower(simpleKey) in r.value.0.translations && r.value.0.translations[Lower(simpleKey)] == r.value.1
    ensures r.Success? && HasTranslation(m, simpleKey) ==> r.value.0 == m
  {
    var key := Lower(simpleKey);
    if key !in m.translations then GetUnmodifiableAsWritten(m, simpleKey, kind)
    else
      var t := m.translations[key];
      if t.modifiable then Failure(NotUnmodifiable(key))
      else if t.kind != kind then Failure(TypeMismatch(key, kind, t.kind))
      else Success((m, t))
  }

  /** As written, the second request for an unmodifiable translation fails;
      with the checks reachable it returns the translation created by the
      first. */
  lemma SecondUnmodifiableRequest(m: Manager, k: string, kind: Kind)
    requires !HasTranslation(m, k)
    ensures var first := GetUnmodifiableAsWritten(m, k, kind);
            first.Success? &&
            GetUnmodifiableAsWritten(first.value.0, k, kind).Failure?
    ensures var first := GetUnmodifiableTranslation(m, k, kind);
            first.Success? &&
            GetUnmodifiableTranslation(first.value.0, k, kind) == first
  {
  }

  /** A translation obtained as unmodifiable can no longer be obtained for
      modification, and it refuses `set`. */
  lemma UnmodifiableStaysUnmodifiable(m: Manager, k: string, kind: Kind, l: Language, v: Value)
    requires !HasTranslation(m, k) && v.Kind() == kind
    ensures var (m1, t) := GetUnmodifiableTranslation(m, k, kind).value;
            GetTranslation(m1, k, kind) == Failure(UnmodifiableTranslation(Lower(k))) &&
            Set(t, l, v).Failure?
  {
  }

  // ----- Hooking plugins -----

  /** The hooked plugins, keyed by lower-cased plugin name. */
  type Hooks = map<string, Manager>

  /** `hook`: refuses a plugin whose lower-cased name is already hooked,
      otherwise builds its manager and stores it. Loading its files is not
      modelled. */
  function Hook(hooks: Hooks, plugin: string, isLibraryPlugin: bool, defaultLanguage: Language,
                defaultFile: Option<string>, additional: seq<Language>): (r: Result<(Hooks, Manager), StoreError>)
    ensures r.Failure? <==> Lower(plugin) in hooks
    ensures r.Failure? ==> r.error == AlreadyHooked(plugin)
    ensures r.Success? ==> r.value.1 == NewManager(plugin, isLibraryPlugin, defaultLanguage, defaultFile, additional)
    ensures r.Success? ==> r.value.0 == hooks[Lower(plugin) := r.value.1]
  {
    if Lower(plugin) in hooks then Failure(AlreadyHooked(plugin))
    else
      var m := NewManager(plugin, isLibraryPlugin, defaultLanguage, defaultFile, additional);
      Success((hooks[Lower(plugin) := m], m))
  }

  /** `getPluginManager(String)`: lookup by lower-cased name. */
  function GetPluginManager(hooks: Hooks, plugin: string): (r: Result<Manager, StoreError>)
    ensures r.Success? <==> Lower(plugin) in hooks
    ensures r.Success? ==> r.value == hooks[Lower(plugin)]
    ensures r.Failure? ==> r.error == NotHooked(plugin)
  {
    if Lower(plugin) in hooks then Success(hooks[Lower(plugin)]) else Failure(NotHooked(plugin))
  }

  /** A hooked plugin is found under any spelling of its name, and cannot be
      hooked a second time under any spelling. */
  lemma HookThenFind(hooks: Hooks, plugin: string, other: string, isLib: bool, d: Language,
                     f: Option<string>, additional: seq<Language>, isLib2: bool)
    requires Lower(plugin) !in hooks
    requires EqualsIgnoreCase(plugin, other)
    ensures var (h1, m) := Hook(hooks, plugin, isLib, d, f, additional).value;
            GetPluginManager(h1, other) == Success(m) &&
            Hook(h1, other, isLib2, d, f, additional).Failure?
  {
  }

  /** `disable` as written: removes the entry stored under the plugin's name
      as typed, while `hook` stored it under the lower-cased name. */
  function UnhookAsWritten(hooks: Hooks, m: Manager): (r: Hooks)
    ensures m.plugin in hooks && hooks[m.plugin] == m ==> r == hooks - {m.plugin}
    ensures !(m.plugin in hooks && hooks[m.plugin] == m) ==> r == hooks
  {
    if m.plugin in hooks && hooks[m.plugin] == m then hooks - {m.plugin} else hooks
  }

  /** `disable` removing the entry under the key `hook` used. */
  function Unhook(hooks: Hooks, m: Manager): (r: Hooks)
    ensures Lower(m.plugin) in hooks && hooks[Lower(m.plugin)] == m ==> Lower(m.plugin) !in r
    ensures forall k :: k in r <==> k in hooks && !(k == Lower(m.plugin) && hooks[k] == m)
    ensures forall k :: k in r ==> r[k] == hooks[k]
    ensures IsLower(m.plugin) ==> r == UnhookAsWritten(hooks, m)
  {
    var k := Lower(m.plugin);
    assert IsLower(m.plugin) ==> k == m.plugin by {
      if IsLower(m.plugin) { LowerOfLower(m.plugin); }
    }
    if k in hooks && hooks[k] == m then hooks - {k} else hooks
  }

  /** A plugin whose name has an upper-case letter stays hooked after
      `disable` as written, so it can neither be hooked again nor is its
      manager gone; removing under the lower-cased key frees the name. */
  lemma DisableKeepsMixedCaseHook(d: Language)
    ensures var (h1, m) := Hook(map[], "MyPlugin", false, d, None, []).value;
            GetPluginManager(UnhookAsWritten(h1, m), "MyPlugin") == Success(m) &&
            Hook(UnhookAsWritten(h1, m), "MyPlugin", false, d, None, []).Failure?
    ensures var (h1, m) := Hook(map[], "MyPlugin", false, d, None, []).value;
            GetPluginManager(Unhook(h1, m), "MyPlugin").Failure? &&
            Hook(Unhook(h1, m), "MyPlugin", false, d, None, []).Success?
  {
    LowerMyPlugin();
    var m := NewManager("MyPlugin", false, d, None, []);
    var h1: Hooks := map["myplugin" := m];
    assert Hook(map[], "MyPlugin", false, d, None, []) == Success((h1, m));
    MixedCaseStaysHooked(h1, m);
  }

  lemma LowerMyPlugin()
    ensures Lower("MyPlugin") == "myplugin"
  {
  }

  /** The step behind `DisableKeepsMixedCaseHook`, for the one entry a
      first hook of `MyPlugin` leaves. */
  lemma MixedCaseStaysHooked(h1: Hooks, m: Manager)
    requires Lower("MyPlugin") == "myplugin"
    requires m.plugin == "MyPlugin" && h1 == map["myplugin" := m]
    ensures UnhookAsWritten(h1, m) == h1
    ensures Unhook(h1, m) == map[]
  {
    assert "MyPlugin"[0] != "myplugin"[0];
    assert "MyPlugin" !in h1;
    assert Unhook(h1, m) == h1 - {"myplugin"};
  }
}
