/** Copying translations to and from the shared plugin translations table of
    an external database. The table is modelled by its contents, one row per
    namespaced key and language; the asynchronous tasks run to the end in
    one step, and a task that throws is seen through its five-second
    timeout. */
module Sync {
  import opened Wrappers
  import opened Text
  import opened Values
  import Languages
  import Store
  import Database

  type Language = Languages.Language

  /** A row's payload: the values' JSON array and the translation type. */
  datatype Row = Row(json: JsonArray, kind: Kind)

  /** The plugin translations table: a row per namespaced key and language
      (`set` deletes the pair's rows before inserting, so there is one). */
  type Remote = map<(string, Language), Row>

  datatype SyncError =
    /** `NotExternalDatabaseException`: the backend is local. */
    | NotExternal
    /** `EmptyResultException`: the query gave nothing to read. */
    | EmptyResult
    /** An `SQLException` from the query. */
    | SqlFailure
    /** The task threw after the query, so its future ends by timing out. */
    | TimedOut
    /** `fromJson` threw on the caller's thread: a STRING read from an
        empty array. */
    | ParseFailed

  /** A namespaced key's text: the plugin's lower-cased name, a colon, the
      translation's key. */
  function NamespacedKey(plugin: string, key: string): (r: string)
    ensures StartsWith(r, Lower(plugin) + ":")
    ensures r[|Lower(plugin)| + 1..] == key
  {
    Lower(plugin) + ":" + key
  }

  /** Within one plugin, distinct keys have distinct namespaced keys. */
  lemma NamespacedKeyInjective(plugin: string, a: string, b: string)
    requires NamespacedKey(plugin, a) == NamespacedKey(plugin, b)
    ensures a == b
  {
  }

  /** The row `uploadToDatabase` writes for a translation's value. */
  function RowFor(t: Store.Translation, l: Language): Row
    requires l in t.values
  {
    Row(ToJson(t.values[l]), t.kind)
  }

  /** `uploadToDatabase`: refused on a local backend; a language without a
      value writes nothing; otherwise the value's row replaces the pair's. */
  function Upload(dbType: Database.DatabaseType, plugin: string, t: Store.Translation, l: Language,
                  remote: Remote): (r: Result<Remote, SyncError>)
    ensures r.Failure? <==> dbType.IsLocal()
    ensures r.Failure? ==> r.error == NotExternal
    ensures r.Success? ==> forall rk :: rk != (NamespacedKey(plugin, t.key), l) ==>
      (rk in r.value <==> rk in remote) && (rk in remote ==> r.value[rk] == remote[rk])
    ensures r.Success? && l !in t.values ==> r.value == remote
    ensures r.Success? && l in t.values ==>
      (NamespacedKey(plugin, t.key), l) in r.value && r.value[(NamespacedKey(plugin, t.key), l)] == RowFor(t, l)
  {
    if dbType.IsLocal() then Failure(NotExternal)
    else if l !in t.values then Success(remote)
    else Success(remote[(NamespacedKey(plugin, t.key), l) := RowFor(t, l)])
  }

  /** `downloadFromDatabase`: refused on a local backend; the pair's row,
      when there is one, is read with the translation's own type and
      cached. An empty array read as a STRING throws. */
  function DownloadOne(dbType: Database.DatabaseType, plugin: string, t: Store.Translation, l: Language,
                       remote: Remote): (r: Result<Store.Translation, SyncError>)
    requires Store.Typed(t)
    ensures r.Failure? && r.error == NotExternal <==> dbType.IsLocal()
    ensures r.Success? ==> Store.Typed(r.value) && r.value.key == t.key && r.value.kind == t.kind
    ensures r.Success? ==> forall x :: x != l ==> (x in r.value.values <==> x in t.values)
    ensures (NamespacedKey(plugin, t.key), l) !in remote && !dbType.IsLocal() ==> r == Success(t)
    ensures r.Failure? && r.error != NotExternal ==>
      r.error == ParseFailed && t.kind == STRING && remote[(NamespacedKey(plugin, t.key), l)].json == []
    ensures r.Success? && (NamespacedKey(plugin, t.key), l) in remote ==>
      l in r.value.values && Some(r.value.values[l]) == FromJson(t.kind, remote[(NamespacedKey(plugin, t.key), l)].json)
  {
    if dbType.IsLocal() then Failure(NotExternal)
    else
      var rk := (NamespacedKey(plugin, t.key), l);
      if rk !in remote then Success(t)
      else match FromJson(t.kind, remote[rk].json)
        case None => Failure(ParseFailed)
        case Some(v) => Success(Store.SetCache(t, l, v))
  }

  /** Uploading a value and reading it back restores it, whatever the
      translation held for the language in between. */
  lemma UploadThenDownload(plugin: string, t: Store.Translation, later: Store.Translation, l: Language,
                           remote: Remote)
    requires Store.Typed(t) && Store.Typed(later) && later.key == t.key && later.kind == t.kind
    requires l in t.values
    ensures var up := Upload(Database.MYSQL, plugin, t, l, remote).value;
            var down := DownloadOne(Database.MYSQL, plugin, later, l, up);
            down.Success? && down.value.values[l] == t.values[l]
  {
    JsonRoundTrip(t.values[l]);
  }

  /** `set`: the value is cached, then uploaded in the background; on a
      local backend the upload's refusal is swallowed and the table is left
      as it was. The unmodifiable variant refuses before anything happens. */
  function SetAndUpload(dbType: Database.DatabaseType, plugin: string, t: Store.Translation, l: Language,
                        v: Value, remote: Remote): (r: Result<(Store.Translation, Remote), Store.StoreError>)
    requires v.Kind() == t.kind
    ensures r.Failure? <==> !t.modifiable
    ensures r.Success? ==> l in r.value.0.values && r.value.0.values[l] == v && r.value.0.key == t.key
    ensures r.Success? && dbType.IsLocal() ==> r.value.1 == remote
    ensures r.Success? && !dbType.IsLocal() ==>
      (NamespacedKey(plugin, t.key), l) in r.value.1 && r.value.1[(NamespacedKey(plugin, t.key), l)] == Row(ToJson(v), t.kind)
  {
    var t1 :- Store.Set(t, l, v);
    match Upload(dbType, plugin, t1, l, remote)
    case Failure(_) => Success((t1, remote))
    case Success(up) => Success((t1, up))
  }

  /** The rows `translations` produces for the languages `only` admits:
      every language when it is absent. */
  function RowsOf(plugin: string, t: Store.Translation, only: Option<Language>): (r: Remote)
    ensures forall rk :: rk in r <==>
      rk.0 == NamespacedKey(plugin, t.key) && rk.1 in t.values && (only.None? || rk.1 == only.value)
    ensures forall rk :: rk in r ==> r[rk] == RowFor(t, rk.1)
  {
    map l | l in t.values && (only.None? || l == only.value)
      :: (NamespacedKey(plugin, t.key), l) := RowFor(t, l)
  }

  /** The upload loop over the manager's translations in iteration order. */
  function UploadEach(plugin: string, ts: map<string, Store.Translation>, order: seq<string>,
                      only: Option<Language>, remote: Remote): (r: Remote)
    ensures forall rk: (string, Language) :: !StartsWith(rk.0, Lower(plugin) + ":") ==>
      (rk in r <==> rk in remote) && (rk in remote ==> r[rk] == remote[rk])
    ensures only.Some? ==> forall rk: (string, Language) :: rk.1 != only.value ==>
      (rk in r <==> rk in remote) && (rk in remote ==> r[rk] == remote[rk])
    decreases |order|
  {
    if order == [] then remote
    else
      var next := if order[0] in ts then remote + RowsOf(plugin, ts[order[0]], only) else remote;
      UploadEach(plugin, ts, order[1..], only, next)
  }

  /** After the loop every translation visited has its row for every
      admitted language it has a value in. */
  lemma {:induction false} UploadEachWrites(plugin: string, ts: map<string, Store.Translation>, order: seq<string>,
                                            only: Option<Language>, remote: Remote, k: string, l: Language)
    requires forall x :: x in ts ==> ts[x].key == x
    requires k in order && k in ts && l in ts[k].values && (only.None? || l == only.value)
    ensures (NamespacedKey(plugin, k), l) in UploadEach(plugin, ts, order, only, remote)
    ensures UploadEach(plugin, ts, order, only, remote)[(NamespacedKey(plugin, k), l)] == RowFor(ts[k], l)
    decreases |order|
  {
    var rk := (NamespacedKey(plugin, k), l);
    var next := if order[0] in ts then remote + RowsOf(plugin, ts[order[0]], only) else remote;
    if order[0] == k {
      assert rk in next && next[rk] == RowFor(ts[k], l);
      if k in order[1..] {
        UploadEachWrites(plugin, ts, order[1..], only, next, k, l);
      } else {
        UploadEachKeeps(plugin, ts, order[1..], only, next, k, l);
      }
    } else {
      assert k in order[1..];
      UploadEachWrites(plugin, ts, order[1..], only, next, k, l);
    }
  }

  /** A row the loop has written is not overwritten by other keys' rows. */
  lemma {:induction false} UploadEachKeeps(plugin: string, ts: map<string, Store.Translation>, order: seq<string>,
                                           only: Option<Language>, remote: Remote, k: string, l: Language)
    requires forall x :: x in ts ==> ts[x].key == x
    requires k !in order && (NamespacedKey(plugin, k), l) in remote
    ensures (NamespacedKey(plugin, k), l) in UploadEach(plugin, ts, order, only, remote)
    ensures UploadEach(plugin, ts, order, only, remote)[(NamespacedKey(plugin, k), l)]
         == remote[(NamespacedKey(plugin, k), l)]
    decreases |order|
  {
    if order != [] {
      var rk := (NamespacedKey(plugin, k), l);
      var next := if order[0] in ts then remote + RowsOf(plugin, ts[order[0]], only) else remote;
      if order[0] in ts {
        assert rk !in RowsOf(plugin, ts[order[0]], only);
      }
      assert rk in next && next[rk] == remote[rk];
      UploadEachKeeps(plugin, ts, order[1..], only, next, k, l);
    }
  }

  /** The manager's translations in iteration order: each stored key once. */
  predicate Enumerates(m: Store.Manager, order: seq<string>) {
    (forall k :: k in order ==> k in m.translations) && (forall k :: k in m.translations ==> k in order)
  }

  /** `uploadTranslations(language, …)`: refused on a local backend;
      otherwise each translation with a value in the language is uploaded. */
  function UploadLanguage(dbType: Database.DatabaseType, m: Store.Manager, order: seq<string>, l: Language,
                          remote: Remote): (r: Result<Remote, SyncError>)
    requires Enumerates(m, order)
    ensures r.Failure? <==> dbType.IsLocal()
    ensures r.Failure? ==> r.error == NotExternal
    ensures r.Success? ==> forall rk: (string, Language) :: rk.1 != l ==>
      (rk in r.value <==> rk in remote) && (rk in remote ==> r.value[rk] == remote[rk])
  {
    if dbType.IsLocal() then Failure(NotExternal)
    else Success(UploadEach(m.plugin, m.translations, order, Some(l), remote))
  }

  /** `uploadTranslations(…)`: refused on a local backend; otherwise every
      value of every translation is uploaded. */
  function UploadAll(dbType: Database.DatabaseType, m: Store.Manager, order: seq<string>,
                     remote: Remote): (r: Result<Remote, SyncError>)
    requires Enumerates(m, order)
    ensures r.Failure? <==> dbType.IsLocal()
    ensures r.Failure? ==> r.error == NotExternal
  {
    if dbType.IsLocal() then Failure(NotExternal)
    else Success(UploadEach(m.plugin, m.translations, order, None, remote))
  }

  /** After an upload the table holds each translation's value under its
      namespaced key: for the one language, or for all of them. */
  lemma UploadsArePlaced(m: Store.Manager, order: seq<string>, remote: Remote, k: string, l: Language)
    requires Store.KeysAgree(m) && Enumerates(m, order)
    requires k in m.translations && l in m.translations[k].values
    ensures var r := UploadLanguage(Database.MYSQL, m, order, l, remote).value;
            (NamespacedKey(m.plugin, k), l) in r && r[(NamespacedKey(m.plugin, k), l)] == RowFor(m.translations[k], l)
    ensures var r := UploadAll(Database.MYSQL, m, order, remote).value;
            (NamespacedKey(m.plugin, k), l) in r && r[(NamespacedKey(m.plugin, k), l)] == RowFor(m.translations[k], l)
  {
    UploadEachWrites(m.plugin, m.translations, order, Some(l), remote, k, l);
    UploadEachWrites(m.plugin, m.translations, order, None, remote, k, l);
  }

  /** A row's translation cell: SQL NULL, text that does not parse as a
      JSON array (reading it throws), or an array. */
  datatype JsonCell = NullCell | NotArray | ArrayCell(items: JsonArray)

  /** A row the download query returns. The language, key and type columns
      may read as nothing: a language that is not registered, a key outside
      the plugin's namespace, a type name that is not known. The
      single-language query does not select the language column. */
  datatype Fetched = Fetched(language: Option<Language>, key: Option<string>, json: JsonCell, kind: Option<Kind>)

  /** A row the download applies. */
  datatype Entry = Entry(language: Language, key: string, json: JsonArray, kind: Kind)

  /** A download's effect: the manager afterwards (the translations changed
      before a throw stay changed) and the keys of the translations read, or
      how the future failed. */
  datatype Download = Download(manager: Store.Manager, result: Result<set<string>, SyncError>)

  predicate Complete(f: Fetched) {
    f.key.Some? && f.json.ArrayCell? && f.kind.Some?
  }

  /** The array cell is read only once the key is known to be the
      plugin's, so a row throws when its key is and its cell is no array. */
  predicate Unreadable(f: Fetched) {
    f.key.Some? && f.json.NotArray?
  }

  /** Some row of the single-language query throws while it is read. */
  predicate ThrowsFor(fs: seq<Fetched>) {
    exists i :: 0 <= i < |fs| && Unreadable(fs[i])
  }

  /** Some row of the all-languages query throws while it is read: the
      language is checked before the key and the cell. */
  predicate ThrowsOf(available: set<Language>, fs: seq<Fetched>) {
    exists i :: 0 <= i < |fs| && Admitted(available, fs[i]) && Unreadable(fs[i])
  }

  /** The entry a complete row of the single-language query gives. */
  function RowEntry(l: Language, f: Fetched): Entry
    requires Complete(f)
  {
    Entry(l, f.key.value, f.json.items, f.kind.value)
  }

  /** Entry `e` is what some complete row of `fs` gives. */
  predicate FromRow(l: Language, fs: seq<Fetched>, e: Entry) {
    exists i :: 0 <= i < |fs| && Complete(fs[i]) && e == RowEntry(l, fs[i])
  }

  /** The complete rows of the single-language query, for that language,
      and nothing else; `EntriesForAppend` gives their order. */
  function EntriesFor(l: Language, fs: seq<Fetched>): (r: seq<Entry>)
    ensures |r| <= |fs|
    ensures forall i :: 0 <= i < |r| ==> r[i].language == l
    ensures r == [] <==> forall i :: 0 <= i < |fs| ==> !Complete(fs[i])
    ensures forall i :: 0 <= i < |fs| && Complete(fs[i]) ==> RowEntry(l, fs[i]) in r
    ensures forall e :: e in r ==> FromRow(l, fs, e)
  {
    if fs == [] then []
    else
      var rest := EntriesFor(l, fs[1..]);
      assert forall e :: FromRow(l, fs[1..], e) ==> FromRow(l, fs, e) by {
        forall e | FromRow(l, fs[1..], e) ensures FromRow(l, fs, e) {
          var i :| 0 <= i < |fs[1..]| && Complete(fs[1..][i]) && e == RowEntry(l, fs[1..][i]);
          assert fs[i + 1] == fs[1..][i];
        }
      }
      assert forall i :: 1 <= i < |fs| ==> fs[i] == fs[1..][i - 1];
      if Complete(fs[0]) then [RowEntry(l, fs[0])] + rest
      else rest
  }

  /** The rows are read in the order the query returns them: the entries of
      two runs of rows are the entries of the first run, then those of the
      second. */
  lemma {:induction false} EntriesForAppend(l: Language, a: seq<Fetched>, b: seq<Fetched>)
    ensures EntriesFor(l, a + b) == EntriesFor(l, a) + EntriesFor(l, b)
    decreases |a|
  {
    if a != [] {
      var head := if Complete(a[0]) then [RowEntry(l, a[0])] else [];
      assert EntriesFor(l, a + b) == head + EntriesFor(l, a[1..] + b) by {
        assert (a + b)[0] == a[0] && (a + b)[1..] == a[1..] + b;
      }
      assert EntriesFor(l, a) == head + EntriesFor(l, a[1..]);
      EntriesForAppend(l, a[1..], b);
    } else {
      assert a + b == b;
    }
  }

  /** Complete rows none of which is for key `k` give no entry for it. */
  lemma EntriesForUntouched(l: Language, fs: seq<Fetched>, k: string)
    requires forall j :: 0 <= j < |fs| && Complete(fs[j]) ==> Lower(fs[j].key.value) != k
    ensures Untouched(EntriesFor(l, fs), k, l)
  {
    var r := EntriesFor(l, fs);
    forall j | 0 <= j < |r|
      ensures !(Lower(r[j].key) == k && r[j].language == l)
    {
      assert r[j] in r && FromRow(l, fs, r[j]);
      var n :| 0 <= n < |fs| && Complete(fs[n]) && r[j] == RowEntry(l, fs[n]);
    }
  }

  lemma EntriesForOne(l: Language, f: Fetched)
    requires Complete(f)
    ensures EntriesFor(l, [f]) == [RowEntry(l, f)]
  {
    assert [f][1..] == [];
  }

  /** A complete row between two runs of rows gives its entry between
      theirs. */
  lemma EntriesForAround(l: Language, a: seq<Fetched>, f: Fetched, b: seq<Fetched>)
    requires Complete(f)
    ensures EntriesFor(l, a + [f] + b) == EntriesFor(l, a) + [RowEntry(l, f)] + EntriesFor(l, b)
  {
    var x, y, e := EntriesFor(l, a), EntriesFor(l, b), RowEntry(l, f);
    assert EntriesFor(l, [f] + b) == [e] + y by {
      EntriesForOne(l, f);
      EntriesForAppend(l, [f], b);
    }
    assert EntriesFor(l, a + ([f] + b)) == x + ([e] + y) by {
      EntriesForAppend(l, a, [f] + b);
    }
    assert a + [f] + b == a + ([f] + b);
    assert x + ([e] + y) == x + [e] + y;
  }

  /** The last complete row for a key sits in the entries after every
      other complete row, and no entry after it is for the same key. */
  lemma EntriesForLastRow(l: Language, fs: seq<Fetched>, i: nat)
    requires i < |fs| && Complete(fs[i])
    requires forall j :: i < j < |fs| && Complete(fs[j]) ==> Lower(fs[j].key.value) != Lower(fs[i].key.value)
    ensures var r := EntriesFor(l, fs); var p := |EntriesFor(l, fs[..i])|;
            p < |r| && r[p] == RowEntry(l, fs[i]) && LastFor(r, p)
  {
    var a, b := fs[..i], fs[i + 1..];
    var e := RowEntry(l, fs[i]);
    assert fs == a + [fs[i]] + b;
    EntriesForAround(l, a, fs[i], b);
    assert forall j :: 0 <= j < |b| ==> b[j] == fs[i + 1 + j];
    EntriesForUntouched(l, b, Lower(e.key));
    var r := EntriesFor(l, fs);
    var p := |EntriesFor(l, a)|;
    assert r[p] == e;
    assert r[p + 1..] == EntriesFor(l, b);
  }

  /** The rows of the all-languages query whose language is available. */
  predicate Admitted(available: set<Language>, f: Fetched) {
    f.language.Some? && f.language.value in available
  }

  /** The entry a complete row of the all-languages query gives. */
  function EntryOfRow(f: Fetched): Entry
    requires f.language.Some? && Complete(f)
  {
    Entry(f.language.value, f.key.value, f.json.items, f.kind.value)
  }

  /** The complete rows of the all-languages query whose language is
      available, and nothing else. */
  function EntriesOf(available: set<Language>, fs: seq<Fetched>): (r: seq<Entry>)
    ensures |r| <= |fs|
    ensures forall i :: 0 <= i < |r| ==> r[i].language in available
    ensures forall i :: 0 <= i < |fs| && Admitted(available, fs[i]) && Complete(fs[i]) ==> EntryOfRow(fs[i]) in r
    ensures forall e :: e in r ==>
      exists i :: 0 <= i < |fs| && Admitted(available, fs[i]) && Complete(fs[i]) && e == EntryOfRow(fs[i])
  {
    if fs == [] then []
    else
      var rest := EntriesOf(available, fs[1..]);
      assert forall i :: 1 <= i < |fs| ==> fs[i] == fs[1..][i - 1];
      if Admitted(available, fs[0]) && Complete(fs[0]) then [EntryOfRow(fs[0])] + rest
      else rest
  }

  /** The all-languages query's rows are read in order as well. */
  lemma {:induction false} EntriesOfAppend(available: set<Language>, a: seq<Fetched>, b: seq<Fetched>)
    ensures EntriesOf(available, a + b) == EntriesOf(available, a) + EntriesOf(available, b)
    decreases |a|
  {
    if a != [] {
      assert (a + b)[0] == a[0] && (a + b)[1..] == a[1..] + b;
      EntriesOfAppend(available, a[1..], b);
    } else {
      assert a + b == b;
    }
  }

  /** The manager caches `v` for key `k` in language `l`. */
  predicate Caches(m: Store.Manager, k: string, l: Language, v: Value) {
    k in m.translations && l in m.translations[k].values && m.translations[k].values[l] == v
  }

  /** One row of the download loop: the row's array is read with the row's
      type, the translation is fetched (or created) with that type and the
      value is cached. A STRING row with an empty array, an unmodifiable
      translation or one of another type throws and ends the task. */
  function ApplyOne(m: Store.Manager, e: Entry): (r: Result<Store.Manager, SyncError>)
    requires Store.KeysAgree(m)
    ensures r.Success? <==> FromJson(e.kind, e.json).Some? && Store.GetTranslation(m, e.key, e.kind).Success?
    ensures r.Failure? ==> r.error == TimedOut
    ensures r.Success? ==> Store.KeysAgree(r.value) && r.value.plugin == m.plugin && r.value.languages == m.languages
    ensures r.Success? ==> Caches(r.value, Lower(e.key), e.language, FromJson(e.kind, e.json).value)
    ensures r.Success? ==> forall k, l, v :: Caches(m, k, l, v) && !(k == Lower(e.key) && l == e.language) ==>
      Caches(r.value, k, l, v)
  {
    match FromJson(e.kind, e.json)
    case None => Failure(TimedOut)
    case Some(v) =>
      match Store.GetTranslation(m, e.key, e.kind)
      case Failure(_) => Failure(TimedOut)
      case Success((m1, t)) =>
        var key := Lower(e.key);
        LowerTwice(e.key);
        Success(m1.(translations := m1.translations[key := Store.SetCache(t, e.language, v)]))
  }

  /** The download loop over the rows, in order; the first row that throws
      ends it, keeping what earlier rows cached. */
  function Apply(m: Store.Manager, es: seq<Entry>, read: set<string>): (r: Download)
    requires Store.KeysAgree(m)
    ensures Store.KeysAgree(r.manager)
    ensures r.result.Success? ==> read <= r.result.value
    ensures r.manager.plugin == m.plugin && r.manager.languages == m.languages
    decreases |es|
  {
    if es == [] then Download(m, Success(read))
    else
      match ApplyOne(m, es[0])
      case Failure(err) => Download(m, Failure(err))
      case Success(m2) => Apply(m2, es[1..], read + {Lower(es[0].key)})
  }

  /** No row of `es` is for key `k` in language `l`. */
  predicate Untouched(es: seq<Entry>, k: string, l: Language) {
    forall j :: 0 <= j < |es| ==> !(Lower(es[j].key) == k && es[j].language == l)
  }

  /** Row `i` is the last one for its key and language. */
  predicate LastFor(es: seq<Entry>, i: nat)
    requires i < |es|
  {
    Untouched(es[i + 1..], Lower(es[i].key), es[i].language)
  }

  /** A download that succeeds leaves every value that no row writes as it
      was. */
  lemma {:induction false} ApplyKeeps(m: Store.Manager, es: seq<Entry>, read: set<string>,
                                      k: string, l: Language, v: Value)
    requires Store.KeysAgree(m) && Caches(m, k, l, v) && Untouched(es, k, l)
    requires Apply(m, es, read).result.Success?
    ensures Caches(Apply(m, es, read).manager, k, l, v)
    decreases |es|
  {
    if es != [] {
      var m2 := ApplyOne(m, es[0]).value;
      assert Untouched(es[1..], k, l) by {
        forall j | 0 <= j < |es[1..]|
          ensures !(Lower(es[1..][j].key) == k && es[1..][j].language == l)
        {
          assert es[1..][j] == es[j + 1];
        }
      }
      ApplyKeeps(m2, es[1..], read + {Lower(es[0].key)}, k, l, v);
    }
  }

  /** A download that succeeds caches, for each key and language, the value
      read from the last row for it. */
  lemma {:induction false} ApplyCachesLastRow(m: Store.Manager, es: seq<Entry>, read: set<string>, i: nat)
    requires Store.KeysAgree(m) && i < |es| && LastFor(es, i)
    requires Apply(m, es, read).result.Success?
    ensures FromJson(es[i].kind, es[i].json).Some?
    ensures Caches(Apply(m, es, read).manager, Lower(es[i].key), es[i].language,
                   FromJson(es[i].kind, es[i].json).value)
    decreases |es|
  {
    var m2 := ApplyOne(m, es[0]).value;
    var read2 := read + {Lower(es[0].key)};
    if i == 0 {
      ApplyKeeps(m2, es[1..], read2, Lower(es[0].key), es[0].language, FromJson(es[0].kind, es[0].json).value);
    } else {
      assert es[1..][i - 1] == es[i];
      assert es[1..][i - 1 + 1..] == es[i + 1..];
      ApplyCachesLastRow(m2, es[1..], read2, i - 1);
    }
  }

  /** `downloadTranslations(language)`. A cell that is no array throws
      inside the query's reading, which the task does not catch: nothing is
      cached and the future times out. */
  function DownloadLanguage(dbType: Database.DatabaseType, m: Store.Manager, l: Language,
                            fetched: Option<seq<Fetched>>): (r: Result<Download, SyncError>)
    requires Store.KeysAgree(m)
    ensures r.Failure? <==> dbType.IsLocal()
    ensures r.Failure? ==> r.error == NotExternal
    ensures r.Success? && fetched.None? ==> r.value == Download(m, Failure(SqlFailure))
    ensures r.Success? && fetched.Some? && ThrowsFor(fetched.value) ==> r.value == Download(m, Failure(TimedOut))
    ensures r.Success? && fetched.Some? && !ThrowsFor(fetched.value) &&
            (forall i :: 0 <= i < |fetched.value| ==> !Complete(fetched.value[i])) ==>
      r.value == Download(m, Failure(EmptyResult))
  {
    if dbType.IsLocal() then Failure(NotExternal)
    else if fetched.None? then Success(Download(m, Failure(SqlFailure)))
    else if ThrowsFor(fetched.value) then Success(Download(m, Failure(TimedOut)))
    else
      var es := EntriesFor(l, fetched.value);
      if es == [] then Success(Download(m, Failure(EmptyResult)))
      else Success(Apply(m, es, {}))
  }

  /** A single-language download that finishes caches, for each key, the
      value of the last complete row for it. */
  lemma DownloadLanguageCachesLastRow(m: Store.Manager, l: Language, fs: seq<Fetched>, i: nat)
    requires Store.KeysAgree(m)
    requires i < |fs| && Complete(fs[i])
    requires forall j :: i < j < |fs| && Complete(fs[j]) ==> Lower(fs[j].key.value) != Lower(fs[i].key.value)
    requires DownloadLanguage(Database.MYSQL, m, l, Some(fs)).value.result.Success?
    ensures FromJson(fs[i].kind.value, fs[i].json.items).Some?
    ensures Caches(DownloadLanguage(Database.MYSQL, m, l, Some(fs)).value.manager, Lower(fs[i].key.value), l,
                   FromJson(fs[i].kind.value, fs[i].json.items).value)
  {
    var es := EntriesFor(l, fs);
    EntriesForLastRow(l, fs, i);
    var p := |EntriesFor(l, fs[..i])|;
    ApplyCachesLastRow(m, es, {}, p);
  }

  /** `downloadTranslations()`: the emptiness test looks at the languages
      found, before incomplete rows are dropped, so available-language rows
      that are all incomplete give an empty success. A cell that is no
      array, in a row of an available language, times the future out. */
  function DownloadAll(dbType: Database.DatabaseType, m: Store.Manager, available: set<Language>,
                       fetched: Option<seq<Fetched>>): (r: Result<Download, SyncError>)
    requires Store.KeysAgree(m)
    ensures r.Failure? <==> dbType.IsLocal()
    ensures r.Failure? ==> r.error == NotExternal
    ensures r.Success? && fetched.None? ==> r.value == Download(m, Failure(SqlFailure))
    ensures r.Success? && fetched.Some? && ThrowsOf(available, fetched.value) ==>
      r.value == Download(m, Failure(TimedOut))
    ensures r.Success? && fetched.Some? && (forall i :: 0 <= i < |fetched.value| ==> !Admitted(available, fetched.value[i])) ==>
      r.value == Download(m, Failure(EmptyResult))
  {
    if dbType.IsLocal() then Failure(NotExternal)
    else if fetched.None? then Success(Download(m, Failure(SqlFailure)))
    else if ThrowsOf(available, fetched.value) then Success(Download(m, Failure(TimedOut)))
    else if forall i :: 0 <= i < |fetched.value| ==> !Admitted(available, fetched.value[i]) then
      Success(Download(m, Failure(EmptyResult)))
    else Success(Apply(m, EntriesOf(available, fetched.value), {}))
  }

  /** Available-language rows that are all incomplete: the download
      succeeds, reads nothing and changes nothing. */
  lemma IncompleteRowsGiveEmptySuccess(m: Store.Manager, l: Language, f: Fetched)
    requires Store.KeysAgree(m)
    requires f.language == Some(l) && !Complete(f) && !Unreadable(f)
    ensures DownloadAll(Database.MYSQL, m, {l}, Some([f])) == Success(Download(m, Success({})))
    ensures DownloadLanguage(Database.MYSQL, m, l, Some([f])) == Success(Download(m, Failure(EmptyResult)))
  {
    assert Admitted({l}, f);
    assert EntriesOf({l}, [f]) == [];
    assert EntriesFor(l, [f]) == [];
  }

  /** One row of the plugin whose cell is no array makes the downloads time
      out with nothing cached, whatever the complete rows around it hold
      (the all-languages one when the row's language is available). */
  lemma UnreadableCellTimesOut(m: Store.Manager, available: set<Language>, l: Language,
                               before: seq<Fetched>, f: Fetched, after: seq<Fetched>)
    requires Store.KeysAgree(m)
    requires f.key.Some? && f.json == NotArray
    ensures DownloadLanguage(Database.MYSQL, m, l, Some(before + [f] + after)) == Success(Download(m, Failure(TimedOut)))
    ensures f.language.Some? && f.language.value in available ==>
      DownloadAll(Database.MYSQL, m, available, Some(before + [f] + after)) == Success(Download(m, Failure(TimedOut)))
  {
    var fs := before + [f] + after;
    assert fs[|before|] == f;
  }

  /** A row skipped before its cell is read cannot throw: a key outside the
      plugin's namespace in either query, or a language that is not
      available in the all-languages one. */
  lemma SkippedRowsDoNotThrow(available: set<Language>, f: Fetched)
    requires f.json == NotArray
    ensures f.key.None? ==> !ThrowsFor([f]) && !ThrowsOf(available, [f])
    ensures !Admitted(available, f) ==> !ThrowsOf(available, [f])
  {
  }

  /** The entry that reads back a translation's value in a language. */
  function EntryOf(t: Store.Translation, l: Language): Entry
    requires l in t.values
  {
    Entry(l, t.key, ToJson(t.values[l]), t.kind)
  }

  /** The keys of the entries. */
  function KeysOf(es: seq<Entry>): (r: set<string>)
    ensures forall i :: 0 <= i < |es| ==> es[i].key in r
    ensures forall k :: k in r ==> exists i :: 0 <= i < |es| && es[i].key == k
  {
    if es == [] then {} else {es[0].key} + KeysOf(es[1..])
  }

  /** Reading back what a manager's modifiable translations hold changes
      nothing and reports every key read. */
  lemma {:induction false} DownloadOwnValuesIsNoOp(m: Store.Manager, es: seq<Entry>, read: set<string>)
    requires Store.KeysAgree(m)
    requires forall i :: 0 <= i < |es| ==>
      && es[i].key in m.translations && m.translations[es[i].key].modifiable
      && es[i].language in m.translations[es[i].key].values
      && es[i] == EntryOf(m.translations[es[i].key], es[i].language)
    ensures Apply(m, es, read) == Download(m, Success(read + KeysOf(es)))
    decreases |es|
  {
    if es != [] {
      OwnEntryIsNoOp(m, es, read);
      assert forall i :: 0 <= i < |es[1..]| ==> es[1..][i] == es[i + 1];
      DownloadOwnValuesIsNoOp(m, es[1..], read + {es[0].key});
      KeysOfStep(es, read);
    } else {
      assert KeysOf(es) == {} && read + {} == read;
    }
  }

  lemma KeysOfStep(es: seq<Entry>, read: set<string>)
    requires es != []
    ensures read + {es[0].key} + KeysOf(es[1..]) == read + KeysOf(es)
  {
    assert KeysOf(es) == {es[0].key} + KeysOf(es[1..]);
  }

  /** Applying an entry made from the manager's own value changes nothing
      but the set of keys read. */
  lemma OwnEntryIsNoOp(m: Store.Manager, es: seq<Entry>, read: set<string>)
    requires Store.KeysAgree(m) && es != []
    requires es[0].key in m.translations && m.translations[es[0].key].modifiable
    requires es[0].language in m.translations[es[0].key].values
    requires es[0] == EntryOf(m.translations[es[0].key], es[0].language)
    ensures Apply(m, es, read) == Apply(m, es[1..], read + {es[0].key})
  {
    var e := es[0];
    var t := m.translations[e.key];
    JsonRoundTrip(t.values[e.language]);
    LowerOfLower(e.key);
    var v := t.values[e.language];
    assert FromJson(e.kind, e.json) == Some(v);
    assert Store.GetTranslation(m, e.key, e.kind) == Success((m, t));
    assert Store.SetCache(t, e.language, v) == t;
    assert m.translations[e.key := t] == m.translations;
    assert m.(translations := m.translations[Lower(e.key) := Store.SetCache(t, e.language, v)]) == m;
  }

  /** An unmodifiable translation's rows are uploaded like any other, but
      reading one back throws, so the download times out. */
  lemma UnmodifiableRowTimesOut(m: Store.Manager, k: string, l: Language)
    requires Store.KeysAgree(m)
    requires k in m.translations && !m.translations[k].modifiable && l in m.translations[k].values
    ensures Apply(m, [EntryOf(m.translations[k], l)], {}) == Download(m, Failure(TimedOut))
  {
    var t := m.translations[k];
    JsonRoundTrip(t.values[l]);
    LowerOfLower(k);
  }
}
