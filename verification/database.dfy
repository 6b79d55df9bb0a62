/** The storage layer's SQL text: tables as ordered column declarations with
    at most one primary column, the column-list and parameter-list builders,
    `CREATE TABLE`, and the guards that keep the server-wide tables off a
    local database. Executing the statements is not modelled. */
module Database {
  import opened Wrappers
  import opened Text
  import Languages
  import Values

  /** `Database.Type`. */
  datatype DatabaseType = SQLITE | MYSQL {
    /** `isLocal`: only SQLite keeps its data on the server's disk; MySQL is
      the one external backend. */
    predicate IsLocal()
      ensures IsLocal() <==> this != MYSQL
    {
      this == SQLITE
    }
  }

  /** `Column.Type`: the SQL type a column is declared with. */
  datatype ColumnType = TEXT | INT | VARCHAR {
    function Format(): string {
      match this
      case TEXT => "TEXT"
      case INT => "INT"
      case VARCHAR => "VARCHAR"
    }
  }

  /** A column's declaration: its name, SQL type and optional length. */
  datatype Column = Column(name: string, columnType: ColumnType, length: Option<nat>)

  /** A table: its name, its columns in declaration order (which is also the
      order of the positional statement parameters) and its primary column. */
  datatype Table = Table(name: string, columns: seq<Column>, primary: Option<Column>)

  datatype DatabaseError =
    /** `Validate.isTrue` failing: a second primary column. */
    | PrimaryTaken
    /** `NotExternalDatabaseException`. */
    | NotExternal

  /** A column declaration as the constructors make it: a plain `Column` or
      a `PrimaryColumn`. */
  datatype Declaration = Plain(column: Column) | Primary(column: Column)

  /** A column's constructor: the column joins the table's list. A primary
      column is refused when the table already has one. */
  function Declare(t: Table, d: Declaration): (r: Result<Table, DatabaseError>)
    ensures r.Failure? <==> d.Primary? && t.primary.Some?
    ensures r.Failure? ==> r.error == PrimaryTaken
    ensures r.Success? ==> r.value.name == t.name && r.value.columns == t.columns + [d.column]
    ensures r.Success? && d.Plain? ==> r.value.primary == t.primary
    ensures r.Success? && d.Primary? ==> r.value.primary == Some(d.column)
  {
    match d
    case Plain(c) => Success(t.(columns := t.columns + [c]))
    case Primary(c) =>
      if t.primary.Some? then Failure(PrimaryTaken)
      else Success(t.(columns := t.columns + [c], primary := Some(c)))
  }

  /** The declarations made one after another; the first failure ends it. */
  function DeclareAll(t: Table, ds: seq<Declaration>): Result<Table, DatabaseError>
    decreases |ds|
  {
    if ds == [] then Success(t)
    else
      var next :- Declare(t, ds[0]);
      DeclareAll(next, ds[1..])
  }

  function PrimaryCount(ds: seq<Declaration>): nat {
    if ds == [] then 0 else (if ds[0].Primary? then 1 else 0) + PrimaryCount(ds[1..])
  }

  function ColumnsOf(ds: seq<Declaration>): (r: seq<Column>)
    ensures |r| == |ds| && forall i :: 0 <= i < |ds| ==> r[i] == ds[i].column
  {
    if ds == [] then [] else [ds[0].column] + ColumnsOf(ds[1..])
  }

  /** The primary declaration among `ds`, if any. */
  function PrimaryOf(ds: seq<Declaration>): Option<Column> {
    if ds == [] then None
    else if ds[0].Primary? then Some(ds[0].column)
    else PrimaryOf(ds[1..])
  }

  /** One declaration step of `DeclareAll`. */
  lemma DeclareAllStep(t: Table, ds: seq<Declaration>)
    requires ds != []
    ensures Declare(t, ds[0]).Failure? ==> DeclareAll(t, ds).Failure?
    ensures Declare(t, ds[0]).Success? ==> DeclareAll(t, ds) == DeclareAll(Declare(t, ds[0]).value, ds[1..])
  {
  }

  /** The first declaration's column moves from the list to the table. */
  lemma ColumnsStep(cols: seq<Column>, ds: seq<Declaration>)
    requires ds != []
    ensures cols + ColumnsOf(ds) == (cols + [ds[0].column]) + ColumnsOf(ds[1..])
    ensures PrimaryCount(ds) == (if ds[0].Primary? then 1 else 0) + PrimaryCount(ds[1..])
    ensures PrimaryOf(ds) == if ds[0].Primary? then Some(ds[0].column) else PrimaryOf(ds[1..])
  {
    assert ColumnsOf(ds) == [ds[0].column] + ColumnsOf(ds[1..]);
    ColumnsAssoc(cols, ds[0].column, ColumnsOf(ds[1..]));
  }

  lemma ColumnsAssoc(cols: seq<Column>, c: Column, rest: seq<Column>)
    ensures cols + ([c] + rest) == (cols + [c]) + rest
  {
  }

  /** A table has at most one primary column: declaring columns succeeds
      exactly when at most one of them is primary, and then the table holds
      every column in declaration order and the primary one as its primary. */
  lemma {:induction false} DeclarationOrder(t: Table, ds: seq<Declaration>)
    requires t.primary.None?
    ensures DeclareAll(t, ds).Success? <==> PrimaryCount(ds) <= 1
    ensures DeclareAll(t, ds).Success? ==>
      DeclareAll(t, ds).value == Table(t.name, t.columns + ColumnsOf(ds), PrimaryOf(ds))
    decreases |ds|
  {
    if ds != [] {
      var next := Declare(t, ds[0]).value;
      DeclareAllStep(t, ds);
      ColumnsStep(t.columns, ds);
      if ds[0].Primary? {
        AfterPrimary(next, ds[1..]);
      } else {
        DeclarationOrder(next, ds[1..]);
      }
    }
  }

  /** Once a primary column is declared, the rest succeeds exactly when none
      of it is primary, and keeps that primary. */
  lemma {:induction false} AfterPrimary(t: Table, ds: seq<Declaration>)
    requires t.primary.Some?
    ensures DeclareAll(t, ds).Success? <==> PrimaryCount(ds) == 0
    ensures DeclareAll(t, ds).Success? ==>
      DeclareAll(t, ds).value == Table(t.name, t.columns + ColumnsOf(ds), t.primary)
    ensures PrimaryCount(ds) == 0 ==> PrimaryOf(ds).None?
    decreases |ds|
  {
    if ds != [] {
      DeclareAllStep(t, ds);
      ColumnsStep(t.columns, ds);
      if ds[0].Plain? {
        AfterPrimary(Declare(t, ds[0]).value, ds[1..]);
      }
    }
  }

  /** The text the builders' loops accumulate: `", " + entry` per entry. */
  function Accumulated(entries: seq<string>): string {
    if entries == [] then "" else ", " + entries[0] + Accumulated(entries[1..])
  }

  lemma {:induction false} AccumulatedIsJoin(entries: seq<string>)
    requires entries != []
    ensures Accumulated(entries) == ", " + Join(entries, ", ")
    decreases |entries|
  {
    if |entries| > 1 {
      AccumulatedIsJoin(entries[1..]);
    }
  }

  /** The builders' last step: the accumulated text with its first `", "`
      removed (`replaceFirst`, whose pattern has no regex metacharacter).
      The result is the entries joined by `", "`. */
  function CommaList(entries: seq<string>): (r: string)
    ensures r == Join(entries, ", ")
  {
    SeparatorInFront(entries);
    ReplaceFirst(Accumulated(entries), ", ", "")
  }

  lemma SeparatorInFront(entries: seq<string>)
    ensures entries == [] ==> IndexOf(Accumulated(entries), ", ").None?
    ensures entries != [] ==>
      && IndexOf(Accumulated(entries), ", ") == Some(0)
      && Accumulated(entries)[2..] == Join(entries, ", ")
  {
    var s := Accumulated(entries);
    if entries != [] {
      AccumulatedIsJoin(entries);
      assert OccursAt(s, ", ", 0);
      IndexOfWitness(s, ", ", 0);
    }
  }

  /** `getValuesEmptySyntax`: one `?` per column, comma-separated. */
  function ValuesEmptySyntax(columns: seq<Column>): (r: string)
    ensures r == Join(Marks(|columns|), ", ")
  {
    CommaList(seq(|columns|, _ => "?"))
  }

  function Marks(n: nat): (r: seq<string>)
    ensures |r| == n && forall i :: 0 <= i < n ==> r[i] == "?"
  {
    seq(n, _ => "?")
  }

  /** The parameter list read character by character: `?` at every third
      position, `", "` between, so there are exactly as many `?` as
      columns, and none at all for no columns. */
  lemma {:induction false} ParameterMarks(n: nat)
    ensures n == 0 ==> Join(Marks(n), ", ") == ""
    ensures n > 0 ==> |Join(Marks(n), ", ")| == 3 * n - 2
    ensures forall i :: 0 <= i < |Join(Marks(n), ", ")| ==>
      Join(Marks(n), ", ")[i] == (if i % 3 == 0 then '?' else if i % 3 == 1 then ',' else ' ')
    decreases n
  {
    var s := Join(Marks(n), ", ");
    if n > 1 {
      ParameterMarks(n - 1);
      assert Marks(n)[1..] == Marks(n - 1);
      var rest := Join(Marks(n - 1), ", ");
      assert s == "?, " + rest;
      forall i | 0 <= i < |s|
        ensures s[i] == (if i % 3 == 0 then '?' else if i % 3 == 1 then ',' else ' ')
      {
        if i >= 3 {
          assert s[i] == rest[i - 3];
        }
      }
    }
  }

  /** `(len)` when the column has a length. */
  function LengthSuffix(length: Option<nat>): string {
    match length
    case None => ""
    case Some(n) => "(" + NatToString(n) + ")"
  }

  /** One entry of the column list: the name, and with types the SQL type
      and the length. */
  function Entry(withType: bool, c: Column): string {
    if withType then c.name + " " + c.columnType.Format() + LengthSuffix(c.length) else c.name
  }

  function Entries(withType: bool, columns: seq<Column>): (r: seq<string>)
    ensures |r| == |columns|
  {
    seq(|columns|, i requires 0 <= i < |columns| => Entry(withType, columns[i]))
  }

  /** `getVariablesSyntax`: the columns' entries, comma-separated. */
  function VariablesSyntax(withType: bool, columns: seq<Column>): (r: string)
    ensures r == Join(Entries(withType, columns), ", ")
  {
    CommaList(Entries(withType, columns))
  }

  /** The column list of a single column is its entry: no stray separator. */
  lemma SingleColumnSyntax(withType: bool, c: Column)
    ensures VariablesSyntax(withType, [c]) == Entry(withType, c)
    ensures ValuesEmptySyntax([c]) == "?"
  {
    assert Entries(withType, [c]) == [Entry(withType, c)];
    assert Marks(1) == ["?"];
  }

  /** The primary key clause `create` appends; the key's length is written
      only for MySQL. */
  function KeyClause(dbType: DatabaseType, primary: Option<Column>): (r: string)
    ensures primary.None? ==> r == ""
    ensures primary.Some? && (dbType == SQLITE || primary.value.length.None?) ==>
      r == ", PRIMARY KEY (" + primary.value.name + ")"
    ensures primary.Some? && dbType == MYSQL && primary.value.length.Some? ==>
      r == ", PRIMARY KEY (" + primary.value.name + "(" + NatToString(primary.value.length.value) + "))"
  {
    match primary
    case None => ""
    case Some(p) =>
      var len := if p.length.Some? && dbType == MYSQL then "(" + NatToString(p.length.value) + ")" else "";
      ", PRIMARY KEY (" + p.name + len + ")"
  }

  /** `Table.create`'s statement: the table's name, its columns with their
      types, and the primary key clause, inside one pair of brackets. */
  function CreateSql(dbType: DatabaseType, t: Table): (r: string)
    ensures StartsWith(r, "CREATE TABLE IF NOT EXISTS " + t.name + " (")
    ensures EndsWith(r, ")")
    ensures var front := "CREATE TABLE IF NOT EXISTS " + t.name + " (" + VariablesSyntax(true, t.columns);
      && (t.primary.None? ==> r == front + ")")
      && (t.primary.Some? && (dbType == SQLITE || t.primary.value.length.None?) ==>
            r == front + ", PRIMARY KEY (" + t.primary.value.name + "))")
      && (t.primary.Some? && dbType == MYSQL && t.primary.value.length.Some? ==>
            r == front + ", PRIMARY KEY (" + t.primary.value.name + "(" + NatToString(t.primary.value.length.value) + ")))")
  {
    var front := "CREATE TABLE IF NOT EXISTS " + t.name + " (" + VariablesSyntax(true, t.columns);
    var k := KeyClause(dbType, t.primary);
    var r := front + k + ")";
    assert r[..|"CREATE TABLE IF NOT EXISTS " + t.name + " ("|] == "CREATE TABLE IF NOT EXISTS " + t.name + " (";
    if t.primary.Some? then KeyClosing(dbType, t.primary.value, front); r else r
  }

  /** The primary key clause followed by the statement's closing bracket. */
  lemma KeyClosing(dbType: DatabaseType, p: Column, front: string)
    ensures p.length.None? || dbType == SQLITE ==>
      front + KeyClause(dbType, Some(p)) + ")" == front + ", PRIMARY KEY (" + p.name + "))"
    ensures p.length.Some? && dbType == MYSQL ==>
      front + KeyClause(dbType, Some(p)) + ")" == front + ", PRIMARY KEY (" + p.name + "(" + NatToString(p.length.value) + ")))"
  {
    var k := ", PRIMARY KEY (" + p.name;
    if p.length.Some? && dbType == MYSQL {
      var n := NatToString(p.length.value);
      assert KeyClause(dbType, Some(p)) == k + "(" + n + "))";
      CloseAfter(front, k, "(" + n + "))");
      assert "(" + n + "))" + ")" == "(" + n + ")))";
    } else {
      assert KeyClause(dbType, Some(p)) == k + ")";
      CloseAfter(front, k, ")");
    }
  }

  lemma CloseAfter(front: string, k: string, tail: string)
    ensures front + (k + tail) + ")" == front + k + (tail + ")")
  {
  }

  /** Without a primary key length the two backends' statements agree. */
  lemma BackendsAgreeWithoutKeyLength(t: Table)
    requires t.primary.None? || t.primary.value.length.None?
    ensures CreateSql(SQLITE, t) == CreateSql(MYSQL, t)
  {
    assert KeyClause(SQLITE, t.primary) == KeyClause(MYSQL, t.primary);
  }

  /** With a primary key length, the statements differ only there: the
      MySQL one carries the length after the key's name. */
  lemma KeyLengthOnlyOnMysql(t: Table)
    requires t.primary.Some? && t.primary.value.length.Some?
    ensures var head := "CREATE TABLE IF NOT EXISTS " + t.name + " (" + VariablesSyntax(true, t.columns)
                        + ", PRIMARY KEY (" + t.primary.value.name;
      && CreateSql(SQLITE, t) == head + "))"
      && CreateSql(MYSQL, t) == head + "(" + NatToString(t.primary.value.length.value) + ")))"
  {
  }

  /** The `REPLACE INTO` statement the tables' setters prepare: every
      column named, one parameter per column, in declaration order. */
  function ReplaceIntoSql(t: Table): (r: string)
    ensures |t.columns| > 0 ==>
      r == "REPLACE INTO " + t.name + " (" + Join(Entries(false, t.columns), ", ") + ") VALUES ("
           + Join(Marks(|t.columns|), ", ") + ")"
  {
    "REPLACE INTO " + t.name + " (" + VariablesSyntax(false, t.columns) + ") VALUES ("
    + ValuesEmptySyntax(t.columns) + ")"
  }

  function Varchar(name: string, length: nat): Column {
    Column(name, VARCHAR, Some(length))
  }

  /** `PlayerLanguagesTable`'s declarations. */
  const PlayerLanguagesDeclarations: seq<Declaration> :=
    [Primary(Varchar("uuid", 36)), Plain(Varchar("pl_lang", 16)), Plain(Varchar("cl_lang", 16))]

  /** `ServerLanguagesTable`'s declarations. */
  const ServerLanguagesDeclarations: seq<Declaration> :=
    [Primary(Varchar("optionKey", 255)), Plain(Column("optionValue", TEXT, None))]

  /** `PluginTranslationsTable`'s declarations: no primary column. */
  const PluginTranslationsDeclarations: seq<Declaration> :=
    [Plain(Varchar("messageKey", 255)), Plain(Varchar("lang", 16)),
     Plain(Column("translation", TEXT, None)), Plain(Varchar("type", 255))]

  /** A table built from its declarations; each declares at most one
      primary column, so this never fails. */
  function Build(name: string, ds: seq<Declaration>): (r: Table)
    requires PrimaryCount(ds) <= 1
    ensures r == Table(name, ColumnsOf(ds), PrimaryOf(ds))
  {
    DeclarationOrder(Table(name, [], None), ds);
    assert [] + ColumnsOf(ds) == ColumnsOf(ds);
    DeclareAll(Table(name, [], None), ds).value
  }

  function PlayerLanguagesTable(): (r: Table)
    ensures r.name == "player_languages" && |r.columns| == 3
    ensures r.primary == Some(r.columns[0]) && r.columns[0].name == "uuid"
  {
    assert PrimaryCount(PlayerLanguagesDeclarations) == 1;
    Build("player_languages", PlayerLanguagesDeclarations)
  }

  /** `Table.ExternalTable`'s constructor: refuses a local database before
      any column is declared. */
  function ExternalTable(dbType: DatabaseType, name: string, ds: seq<Declaration>): (r: Result<Table, DatabaseError>)
    requires PrimaryCount(ds) <= 1
    ensures r.Failure? <==> dbType.IsLocal()
    ensures r.Failure? ==> r.error == NotExternal
    ensures r.Success? ==> r.value.name == name && r.value.columns == ColumnsOf(ds)
  {
    if dbType.IsLocal() then Failure(NotExternal) else Success(Build(name, ds))
  }

  function ServerLanguagesTable(dbType: DatabaseType): Result<Table, DatabaseError> {
    assert PrimaryCount(ServerLanguagesDeclarations) == 1;
    ExternalTable(dbType, "server_languages", ServerLanguagesDeclarations)
  }

  function PluginTranslationsTable(dbType: DatabaseType): Result<Table, DatabaseError> {
    assert PrimaryCount(PluginTranslationsDeclarations) == 0;
    ExternalTable(dbType, "plugin_translations", PluginTranslationsDeclarations)
  }

  /** A database: its backend and its tables by name. */
  datatype Db = Db(dbType: DatabaseType, tables: map<string, Table>)

  /** `addTable`: a table is held under its name. */
  function AddTable(db: Db, t: Table): Db {
    db.(tables := db.tables[t.name := t])
  }

  /** `Database`'s constructor: the player table always; the two external
      tables in order, the first refusal ending the attempt. */
  function NewDb(dbType: DatabaseType): (r: Db)
    ensures r.dbType == dbType
    ensures dbType.IsLocal() ==> r.tables.Keys == {"player_languages"}
    ensures !dbType.IsLocal() ==>
      r.tables.Keys == {"player_languages", "server_languages", "plugin_translations"}
  {
    var db := AddTable(Db(dbType, map[]), PlayerLanguagesTable());
    match ServerLanguagesTable(dbType)
    case Failure(_) => db
    case Success(server) =>
      var db1 := AddTable(db, server);
      match PluginTranslationsTable(dbType)
      case Failure(_) => db1
      case Success(plugin) => AddTable(db1, plugin)
  }

  /** `tables.get(name)`: absent gives no table. */
  function Lookup(db: Db, name: string): Option<Table> {
    if name in db.tables then Some(db.tables[name]) else None
  }

  /** `getServerLanguagesTable` (`name` = `server_languages`) and
      `getPluginTranslationsTable` (`name` = `plugin_translations`): refused
      on a local database. */
  function GetExternalTable(db: Db, name: string): (r: Result<Option<Table>, DatabaseError>)
    ensures r.Failure? <==> db.dbType.IsLocal()
    ensures r.Failure? ==> r.error == NotExternal
    ensures r.Success? ==> r.value == Lookup(db, name)
  {
    if db.dbType.IsLocal() then Failure(NotExternal) else Success(Lookup(db, name))
  }

  /** On a freshly made database the external getters succeed with their
      table exactly when the backend is MySQL, and the player table is
      always there. */
  lemma ExternalTablesOnlyOnMysql(dbType: DatabaseType)
    ensures Lookup(NewDb(dbType), "player_languages") == Some(PlayerLanguagesTable())
    ensures GetExternalTable(NewDb(dbType), "server_languages").Success? <==> dbType == MYSQL
    ensures GetExternalTable(NewDb(dbType), "plugin_translations").Success? <==> dbType == MYSQL
    ensures dbType == MYSQL ==>
      && GetExternalTable(NewDb(dbType), "server_languages").value == Some(ServerLanguagesTable(MYSQL).value)
      && GetExternalTable(NewDb(dbType), "plugin_translations").value == Some(PluginTranslationsTable(MYSQL).value)
  {
    assert PlayerLanguagesTable().name == "player_languages";
  }

  /** `Column.reconvert`: an SQL `NULL` cell gives nothing; any other cell
      goes through the column's conversion. */
  function Reconvert<O>(cell: Option<string>, parse: string -> Option<O>): (r: Option<O>)
    ensures cell.None? ==> r.None?
  {
    if cell.None? then None else parse(cell.value)
  }

  /** The language columns' conversion to a cell: the lower-cased locale code. */
  function LanguageCell(l: Languages.Language): string
    requires l.codes != []
  {
    Lower(Languages.LocaleCode(l))
  }

  /** A language column read back: the cell's language, nothing for `NULL`. */
  function ReadLanguage(reg: Languages.Registry, cell: Option<string>): (r: Option<Languages.Language>)
    ensures cell.None? ==> r.None?
  {
    Reconvert(cell, s => Languages.GrabLanguage(reg, s))
  }

  /** A language found under its own locale code is read back from the cell
      it is written to, and a `NULL` cell reads as no language. */
  lemma LanguageCellRoundTrip(reg: Languages.Registry, l: Languages.Language)
    requires l.codes != [] && Languages.GrabLanguage(reg, Languages.LocaleCode(l)) == Some(l)
    ensures ReadLanguage(reg, Some(LanguageCell(l))) == Some(l)
    ensures ReadLanguage(reg, None).None?
  {
    LowerTwice(Languages.LocaleCode(l));
  }

  /** The type column read back: `grabTypeByName`. */
  function ReadKind(cell: Option<string>): (r: Option<Values.Kind>)
    ensures cell.None? ==> r.None?
  {
    Reconvert(cell, Values.GrabTypeByName)
  }

  /** A translation type is read back from the name it is written as. */
  lemma KindCellRoundTrip(k: Values.Kind)
    ensures ReadKind(Some(k.Name())) == Some(k)
  {
    Values.GrabTypeByOwnName(k);
  }

  /** The player table's columns as written in its constructor. */
  lemma PlayerLanguagesColumns()
    ensures PlayerLanguagesTable().columns == [Varchar("uuid", 36), Varchar("pl_lang", 16), Varchar("cl_lang", 16)]
  {
    assert PlayerLanguagesTable().columns == ColumnsOf(PlayerLanguagesDeclarations);
  }

  lemma JoinThree(a: string, b: string, c: string, sep: string)
    ensures Join([a, b, c], sep) == a + sep + b + sep + c
  {
    assert [a, b, c][1..] == [b, c];
    assert [b, c][1..] == [c];
    assert Join([c], sep) == c;
    assert Join([b, c], sep) == b + sep + c;
    assert Join([a, b, c], sep) == a + sep + (b + sep + c);
  }

  /** The player table's setter statement: the three columns and three
      parameters, in declaration order. */
  lemma PlayerLanguagesReplaceInto()
    ensures ReplaceIntoSql(PlayerLanguagesTable())
         == "REPLACE INTO " + "player_languages" + " (" + ("uuid" + ", " + "pl_lang" + ", " + "cl_lang")
            + ") VALUES (" + ("?" + ", " + "?" + ", " + "?") + ")"
  {
    PlayerLanguagesColumns();
    var cs := PlayerLanguagesTable().columns;
    var es := Entries(false, cs);
    assert es[0] == "uuid" && es[1] == "pl_lang" && es[2] == "cl_lang";
    assert es == ["uuid", "pl_lang", "cl_lang"];
    JoinThree("uuid", "pl_lang", "cl_lang", ", ");
    assert Marks(3) == ["?", "?", "?"];
    JoinThree("?", "?", "?", ", ");
  }

  lemma KeyLengths()
    ensures NatToString(36) == "36" && NatToString(16) == "16"
  {
  }

  lemma UuidEntry()
    ensures Entry(true, Varchar("uuid", 36)) == "uuid VARCHAR(36)"
  {
    KeyLengths();
  }

  lemma PlayerLangEntry()
    ensures Entry(true, Varchar("pl_lang", 16)) == "pl_lang VARCHAR(16)"
  {
    KeyLengths();
  }

  lemma ClientLangEntry()
    ensures Entry(true, Varchar("cl_lang", 16)) == "cl_lang VARCHAR(16)"
  {
    KeyLengths();
  }

  lemma EntriesOfThree(withType: bool, a: Column, b: Column, c: Column)
    ensures Entries(withType, [a, b, c]) == [Entry(withType, a), Entry(withType, b), Entry(withType, c)]
  {
  }

  /** The player table's typed column list. */
  lemma PlayerLanguagesTyped()
    ensures VariablesSyntax(true, PlayerLanguagesTable().columns)
         == "uuid VARCHAR(36)" + ", " + "pl_lang VARCHAR(16)" + ", " + "cl_lang VARCHAR(16)"
  {
    PlayerLanguagesColumns();
    UuidEntry();
    PlayerLangEntry();
    ClientLangEntry();
    EntriesOfThree(true, Varchar("uuid", 36), Varchar("pl_lang", 16), Varchar("cl_lang", 16));
    JoinThree("uuid VARCHAR(36)", "pl_lang VARCHAR(16)", "cl_lang VARCHAR(16)", ", ");
  }

  /** The player table's `CREATE TABLE` on both backends: the primary key's
      length appears on MySQL only. */
  lemma PlayerLanguagesCreate()
    ensures var head := "CREATE TABLE IF NOT EXISTS " + "player_languages" + " ("
                        + ("uuid VARCHAR(36)" + ", " + "pl_lang VARCHAR(16)" + ", " + "cl_lang VARCHAR(16)")
                        + ", PRIMARY KEY (" + "uuid";
      && CreateSql(SQLITE, PlayerLanguagesTable()) == head + "))"
      && CreateSql(MYSQL, PlayerLanguagesTable()) == head + "(" + "36" + ")))"
  {
    var t := PlayerLanguagesTable();
    PlayerLanguagesTyped();
    PlayerLanguagesColumns();
    KeyLengths();
    assert t.primary.value == Varchar("uuid", 36);
    KeyLengthOnlyOnMysql(t);
  }
}
