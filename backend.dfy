/** The Flask backend (app.py): the table-name sanitiser, column-name normalisation
    and matching, the table listing of `/api/tables` and the query that
    `/api/rows/<table>` builds. SQLite is replaced by its answers: the column names
    that `PRAGMA table_info` reports and the rows of the `sqlite_master` catalogue. */
module Backend {
  import opened Wrappers

  /** The row limit used when the request has no `limit` argument. */
  const DefaultLimit: int := 200

  /** The columns a table must have to be listed by `/api/tables`. */
  const RequiredColumns: seq<string> := ["id", "content", "created_at"]

  // ----- Characters and names -----

  /** `str.isalnum` for one character, restricted to ASCII letters and digits. */
  predicate IsAlnum(c: char) {
    ('a' <= c <= 'z') || ('A' <= c <= 'Z') || ('0' <= c <= '9')
  }

  /** A character the table-name sanitiser accepts: alphanumeric, `_` or `-`. */
  predicate NameChar(c: char) {
    IsAlnum(c) || c == '_' || c == '-'
  }

  /** The sanitiser's scan `all(c.isalnum() or c in "_-" for c in table)`. */
  function AllNameChars(s: string): (ok: bool)
    ensures ok <==> forall i :: 0 <= i < |s| ==> NameChar(s[i])
  {
    if s == [] then true else NameChar(s[0]) && AllNameChars(s[1..])
  }

  /** An accepted name can neither close the quoted identifier `'<table>'` the
      handler splices into its SQL nor add a `?` placeholder to it. */
  lemma AcceptedNameIsInert(table: string)
    requires AllNameChars(table)
    ensures '\'' !in table && '?' !in table && ' ' !in table
  {
  }

  /** `str.lower` for one character, restricted to ASCII. */
  function LowerChar(c: char): char {
    if 'A' <= c <= 'Z' then (c as int - 'A' as int + 'a' as int) as char else c
  }

  /** `s.lower()`: every ASCII capital replaced by its small letter. */
  function Lower(s: string): (r: string)
    ensures |r| == |s|
    ensures forall i :: 0 <= i < |s| ==> r[i] == LowerChar(s[i])
  {
    if s == [] then [] else [LowerChar(s[0])] + Lower(s[1..])
  }

  /** `s.replace('-', '_')`. */
  function DashToUnderscore(s: string): (r: string)
    ensures |r| == |s|
    ensures forall i :: 0 <= i < |s| ==> r[i] == (if s[i] == '-' then '_' else s[i])
  {
    if s == [] then [] else [if s[0] == '-' then '_' else s[0]] + DashToUnderscore(s[1..])
  }

  /** One character of a normalised column name. */
  function NormChar(c: char): char {
    if LowerChar(c) == '-' then '_' else LowerChar(c)
  }

  /** The column-name normal form `c.lower().replace('-', '_')`. */
  function Normalize(s: string): (n: string)
    ensures |n| == |s|
    ensures forall i :: 0 <= i < |s| ==> n[i] == NormChar(s[i])
    ensures '-' !in n
  {
    DashToUnderscore(Lower(s))
  }

  /** Normalising twice is normalising once. */
  lemma NormalizeIdempotent(s: string)
    ensures Normalize(Normalize(s)) == Normalize(s)
  {
    var n := Normalize(s);
    forall i | 0 <= i < |n|
      ensures Normalize(n)[i] == n[i]
    {
      assert NormChar(NormChar(s[i])) == NormChar(s[i]);
    }
  }

  /** A column whose normal form is `created_at` has no `?` and no `'` in its raw name. */
  lemma CreatedNameHasNoQuote(c: string)
    requires Normalize(c) == "created_at"
    ensures '?' !in c && '\'' !in c
  {
    forall i | 0 <= i < |c|
      ensures c[i] != '?' && c[i] != '\''
    {
      assert NormChar(c[i]) == "created_at"[i];
    }
  }

  // ----- table_has_columns -----

  /** The normalised column list `[c.lower().replace('-', '_') for c in cols]`. */
  function NormalizeAll(cols: seq<string>): (ns: seq<string>)
    ensures |ns| == |cols|
    ensures forall j :: 0 <= j < |cols| ==> ns[j] == Normalize(cols[j])
  {
    if cols == [] then [] else [Normalize(cols[0])] + NormalizeAll(cols[1..])
  }

  /** `all((r in xs) for r in required)`. */
  function AllIn(required: seq<string>, xs: seq<string>): (ok: bool)
    ensures ok <==> forall i :: 0 <= i < |required| ==> required[i] in xs
  {
    if required == [] then true else required[0] in xs && AllIn(required[1..], xs)
  }

  /** `table_has_columns`: every required name (taken as written) is the normal form of
      some column of the table. */
  function TableHasColumns(cols: seq<string>, required: seq<string>): (ok: bool)
    ensures ok <==> forall i :: 0 <= i < |required| ==>
                      exists j :: 0 <= j < |cols| && Normalize(cols[j]) == required[i]
  {
    var normalized := NormalizeAll(cols);
    assert forall r :: r in normalized <==> exists j :: 0 <= j < |cols| && Normalize(cols[j]) == r by {
      forall r | r in normalized
        ensures exists j :: 0 <= j < |cols| && Normalize(cols[j]) == r
      {
        var j :| 0 <= j < |normalized| && normalized[j] == r;
        assert Normalize(cols[j]) == r;
      }
    }
    AllIn(required, normalized)
  }

  // ----- /api/tables -----

  /** An entry of the `sqlite_master` catalogue: its name, its `type` (`table`, `view`,
      `index`, `trigger`) and the column names `PRAGMA table_info` reports for it. */
  datatype TableSchema = TableSchema(name: string, kind: string, columns: seq<string>)

  /** SQLite's `name LIKE 'sqlite_%'`: "sqlite" in any ASCII case, then any one
      character (`_` is the single-character wildcard of LIKE), then anything. */
  predicate LikeSqlitePattern(name: string) {
    |name| >= 7 && Lower(name[..6]) == "sqlite"
  }

  /** The pattern's wildcard and case folding: `sqlite_sequence`, `SQLite1` and
      `sqliteX` match; `sqlite` itself (no character for `_`) and `my_sqlite_t` (not a
      prefix) do not. */
  lemma LikeSqlitePatternCases()
    ensures LikeSqlitePattern("sqlite_sequence") && LikeSqlitePattern("SQLite1")
    ensures LikeSqlitePattern("sqliteX")
    ensures !LikeSqlitePattern("sqlite") && !LikeSqlitePattern("my_sqlite_t")
  {
    assert "sqlite_sequence"[..6] == "sqlite";
    assert "SQLite1"[..6] == "SQLite";
    assert Lower("SQLite") == "sqlite";
    assert "sqliteX"[..6] == "sqlite";
    assert Lower("my_sql")[0] == 'm';
  }

  /** The catalogue query's condition `type='table' AND name NOT LIKE 'sqlite_%'`. */
  predicate CatalogueSelects(t: TableSchema) {
    t.kind == "table" && !LikeSqlitePattern(t.name)
  }

  /** The entries the catalogue query returns, keeping catalogue order. */
  function UserTables(master: seq<TableSchema>): seq<TableSchema> {
    if master == [] then []
    else
      var last := master[|master| - 1];
      UserTables(master[..|master| - 1]) + (if CatalogueSelects(last) then [last] else [])
  }

  /** The names of the tables that pass `table_has_columns` for the required columns. */
  function WithRequiredColumns(tables: seq<TableSchema>): seq<string> {
    if tables == [] then []
    else
      var last := tables[|tables| - 1];
      WithRequiredColumns(tables[..|tables| - 1])
        + (if TableHasColumns(last.columns, RequiredColumns) then [last.name] else [])
  }

  /** What `/api/tables` answers for a catalogue given in `ORDER BY name` order. */
  function Detected(master: seq<TableSchema>): seq<string> {
    WithRequiredColumns(UserTables(master))
  }

  /** Whether one catalogue entry is listed. */
  predicate Listed(t: TableSchema) {
    CatalogueSelects(t) && TableHasColumns(t.columns, RequiredColumns)
  }

  lemma {:induction false} UserTablesAppend(a: seq<TableSchema>, b: seq<TableSchema>)
    ensures UserTables(a + b) == UserTables(a) + UserTables(b)
  {
    if b == [] {
      assert a + b == a;
    } else {
      var b' := b[..|b| - 1];
      assert (a + b)[..|a + b| - 1] == a + b';
      UserTablesAppend(a, b');
    }
  }

  lemma {:induction false} WithRequiredColumnsAppend(a: seq<TableSchema>, b: seq<TableSchema>)
    ensures WithRequiredColumns(a + b) == WithRequiredColumns(a) + WithRequiredColumns(b)
  {
    if b == [] {
      assert a + b == a;
    } else {
      var b' := b[..|b| - 1];
      assert (a + b)[..|a + b| - 1] == a + b';
      WithRequiredColumnsAppend(a, b');
    }
  }

  /** The listing is an order-preserving filter: the answer for a concatenated
      catalogue is the concatenation of the answers, and one entry contributes its
      name exactly when it is listed. */
  lemma DetectedIsOrderedFilter(a: seq<TableSchema>, b: seq<TableSchema>, t: TableSchema)
    ensures Detected(a + b) == Detected(a) + Detected(b)
    ensures Detected([t]) == if Listed(t) then [t.name] else []
  {
    DetectedAppend(a, b);
    DetectedSingle(t);
  }

  lemma DetectedAppend(a: seq<TableSchema>, b: seq<TableSchema>)
    ensures Detected(a + b) == Detected(a) + Detected(b)
  {
    UserTablesAppend(a, b);
    WithRequiredColumnsAppend(UserTables(a), UserTables(b));
  }

  lemma DetectedSingle(t: TableSchema)
    ensures Detected([t]) == if Listed(t) then [t.name] else []
  {
    var single := [t];
    assert single[..|single| - 1] == [] && single[|single| - 1] == t;
    var user := UserTables(single);
    assert user == UserTables([]) + (if CatalogueSelects(t) then [t] else []);
    if CatalogueSelects(t) {
      assert user[..|user| - 1] == [] && user[|user| - 1] == t;
      assert WithRequiredColumns(user)
          == if TableHasColumns(t.columns, RequiredColumns) then [t.name] else [];
    }
  }

  lemma {:induction false} UserTablesMembership(master: seq<TableSchema>, t: TableSchema)
    ensures t in UserTables(master) <==> t in master && CatalogueSelects(t)
  {
    if master != [] {
      var init := master[..|master| - 1];
      assert master == init + [master[|master| - 1]];
      UserTablesMembership(init, t);
    }
  }

  lemma {:induction false} WithRequiredColumnsMembership(tables: seq<TableSchema>, name: string)
    ensures name in WithRequiredColumns(tables) <==>
            exists t :: t in tables && t.name == name && TableHasColumns(t.columns, RequiredColumns)
  {
    if tables != [] {
      var init := tables[..|tables| - 1];
      assert tables == init + [tables[|tables| - 1]];
      WithRequiredColumnsMembership(init, name);
    }
  }

  /** A name is listed exactly when some catalogue entry of that name is a table outside
      the `sqlite_%` pattern and has the required columns; so internal tables never are,
      nor is a name that only views (or indexes, triggers) carry. */
  lemma DetectedMembership(master: seq<TableSchema>, name: string)
    ensures name in Detected(master) <==> exists t :: t in master && t.name == name && Listed(t)
    ensures LikeSqlitePattern(name) ==> name !in Detected(master)
    ensures (forall t :: t in master && t.name == name ==> t.kind != "table") ==>
              name !in Detected(master)
  {
    WithRequiredColumnsMembership(UserTables(master), name);
    forall t | true
      ensures t in UserTables(master) <==> t in master && CatalogueSelects(t)
    {
      UserTablesMembership(master, t);
    }
  }

  /** `api_tables`: the catalogue query, then the loop appending each table that has
      the required columns. */
  method ApiTables(master: seq<TableSchema>) returns (detected: seq<string>)
    ensures detected == Detected(master)
  {
    var names := UserTables(master);
    detected := [];
    for i := 0 to |names|
      invariant detected == WithRequiredColumns(names[..i])
    {
      assert names[..i + 1][..i] == names[..i];
      if TableHasColumns(names[i].columns, RequiredColumns) {
        detected := detected + [names[i].name];
      }
    }
    assert names[..|names|] == names;
  }

  // ----- /api/rows/<table> -----

  /** The errors the handler answers with status 400. */
  datatype ApiError = InvalidTableName | MissingIdContent {
    function Message(): string {
      match this
      case InvalidTableName => "Invalid table name"
      case MissingIdContent => "Table missing id/content columns"
    }
  }

  /** The statement the handler hands to SQLite, its bound parameters and the limit
      echoed in the answer's `meta`. */
  datatype RowsQuery = RowsQuery(sql: string, params: seq<string>, limit: int)

  /** Python truthiness of an optional string argument (`if q:`). */
  predicate Truthy(q: Option<string>) {
    q.Some? && q.value != ""
  }

  /** The first column whose normal form is `created_at`, if any. */
  function CreatedColumn(cols: seq<string>): Option<string> {
    if cols == [] then None
    else if Normalize(cols[0]) == "created_at" then Some(cols[0])
    else CreatedColumn(cols[1..])
  }

  /** The created-at column is the earliest column normalising to `created_at`, and
      there is none exactly when no column does. */
  lemma CreatedColumnIsFirstMatch(cols: seq<string>)
    ensures CreatedColumn(cols).None? <==>
            forall j :: 0 <= j < |cols| ==> Normalize(cols[j]) != "created_at"
    ensures CreatedColumn(cols).Some? ==>
            exists i :: 0 <= i < |cols| && cols[i] == CreatedColumn(cols).value
                        && Normalize(cols[i]) == "created_at"
                        && forall j :: 0 <= j < i ==> Normalize(cols[j]) != "created_at"
  {
    var i := CreatedIndex(cols);
    if i < |cols| {
      assert cols[i] == CreatedColumn(cols).value;
    }
  }

  /** The index of the created-at column, or `|cols|` when there is none. */
  lemma {:induction false} CreatedIndex(cols: seq<string>) returns (i: nat)
    ensures i <= |cols|
    ensures forall j :: 0 <= j < i ==> Normalize(cols[j]) != "created_at"
    ensures i < |cols| ==> Normalize(cols[i]) == "created_at" && CreatedColumn(cols) == Some(cols[i])
    ensures i == |cols| ==> CreatedColumn(cols) == None
  {
    if cols == [] {
      i := 0;
    } else if Normalize(cols[0]) == "created_at" {
      i := 0;
    } else {
      var k := CreatedIndex(cols[1..]);
      i := k + 1;
      forall j | 0 <= j < i
        ensures Normalize(cols[j]) != "created_at"
      {
        if j > 0 {
          assert cols[j] == cols[1..][j - 1];
        }
      }
    }
  }

  /** The created-at column, when there is one, normalises to `created_at`. */
  lemma {:induction false} CreatedColumnNormalizes(cols: seq<string>)
    requires CreatedColumn(cols).Some?
    ensures Normalize(CreatedColumn(cols).value) == "created_at"
  {
    if Normalize(cols[0]) != "created_at" {
      CreatedColumnNormalizes(cols[1..]);
    }
  }

  /** A table whose creation column is spelt `created-at` is listed: the dash
      normalises to `_`. */
  lemma DashedCreatedColumnListed(cols: seq<string>)
    requires cols == ["id", "content", "created-at"]
    ensures TableHasColumns(cols, RequiredColumns)
  {
    DashedColumnsNormalize(cols);
    RequiredInOrder(cols);
  }

  lemma DashedColumnsNormalize(cols: seq<string>)
    requires cols == ["id", "content", "created-at"]
    ensures |cols| == 3
    ensures Normalize(cols[0]) == "id" && Normalize(cols[1]) == "content"
    ensures Normalize(cols[2]) == "created_at"
  {
    NormalFormOf("id", "id");
    NormalFormOf("content", "content");
    NormalFormOf("created-at", "created_at");
  }

  /** Columns normalising to `id`, `content` and `created_at`, in that order, have the
      required columns. */
  lemma RequiredInOrder(cols: seq<string>)
    requires |cols| >= 3
    requires Normalize(cols[0]) == "id" && Normalize(cols[1]) == "content"
    requires Normalize(cols[2]) == "created_at"
    ensures TableHasColumns(cols, RequiredColumns)
  {
    forall i | 0 <= i < |RequiredColumns|
      ensures exists j :: 0 <= j < |cols| && Normalize(cols[j]) == RequiredColumns[i]
    {
      assert Normalize(cols[i]) == RequiredColumns[i];
    }
  }

  /** For that table the row query's select list splices the raw name `created-at`,
      dash included and unquoted. */
  lemma DashedCreatedColumnSpliced(cols: seq<string>)
    requires cols == ["id", "content", "created-at"]
    ensures CreatedColumn(cols) == Some("created-at")
    ensures ColumnOrNull(CreatedColumn(cols)) == "created-at"
  {
    DashedColumnsNormalize(cols);
    assert CreatedColumn(cols[2..]) == Some(cols[2]);
    assert cols[1..][1..] == cols[2..];
  }

  /** `n` is the normal form of `s` when it agrees with it character by character. */
  lemma NormalFormOf(s: string, n: string)
    requires |s| == |n| && forall i :: 0 <= i < |s| ==> NormChar(s[i]) == n[i]
    ensures Normalize(s) == n
  {
  }

  /** The handler's search loop for the created-at column, stopping at the first match. */
  method FindCreatedColumn(cols: seq<string>) returns (created: Option<string>)
    ensures created == CreatedColumn(cols)
  {
    created := None;
    var i := 0;
    while i < |cols|
      invariant 0 <= i <= |cols|
      invariant CreatedColumn(cols) == CreatedColumn(cols[i..])
    {
      assert cols[i..][1..] == cols[i + 1..];
      if Normalize(cols[i]) == "created_at" {
        created := Some(cols[i]);
        break;
      }
      i := i + 1;
    }
  }

  /** Python's `created_col or 'NULL'`. */
  function ColumnOrNull(created: Option<string>): string {
    if created.Some? && created.value != "" then created.value else "NULL"
  }

  /** `f"SELECT id, content, {created_col or 'NULL'} as created_at FROM '{table}'"`. */
  function SelectSql(table: string, created: Option<string>): string {
    "SELECT id, content, " + ColumnOrNull(created) + " as created_at FROM '" + table + "'"
  }

  /** The filter conditions, `since_id` before `q`. */
  function WhereClauses(sinceId: Option<string>, q: Option<string>): seq<string> {
    (if sinceId.Some? then ["id > ?"] else []) + (if Truthy(q) then ["content LIKE ?"] else [])
  }

  /** The bound parameters, in the order of their conditions. */
  function QueryParams(sinceId: Option<string>, q: Option<string>): seq<string> {
    (if sinceId.Some? then [sinceId.value] else []) + (if Truthy(q) then ["%" + q.value + "%"] else [])
  }

  /** Python's `sep.join(parts)`. */
  function Join(parts: seq<string>, sep: string): string {
    if |parts| == 0 then ""
    else if |parts| == 1 then parts[0]
    else parts[0] + sep + Join(parts[1..], sep)
  }

  /** The `WHERE` part: absent when there are no conditions. */
  function WhereSql(clauses: seq<string>): (w: string)
    ensures w == "" <==> |clauses| == 0
  {
    if |clauses| == 0 then "" else " WHERE " + Join(clauses, " AND ")
  }

  /** Python's `str(n)` for an integer. */
  function IntToDecimal(n: int): (s: string)
    ensures |s| > 0
    ensures s[0] == '-' <==> n < 0
    ensures n >= 0 ==> '0' <= s[0] <= '9'
    ensures n < 0 ==> |s| > 1
    ensures forall i :: 0 < i < |s| ==> '0' <= s[i] <= '9'
  {
    if n < 0 then "-" + NatToDecimal(-n) else NatToDecimal(n)
  }

  function DigitChar(d: nat): char
    requires d < 10
  {
    "0123456789"[d]
  }

  /** The decimal digits of `n`, most significant first. */
  function NatToDecimal(n: nat): (s: string)
    ensures |s| > 0
    ensures forall i :: 0 <= i < |s| ==> '0' <= s[i] <= '9'
  {
    if n < 10 then [DigitChar(n)] else NatToDecimal(n / 10) + [DigitChar(n % 10)]
  }

  /** The number a string of decimal digits denotes. */
  function DecimalValue(s: string): nat
    requires forall i :: 0 <= i < |s| ==> '0' <= s[i] <= '9'
  {
    if s == [] then 0 else DecimalValue(s[..|s| - 1]) * 10 + (s[|s| - 1] as int - '0' as int)
  }

  /** Reading the digits of a natural number back gives the number. */
  lemma {:induction false} NatDecimalRoundTrip(n: nat)
    ensures DecimalValue(NatToDecimal(n)) == n
  {
    if n >= 10 {
      NatDecimalRoundTrip(n / 10);
      var s := NatToDecimal(n);
      assert s[..|s| - 1] == NatToDecimal(n / 10);
    }
  }

  /** The `LIMIT` text denotes the limit, whatever its sign: a non-negative limit is its
      digits, a negative one (`int()` accepts it) is `-` followed by the digits of its
      magnitude. */
  lemma DecimalRoundTrip(n: int)
    ensures n >= 0 ==> DecimalValue(IntToDecimal(n)) == n
    ensures n < 0 ==> IntToDecimal(n)[0] == '-' && DecimalValue(IntToDecimal(n)[1..]) == -n
  {
    if n >= 0 {
      NatDecimalRoundTrip(n);
    } else {
      NatDecimalRoundTrip(-n);
      assert IntToDecimal(n)[1..] == NatToDecimal(-n);
    }
  }

  /** `f" ORDER BY id DESC LIMIT {limit}"`. */
  function OrderSql(limit: int): string {
    " ORDER BY id DESC LIMIT " + IntToDecimal(limit)
  }

  /** The number of `?` placeholders in a statement. */
  function Placeholders(sql: string): nat {
    if sql == [] then 0 else (if sql[0] == '?' then 1 else 0) + Placeholders(sql[1..])
  }

  /** Placeholders add up over concatenation. */
  lemma {:induction false} PlaceholdersAppend(a: string, b: string)
    ensures Placeholders(a + b) == Placeholders(a) + Placeholders(b)
  {
    if a == [] {
      assert a + b == b;
    } else {
      assert (a + b)[1..] == a[1..] + b;
      PlaceholdersAppend(a[1..], b);
    }
  }

  /** Joining conditions that carry one placeholder each, with a separator that carries
      none, gives one placeholder per condition. */
  lemma {:induction false} JoinPlaceholders(parts: seq<string>, sep: string)
    requires Placeholders(sep) == 0
    requires forall i :: 0 <= i < |parts| ==> Placeholders(parts[i]) == 1
    ensures Placeholders(Join(parts, sep)) == |parts|
  {
    if |parts| > 1 {
      JoinPlaceholders(parts[1..], sep);
      PlaceholdersAppend(parts[0], sep);
      PlaceholdersAppend(parts[0] + sep, Join(parts[1..], sep));
    }
  }

  /** A string without `?` contributes no placeholder. */
  lemma {:induction false} NoPlaceholders(s: string)
    requires '?' !in s
    ensures Placeholders(s) == 0
  {
    if s != [] {
      assert s[0] != '?';
      NoPlaceholders(s[1..]);
    }
  }

  /** The select part of an accepted table carries no placeholder: neither the table
      name nor the created-at column can contain `?`. */
  lemma {:induction false} SelectPlaceholders(table: string, cols: seq<string>)
    requires AllNameChars(table)
    ensures Placeholders(SelectSql(table, CreatedColumn(cols))) == 0
  {
    var created := CreatedColumn(cols);
    AcceptedNameIsInert(table);
    if created.Some? {
      CreatedColumnNormalizes(cols);
      CreatedNameHasNoQuote(created.value);
    }
    assert '?' !in ColumnOrNull(created);
    NoPlaceholders(SelectSql(table, created));
  }

  /** Text without `?` followed by one `?` carries exactly one placeholder. */
  lemma {:induction false} EndsInPlaceholder(prefix: string, c: string)
    requires '?' !in prefix && c == prefix + "?"
    ensures Placeholders(c) == 1
  {
    NoPlaceholders(prefix);
    PlaceholdersAppend(prefix, "?");
  }

  /** Each condition carries one placeholder. */
  lemma ClausePlaceholders()
    ensures Placeholders("id > ?") == 1 && Placeholders("content LIKE ?") == 1
  {
    EndsInPlaceholder("id > ", "id > ?");
    EndsInPlaceholder("content LIKE ", "content LIKE ?");
  }

  /** A `WHERE` part over conditions that carry one placeholder each carries one
      placeholder per condition. */
  lemma WhereSqlPlaceholders(clauses: seq<string>)
    requires forall i :: 0 <= i < |clauses| ==> Placeholders(clauses[i]) == 1
    ensures Placeholders(WhereSql(clauses)) == |clauses|
  {
    if |clauses| > 0 {
      NoPlaceholders(" AND ");
      JoinPlaceholders(clauses, " AND ");
      NoPlaceholders(" WHERE ");
      PlaceholdersAppend(" WHERE ", Join(clauses, " AND "));
    }
  }

  /** The handler's conditions are `id > ?` and `content LIKE ?` only. */
  lemma WhereClausesShape(sinceId: Option<string>, q: Option<string>)
    ensures forall i :: 0 <= i < |WhereClauses(sinceId, q)| ==>
              WhereClauses(sinceId, q)[i] in {"id > ?", "content LIKE ?"}
  {
  }

  /** Either condition carries one placeholder. */
  lemma ConditionPlaceholders(c: string)
    requires c in {"id > ?", "content LIKE ?"}
    ensures Placeholders(c) == 1
  {
    ClausePlaceholders();
  }

  /** Every condition the handler can add carries one placeholder. */
  lemma ClausesPlaceholders(sinceId: Option<string>, q: Option<string>)
    ensures forall i :: 0 <= i < |WhereClauses(sinceId, q)| ==>
              Placeholders(WhereClauses(sinceId, q)[i]) == 1
  {
    var clauses := WhereClauses(sinceId, q);
    WhereClausesShape(sinceId, q);
    forall i | 0 <= i < |clauses|
      ensures Placeholders(clauses[i]) == 1
    {
      ConditionPlaceholders(clauses[i]);
    }
  }

  /** The `WHERE` part carries one placeholder per bound parameter. */
  lemma WherePlaceholders(sinceId: Option<string>, q: Option<string>)
    ensures Placeholders(WhereSql(WhereClauses(sinceId, q))) == |QueryParams(sinceId, q)|
  {
    ClausesPlaceholders(sinceId, q);
    WhereSqlPlaceholders(WhereClauses(sinceId, q));
  }

  /** The statement built for an accepted table has exactly as many placeholders as
      there are bound parameters. */
  lemma {:induction false} RowsSqlPlaceholders(table: string, cols: seq<string>,
                            sinceId: Option<string>, q: Option<string>, limit: int)
    requires AllNameChars(table)
    ensures Placeholders(SelectSql(table, CreatedColumn(cols)) + WhereSql(WhereClauses(sinceId, q))
                         + OrderSql(limit)) == |QueryParams(sinceId, q)|
  {
    var select := SelectSql(table, CreatedColumn(cols));
    SelectPlaceholders(table, cols);
    var clauses := WhereClauses(sinceId, q);
    WherePlaceholders(sinceId, q);
    NoPlaceholders(OrderSql(limit));
    PlaceholdersAppend(select, WhereSql(clauses));
    PlaceholdersAppend(select + WhereSql(clauses), OrderSql(limit));
  }

  /** `api_rows` up to the statement it executes: the sanitiser, the limit, the
      created-at search, the id/content check and the assembly of the statement and
      its parameters. */
  method ApiRows(table: string, columns: seq<string>, limitArg: Option<int>,
                 q: Option<string>, sinceId: Option<string>)
    returns (r: Result<RowsQuery, ApiError>)
    ensures r == Failure(InvalidTableName) <==> !AllNameChars(table)
    ensures r == Failure(MissingIdContent) <==>
            AllNameChars(table) && ("id" !in columns || "content" !in columns)
    ensures r.Success? ==> r.value.limit == limitArg.GetOr(DefaultLimit)
    ensures r.Success? ==> r.value.params == QueryParams(sinceId, q)
    ensures r.Success? ==> Placeholders(r.value.sql) == |r.value.params|
    ensures r.Success? ==>
              r.value.sql == SelectSql(table, CreatedColumn(columns))
                             + WhereSql(WhereClauses(sinceId, q)) + OrderSql(r.value.limit)
  {
    if !AllNameChars(table) {
      return Failure(InvalidTableName);
    }
    var limit := limitArg.GetOr(DefaultLimit);
    var created := FindCreatedColumn(columns);
    if "id" !in columns || "content" !in columns {
      return Failure(MissingIdContent);
    }
    var sql := "SELECT id, content, " + ColumnOrNull(created) + " as created_at FROM '" + table + "'";
    var clauses: seq<string> := [];
    var params: seq<string> := [];
    if sinceId.Some? {
      clauses := clauses + ["id > ?"];
      params := params + [sinceId.value];
    }
    if Truthy(q) {
      clauses := clauses + ["content LIKE ?"];
      params := params + ["%" + q.value + "%"];
    }
    if |clauses| > 0 {
      sql := sql + (" WHERE " + Join(clauses, " AND "));
    } else {
      assert sql + WhereSql(clauses) == sql;
    }
    sql := sql + (" ORDER BY id DESC LIMIT " + IntToDecimal(limit));
    assert clauses == WhereClauses(sinceId, q) && params == QueryParams(sinceId, q);
    RowsSqlPlaceholders(table, columns, sinceId, q, limit);
    return Success(RowsQuery(sql, params, limit));
  }
}
