/**
  The SQL that `OneDriveConnector` builds: the column list of
  `create_local_db` and the statements and parameters of `operate_db`, with
  the rule that decides whether the file is uploaded again afterwards.

  A Python dict is its entries in insertion order. SQLite itself is not
  modelled: a statement is its text and its parameters.
 */
module Statements {
  import opened Text

  /** A value bound to a statement parameter. */
  datatype Value = IntVal(i: int) | TextVal(s: string) | NullVal

  /** One entry of a Python dict of column names to values. */
  datatype Entry = Entry(key: string, value: Value)

  /** One entry of the `data` dict of `create_local_db`: a column name and its SQL type. */
  datatype Column = Column(name: string, sqlType: string)

  /** An element of `operate_db`'s `*args`: a string, a dict, or anything else. */
  datatype Arg = Str(s: string) | Dict(entries: seq<Entry>) | Other

  /** The parameters passed to `cursor.execute`. */
  datatype Params = NoParams | Positional(values: seq<Value>) | Named(bindings: map<string, Value>)

  datatype Statement = Statement(sql: string, params: Params)

  /**
    What `operate_db` does with its arguments: raise before committing
    anything, execute a statement and upload (insert, update, delete), upload
    without executing (an unknown tag), or run a query and return its rows.
   */
  datatype Dispatch = Raises | Execute(stmt: Statement) | NoStatement | Query(stmt: Statement)

  function Keys(d: seq<Entry>): (ks: seq<string>)
    ensures |ks| == |d| && forall i | 0 <= i < |d| :: ks[i] == d[i].key
  {
    seq(|d|, i requires 0 <= i < |d| => d[i].key)
  }

  function Values(d: seq<Entry>): (vs: seq<Value>)
    ensures |vs| == |d| && forall i | 0 <= i < |d| :: vs[i] == d[i].value
  {
    seq(|d|, i requires 0 <= i < |d| => d[i].value)
  }

  /** A Python dict built from the entries: a later entry for a key replaces an earlier one. */
  function ToMap(d: seq<Entry>): map<string, Value> {
    if d == [] then map[] else ToMap(d[..|d| - 1])[d[|d| - 1].key := d[|d| - 1].value]
  }

  /** `{'where_' + k: v for k, v in where.items()}`. */
  function Prefixed(d: seq<Entry>): map<string, Value> {
    if d == [] then map[] else Prefixed(d[..|d| - 1])["where_" + d[|d| - 1].key := d[|d| - 1].value]
  }

  // ---------------------------------------------------------------------------
  // create_local_db

  /** One column definition, `f'{k} {v}'`. */
  function Def(c: Column): string {
    c.name + " " + c.sqlType
  }

  /** `', '.join([f'{k} {v}' for k, v in data.items()])`. */
  function ColumnDefs(data: seq<Column>): string {
    Join(", ", Defs(data))
  }

  function Defs(data: seq<Column>): (defs: seq<string>)
    ensures |defs| == |data| && forall i | 0 <= i < |data| :: defs[i] == Def(data[i])
  {
    seq(|data|, i requires 0 <= i < |data| => Def(data[i]))
  }

  /** The head both `CREATE TABLE` statements of `create_local_db` start with. */
  const CreateTableHead := "CREATE TABLE IF NOT EXISTS "

  /** The `_id` column of the statement run on every call, with the indentation of its text. */
  const IdColumn := "                _id INTEGER PRIMARY KEY AUTOINCREMENT,\n                "

  /** The `_id` column of the statement that creates a new file, opening parenthesis included. */
  const NewIdColumn := "            (_id INTEGER PRIMARY KEY AUTOINCREMENT,\n            "

  /** The statement `create_local_db` always runs on the local file. */
  function CreateTableSql(table: string, data: seq<Column>): string {
    CreateTableHead + table + " (\n" + IdColumn + ColumnDefs(data) + ")"
  }

  /** The statement `create_local_db` runs first when it makes a new database file. */
  function NewTableSql(table: string, data: seq<Column>): string {
    CreateTableHead + table + " \n" + NewIdColumn + ColumnDefs(data) + "\n            )"
  }

  /** Reads a column list back: comma-separated `name type` definitions, each but the first after one space. */
  function ParseColumnDefs(s: string): Option<seq<Column>> {
    if s == "" then Some([]) else ParseDefs(Split(s, ','), true)
  }

  function ParseDefs(parts: seq<string>, first: bool): Option<seq<Column>>
    decreases |parts|
  {
    if parts == [] then Some([])
    else
      var fields := Split(parts[0], ' ');
      var def :=
        if first && |fields| == 2 then Some(Column(fields[0], fields[1]))
        else if !first && |fields| == 3 && fields[0] == "" then Some(Column(fields[1], fields[2]))
        else None;
      match (def, ParseDefs(parts[1..], false))
      case (Some(c), Some(cs)) => Some([c] + cs)
      case _ => None
  }

  // ---------------------------------------------------------------------------
  // operate_db

  /** `', '.join(['?' for _ in data.values()])`. */
  function Placeholders(n: nat): string {
    Join(", ", seq(n, _ => "?"))
  }

  function InsertSql(table: string, data: seq<Entry>): string {
    "INSERT INTO " + table + " (" + Join(", ", Keys(data)) + ") VALUES \n                        ("
      + Placeholders(|data|) + ")"
  }

  /** `', '.join(f"{key} = :{key}" for key in set)`. */
  function SetClause(keys: seq<string>): string {
    Join(", ", seq(|keys|, i requires 0 <= i < |keys| => keys[i] + " = :" + keys[i]))
  }

  /** `' AND '.join(f"{key} = :where_{key}" for key in where)`. */
  function WhereClause(keys: seq<string>): string {
    Join(" AND ", seq(|keys|, i requires 0 <= i < |keys| => keys[i] + " = :where_" + keys[i]))
  }

  function UpdateSql(table: string, changes: seq<Entry>, filter: seq<Entry>): string {
    "UPDATE " + table + " SET " + SetClause(Keys(changes)) + " WHERE " + WhereClause(Keys(filter))
  }

  /** `{**set, **{'where_' + k: v for k, v in where.items()}}`: on a shared key the where value wins. */
  function UpdateParams(changes: seq<Entry>, filter: seq<Entry>): map<string, Value> {
    ToMap(changes) + Prefixed(filter)
  }

  function DeleteSql(table: string, column: string): string {
    "DELETE FROM " + table + " WHERE " + column + "=?"
  }

  function SelectWhereSql(table: string, column: string): string {
    "SELECT * FROM " + table + " WHERE " + column + "=?"
  }

  function SelectAllSql(table: string): string {
    "SELECT * FROM " + table
  }

  /** `operate_db(file_name, table_name, *args)` up to the commit. */
  function OperateDb(table: string, args: seq<Arg>): (d: Dispatch)
    ensures d.Query? <==> |args| >= 1 && args[0] == Str("select")
    ensures d.Execute? ==> |args| >= 2 && args[1].Dict?
  {
    if |args| == 0 then Raises
    else if args[0] == Str("insert") then
      if |args| < 2 || !args[1].Dict? then Raises
      else Execute(Statement(InsertSql(table, args[1].entries), Positional(Values(args[1].entries))))
    else if args[0] == Str("update") then
      if |args| < 3 || !args[1].Dict? || !args[2].Dict? then Raises
      else
        var changes, filter := args[1].entries, args[2].entries;
        Execute(Statement(UpdateSql(table, changes, filter), Named(UpdateParams(changes, filter))))
    else if args[0] == Str("delete") then
      if |args| < 2 || !args[1].Dict? || |args[1].entries| == 0 then Raises
      else
        var first := args[1].entries[0];
        Execute(Statement(DeleteSql(table, first.key), Positional([first.value])))
    else if args[0] == Str("select") then
      if |args| >= 2 && args[1].Dict? && |args[1].entries| > 0 then
        var first := args[1].entries[0];
        Query(Statement(SelectWhereSql(table, first.key), Positional([first.value])))
      else Query(Statement(SelectAllSql(table), NoParams))
    else NoStatement
  }

  /** Whether `operate_db` commits and calls `post_file(file_name, file_name, 'replace')` after the dispatch. */
  predicate UploadsAfter(d: Dispatch) {
    d.Execute? || d.NoStatement?
  }

  /** A Python dict never holds a key twice. */
  predicate DistinctKeys(d: seq<Entry>) {
    forall i, j | 0 <= i < j < |d| :: d[i].key != d[j].key
  }

  // ---------------------------------------------------------------------------
  // Named parameters: SQLite reads `:name` with `name` made of letters, digits and `_`

  predicate IsNameChar(c: char) {
    'a' <= c <= 'z' || 'A' <= c <= 'Z' || '0' <= c <= '9' || c == '_'
  }

  predicate IsName(s: string) {
    |s| > 0 && forall i | 0 <= i < |s| :: IsNameChar(s[i])
  }

  /** The length of the longest prefix of `s` made of name characters. */
  function NameLength(s: string): (n: nat)
    ensures n <= |s|
    ensures forall i | 0 <= i < n :: IsNameChar(s[i])
    ensures n < |s| ==> !IsNameChar(s[n])
  {
    if s == [] || !IsNameChar(s[0]) then 0 else 1 + NameLength(s[1..])
  }

  /** The named parameters a statement text refers to, in order. */
  function Refs(s: string): seq<string>
    decreases |s|
  {
    if s == [] then []
    else if s[0] == ':' then
      var n := NameLength(s[1..]);
      [s[1..1 + n]] + Refs(s[1 + n..])
    else Refs(s[1..])
  }

  // ---------------------------------------------------------------------------
  // Lemmas about dicts

  lemma {:induction false} ToMapLookup(d: seq<Entry>, i: nat)
    requires DistinctKeys(d) && i < |d|
    ensures d[i].key in ToMap(d) && ToMap(d)[d[i].key] == d[i].value
  {
    var last := |d| - 1;
    if i < last {
      ToMapLookup(d[..last], i);
    }
  }

  lemma {:induction false} ToMapKeys(d: seq<Entry>, k: string)
    ensures k in ToMap(d) <==> k in Keys(d)
  {
    if d != [] {
      ToMapKeys(d[..|d| - 1], k);
      assert Keys(d) == Keys(d[..|d| - 1]) + [d[|d| - 1].key];
    }
  }

  lemma PrefixInjective(x: string, y: string)
    ensures "where_" + x == "where_" + y ==> x == y
  {
    if "where_" + x == "where_" + y {
      assert x == ("where_" + x)[6..];
    }
  }

  /** The where map holds `where_x` exactly for the keys `x` of the where dict, with the same value. */
  lemma {:induction false} PrefixedLookup(d: seq<Entry>, x: string)
    ensures "where_" + x in Prefixed(d) <==> x in ToMap(d)
    ensures x in ToMap(d) ==> Prefixed(d)["where_" + x] == ToMap(d)[x]
  {
    if d != [] {
      PrefixedLookup(d[..|d| - 1], x);
      PrefixInjective(x, d[|d| - 1].key);
    }
  }

  /** Every key of the where map starts with `where_`. */
  lemma {:induction false} PrefixedKeys(d: seq<Entry>, k: string)
    requires k in Prefixed(d)
    ensures exists x :: x in ToMap(d) && k == "where_" + x
  {
    var last := |d| - 1;
    if k == "where_" + d[last].key {
      assert d[last].key in ToMap(d);
    } else {
      PrefixedKeys(d[..last], k);
      var x :| x in ToMap(d[..last]) && k == "where_" + x;
      assert x in ToMap(d);
    }
  }

  /**
    The parameters of an update: `where_x` is bound to the where value of `x`,
    even when the new values also hold a key `where_x`; every other key of the
    new values keeps its value; and nothing else is bound.
   */
  lemma UpdateParamsLookup(changes: seq<Entry>, filter: seq<Entry>, k: string)
    ensures k in UpdateParams(changes, filter) <==>
      k in ToMap(changes) || exists x :: x in ToMap(filter) && k == "where_" + x
    ensures forall x | x in ToMap(filter) && k == "where_" + x ::
      k in UpdateParams(changes, filter) && UpdateParams(changes, filter)[k] == ToMap(filter)[x]
    ensures k in ToMap(changes) && (forall x | x in ToMap(filter) :: k != "where_" + x) ==>
      UpdateParams(changes, filter)[k] == ToMap(changes)[k]
  {
    if k in Prefixed(filter) {
      PrefixedKeys(filter, k);
    }
    forall x | x in ToMap(filter) && k == "where_" + x
      ensures k in UpdateParams(changes, filter) && UpdateParams(changes, filter)[k] == ToMap(filter)[x]
    {
      PrefixedLookup(filter, x);
    }
    forall x | x in ToMap(filter) && k == "where_" + x
      ensures k in Prefixed(filter)
    {
      PrefixedLookup(filter, x);
    }
  }

  // ---------------------------------------------------------------------------
  // Positional placeholders

  lemma {:induction false} JoinExcludes(c: char, sep: string, parts: seq<string>)
    requires c !in sep
    requires forall i | 0 <= i < |parts| :: c !in parts[i]
    ensures c !in Join(sep, parts)
  {
    if |parts| > 1 {
      JoinExcludes(c, sep, parts[1..]);
    }
  }

  lemma {:induction false} PlaceholderCount(n: nat)
    ensures Count('?', Placeholders(n)) == n
  {
    if n > 1 {
      PlaceholderCount(n - 1);
      assert seq(n, _ => "?")[1..] == seq(n - 1, _ => "?");
      CountAppend('?', "?", ", " + Placeholders(n - 1));
      CountAppend('?', ", ", Placeholders(n - 1));
      assert Placeholders(n) == "?" + (", " + Placeholders(n - 1));
    } else if n == 1 {
      assert Placeholders(1) == "?";
    }
  }

  /**
    An insert has exactly one `?` per value it binds, provided no column name
    and not the table name holds a `?` of its own.
   */
  lemma InsertBindsEveryPlaceholder(table: string, data: seq<Entry>)
    requires '?' !in table
    requires forall i | 0 <= i < |data| :: '?' !in data[i].key
    ensures Count('?', InsertSql(table, data)) == |Values(data)|
  {
    var head := "INSERT INTO " + table + " (" + Join(", ", Keys(data));
    var tail := ") VALUES \n                        (" + Placeholders(|data|) + ")";
    assert InsertSql(table, data) == head + tail;
    InsertHeadCount(table, data);
    InsertTailCount(|data|);
    CountAppend('?', head, tail);
  }

  lemma InsertHeadCount(table: string, data: seq<Entry>)
    requires '?' !in table
    requires forall i | 0 <= i < |data| :: '?' !in data[i].key
    ensures Count('?', "INSERT INTO " + table + " (" + Join(", ", Keys(data))) == 0
  {
    JoinExcludes('?', ", ", Keys(data));
    CountAbsent('?', "INSERT INTO " + table + " (" + Join(", ", Keys(data)));
  }

  lemma InsertTailCount(n: nat)
    ensures Count('?', ") VALUES \n                        (" + Placeholders(n) + ")") == n
  {
    PlaceholderCount(n);
    CountBetween('?', ") VALUES \n                        (", Placeholders(n), ")");
  }

  lemma CountBetween(c: char, a: string, m: string, b: string)
    requires c !in a && c !in b
    ensures Count(c, a + m + b) == Count(c, m)
  {
    CountAbsent(c, a);
    CountAbsent(c, b);
    CountAppend(c, a, m);
    CountAppend(c, a + m, b);
  }

  // ---------------------------------------------------------------------------
  // Named placeholders

  lemma {:induction false} NameLengthAppend(x: string, b: string)
    requires b == [] || !IsNameChar(b[0])
    ensures NameLength(x + b) == NameLength(x)
  {
    if x != [] {
      assert (x + b)[1..] == x[1..] + b;
      NameLengthAppend(x[1..], b);
    } else {
      assert x + b == b;
    }
  }

  lemma {:induction false} NameLengthOfName(k: string, b: string)
    requires IsName(k)
    requires b == [] || !IsNameChar(b[0])
    ensures NameLength(k + b) == |k|
  {
    if |k| > 1 {
      assert (k + b)[1..] == k[1..] + b;
      NameLengthOfName(k[1..], b);
    } else {
      assert (k + b)[1..] == b;
    }
  }

  /** A text with no `:` refers to no parameter, wherever it is placed. */
  lemma {:induction false} RefsSkip(a: string, b: string)
    requires ':' !in a
    ensures Refs(a + b) == Refs(b)
  {
    if a != [] {
      assert (a + b)[0] == a[0] && (a + b)[1..] == a[1..] + b;
      RefsSkip(a[1..], b);
    } else {
      assert a + b == b;
    }
  }

  /** The references of two texts add up when the second cannot extend a name left open by the first. */
  lemma {:induction false} RefsAppend(a: string, b: string)
    requires b == [] || !IsNameChar(b[0])
    ensures Refs(a + b) == Refs(a) + Refs(b)
    decreases |a|
  {
    if a == [] {
      assert a + b == b;
    } else if a[0] != ':' {
      assert (a + b)[1..] == a[1..] + b;
      RefsAppend(a[1..], b);
    } else {
      var c := a + b;
      assert c[0] == ':' && c[1..] == a[1..] + b;
      NameLengthAppend(a[1..], b);
      var n := NameLength(a[1..]);
      assert c[1..1 + n] == a[1..1 + n] && c[1 + n..] == a[1 + n..] + b;
      RefsAppend(a[1 + n..], b);
      assert Refs(c) == [c[1..1 + n]] + Refs(c[1 + n..]);
    }
  }

  lemma RefsOfAssignment(k: string, target: string)
    requires IsName(k) && IsName(target)
    ensures Refs(k + " = :" + target) == [target]
  {
    assert ':' !in k + " = " by {
      forall i | 0 <= i < |k + " = "| ensures (k + " = ")[i] != ':' {
        if i < |k| { assert IsNameChar(k[i]); }
      }
    }
    var t := ":" + target;
    assert k + " = :" + target == (k + " = ") + t;
    RefsSkip(k + " = ", t);
    NameLengthOfName(target, []);
    assert target + [] == target;
    assert t[0] == ':' && t[1..] == target;
    assert t[1..1 + |target|] == target && t[1 + |target|..] == [];
    assert Refs(t) == [t[1..1 + |target|]] + Refs(t[1 + |target|..]);
  }

  /** The references of a join are those of its parts, when the separator holds no `:` and starts with no name character. */
  lemma {:induction false} RefsOfJoin(sep: string, parts: seq<string>)
    requires |sep| > 0 && !IsNameChar(sep[0]) && ':' !in sep
    ensures Refs(Join(sep, parts)) == Flatten(seq(|parts|, i requires 0 <= i < |parts| => Refs(parts[i])))
  {
    var refs := seq(|parts|, i requires 0 <= i < |parts| => Refs(parts[i]));
    if |parts| == 0 {
    } else if |parts| == 1 {
      assert Flatten(refs) == refs[0] + Flatten([]);
    } else {
      var rest := Join(sep, parts[1..]);
      RefsOfJoin(sep, parts[1..]);
      assert (sep + rest)[0] == sep[0];
      assert Join(sep, parts) == parts[0] + (sep + rest);
      RefsAppend(parts[0], sep + rest);
      RefsSkip(sep, rest);
      assert refs[1..] == seq(|parts| - 1, i requires 0 <= i < |parts| - 1 => Refs(parts[1..][i]));
      assert Flatten(refs) == refs[0] + Flatten(refs[1..]);
    }
  }

  function Flatten(xss: seq<seq<string>>): seq<string> {
    if xss == [] then [] else xss[0] + Flatten(xss[1..])
  }

  /**
    The named parameters an update refers to are its new-value keys, in order,
    then `where_` and each where key, in order, provided every key is a name
    and the table name holds no `:`.
   */
  lemma UpdateRefs(table: string, changes: seq<Entry>, filter: seq<Entry>)
    requires ':' !in table
    requires forall i | 0 <= i < |changes| :: IsName(changes[i].key)
    requires forall i | 0 <= i < |filter| :: IsName(filter[i].key)
    ensures Refs(UpdateSql(table, changes, filter))
      == Keys(changes) + seq(|filter|, i requires 0 <= i < |filter| => "where_" + filter[i].key)
  {
    var ks, ws := Keys(changes), Keys(filter);
    var setParts := seq(|ks|, i requires 0 <= i < |ks| => ks[i] + " = :" + ks[i]);
    var whereParts := seq(|ws|, i requires 0 <= i < |ws| => ws[i] + " = :where_" + ws[i]);
    SetClauseRefs(ks, setParts);
    WhereClauseRefs(ws, whereParts);
    var head := "UPDATE " + table + " SET ";
    assert ':' !in head;
    var tail := " WHERE " + WhereClause(ws);
    assert UpdateSql(table, changes, filter) == head + (SetClause(ks) + tail);
    RefsSkip(head, SetClause(ks) + tail);
    RefsAppend(SetClause(ks), tail);
    assert ':' !in " WHERE ";
    RefsSkip(" WHERE ", WhereClause(ws));
  }

  lemma SetClauseRefs(ks: seq<string>, parts: seq<string>)
    requires forall i | 0 <= i < |ks| :: IsName(ks[i])
    requires parts == seq(|ks|, i requires 0 <= i < |ks| => ks[i] + " = :" + ks[i])
    ensures Refs(SetClause(ks)) == ks
  {
    forall i | 0 <= i < |ks| ensures Refs(parts[i]) == [ks[i]] {
      RefsOfAssignment(ks[i], ks[i]);
    }
    RefsOfJoin(", ", parts);
    FlattenSingletons(seq(|parts|, i requires 0 <= i < |parts| => Refs(parts[i])), ks);
  }

  lemma WhereClauseRefs(ws: seq<string>, parts: seq<string>)
    requires forall i | 0 <= i < |ws| :: IsName(ws[i])
    requires parts == seq(|ws|, i requires 0 <= i < |ws| => ws[i] + " = :where_" + ws[i])
    ensures Refs(WhereClause(ws)) == seq(|ws|, i requires 0 <= i < |ws| => "where_" + ws[i])
  {
    var targets := seq(|ws|, i requires 0 <= i < |ws| => "where_" + ws[i]);
    forall i | 0 <= i < |ws| ensures Refs(parts[i]) == [targets[i]] {
      assert IsName(targets[i]) by {
        forall j | 0 <= j < |targets[i]| ensures IsNameChar(targets[i][j]) {
          if j >= 6 { assert targets[i][j] == ws[i][j - 6]; }
        }
      }
      assert parts[i] == ws[i] + " = :" + targets[i];
      RefsOfAssignment(ws[i], targets[i]);
    }
    RefsOfJoin(" AND ", parts);
    FlattenSingletons(seq(|parts|, i requires 0 <= i < |parts| => Refs(parts[i])), targets);
  }

  lemma {:induction false} FlattenSingletons(xss: seq<seq<string>>, xs: seq<string>)
    requires |xss| == |xs| && forall i | 0 <= i < |xs| :: xss[i] == [xs[i]]
    ensures Flatten(xss) == xs
  {
    if xs != [] {
      FlattenSingletons(xss[1..], xs[1..]);
    }
  }

  /** Every named parameter an update refers to is bound by its parameters. */
  lemma UpdateBindsEveryName(table: string, changes: seq<Entry>, filter: seq<Entry>)
    requires ':' !in table
    requires forall i | 0 <= i < |changes| :: IsName(changes[i].key)
    requires forall i | 0 <= i < |filter| :: IsName(filter[i].key)
    ensures forall r | r in Refs(UpdateSql(table, changes, filter)) :: r in UpdateParams(changes, filter)
  {
    UpdateRefs(table, changes, filter);
    forall r | r in Refs(UpdateSql(table, changes, filter)) ensures r in UpdateParams(changes, filter) {
      var refs := Refs(UpdateSql(table, changes, filter));
      var i :| 0 <= i < |refs| && refs[i] == r;
      if i < |changes| {
        ToMapKeys(changes, r);
      } else {
        var x := filter[i - |changes|].key;
        ToMapKeys(filter, x);
        PrefixedLookup(filter, x);
      }
    }
  }

  // ---------------------------------------------------------------------------
  // Comma-separated lists

  /** Each element after the first, with the space that `', '` leaves in front of it. */
  function SpaceLed(xs: seq<string>): (ys: seq<string>)
    ensures |ys| == |xs| && forall i | 0 <= i < |xs| :: ys[i] == " " + xs[i]
  {
    seq(|xs|, i requires 0 <= i < |xs| => " " + xs[i])
  }

  lemma JoinComma(xs: seq<string>)
    requires |xs| >= 2
    ensures Join(", ", xs) == xs[0] + [','] + (" " + Join(", ", xs[1..]))
  {
  }

  lemma SpaceLedCons(xs: seq<string>)
    requires |xs| >= 1
    ensures SpaceLed(xs) == [" " + xs[0]] + SpaceLed(xs[1..])
  {
  }

  /** A leading space joins the first field of a split on `,`. */
  lemma SplitAfterSpace(s: string)
    ensures var parts := Split(s, ',');
      Split(" " + s, ',') == [" " + parts[0]] + parts[1..]
  {
    assert (" " + s)[0] == ' ' && (" " + s)[1..] == s;
  }

  /** Splitting a `', '`-join on `,` gives the first element, then each other one after a space. */
  lemma {:induction false} SplitCommaJoin(xs: seq<string>)
    requires |xs| >= 1
    requires forall i | 0 <= i < |xs| :: ',' !in xs[i]
    ensures Split(Join(", ", xs), ',') == [xs[0]] + SpaceLed(xs[1..])
  {
    if |xs| == 1 {
      SplitWithoutSeparator(xs[0], ',');
    } else {
      var rest := Join(", ", xs[1..]);
      SplitCommaJoin(xs[1..]);
      JoinComma(xs);
      SplitAtFirstSeparator(xs[0], ',', " " + rest);
      SplitAfterSpace(rest);
      SpaceLedCons(xs[1..]);
    }
  }

  // ---------------------------------------------------------------------------
  // The column list of create_local_db

  /** A column name or type that the column list can carry unambiguously. */
  predicate PlainWord(s: string) {
    ' ' !in s && ',' !in s
  }

  lemma DefFields(c: Column)
    requires PlainWord(c.name) && PlainWord(c.sqlType)
    ensures Split(Def(c), ' ') == [c.name, c.sqlType]
    ensures Split(" " + Def(c), ' ') == ["", c.name, c.sqlType]
  {
    SplitWithoutSeparator(c.sqlType, ' ');
    SplitAtFirstSeparator(c.name, ' ', c.sqlType);
    SplitAtFirstSeparator("", ' ', Def(c));
    assert " " + Def(c) == "" + [' '] + Def(c);
  }

  lemma {:induction false} ParseLaterDefs(data: seq<Column>)
    requires forall i | 0 <= i < |data| :: PlainWord(data[i].name) && PlainWord(data[i].sqlType)
    ensures ParseDefs(SpaceLed(Defs(data)), false) == Some(data)
  {
    if data != [] {
      DefFields(data[0]);
      ParseLaterDefs(data[1..]);
      assert SpaceLed(Defs(data))[1..] == SpaceLed(Defs(data[1..]));
      assert [data[0]] + data[1..] == data;
    }
  }

  /** The column list of `create_local_db` reads back as the columns it was made from. */
  lemma ColumnDefsRoundTrip(data: seq<Column>)
    requires forall i | 0 <= i < |data| :: PlainWord(data[i].name) && PlainWord(data[i].sqlType)
    ensures ParseColumnDefs(ColumnDefs(data)) == Some(data)
  {
    if data != [] {
      var defs := Defs(data);
      forall i | 0 <= i < |defs| ensures ',' !in defs[i] {
        assert ',' !in Def(data[i]);
      }
      SplitCommaJoin(defs);
      assert ColumnDefs(data) != "" by {
        assert |defs[0]| > 0;
        if |defs| > 1 { assert |ColumnDefs(data)| >= |defs[0]|; }
      }
      DefFields(data[0]);
      ParseLaterDefs(data[1..]);
      assert defs[1..] == Defs(data[1..]);
      assert [data[0]] + data[1..] == data;
    }
  }

  // ---------------------------------------------------------------------------
  // operate_db

  /** The column list of an insert. */
  function InsertColumns(data: seq<Entry>): string {
    Join(", ", Keys(data))
  }

  /**
    An insert names its columns in the dict's order and binds the values in
    the same order: the i-th column of the list gets the i-th value.
   */
  lemma InsertColumnsMatchValues(table: string, data: seq<Entry>, rest: seq<Arg>)
    requires |data| >= 1
    requires forall i | 0 <= i < |data| :: ',' !in data[i].key
    ensures OperateDb(table, [Str("insert"), Dict(data)] + rest)
      == Execute(Statement(InsertSql(table, data), Positional(Values(data))))
    ensures Split(InsertColumns(data), ',') == [data[0].key] + SpaceLed(Keys(data)[1..])
    ensures forall i | 0 <= i < |data| :: Keys(data)[i] == data[i].key && Values(data)[i] == data[i].value
  {
    SplitCommaJoin(Keys(data));
  }

  /**
    Only the first entry of a delete's or a select's filter dict is used: two
    filters with the same first entry give the same statement.
   */
  lemma FilterUsesFirstEntryOnly(table: string, tag: string, f: seq<Entry>, g: seq<Entry>, rest: seq<Arg>, others: seq<Arg>)
    requires tag == "delete" || tag == "select"
    requires |f| >= 1 && |g| >= 1 && f[0] == g[0]
    ensures OperateDb(table, [Str(tag), Dict(f)] + rest) == OperateDb(table, [Str(tag), Dict(g)] + others)
  {
  }

  /** A delete binds one value, the first filter entry's, to its one `?`. */
  lemma DeleteBindsFirstEntry(table: string, f: seq<Entry>, rest: seq<Arg>)
    requires |f| >= 1 && '?' !in table && '?' !in f[0].key
    ensures OperateDb(table, [Str("delete"), Dict(f)] + rest).Execute?
    ensures OperateDb(table, [Str("delete"), Dict(f)] + rest).stmt.params == Positional([f[0].value])
    ensures Count('?', OperateDb(table, [Str("delete"), Dict(f)] + rest).stmt.sql) == 1
  {
    var where := f[0].key;
    CountBetween('?', "DELETE FROM " + table + " WHERE " + where + "=", "?", "");
    assert DeleteSql(table, where) == ("DELETE FROM " + table + " WHERE " + where + "=") + "?" + "";
  }

  /**
    A select with a non-empty filter dict queries the rows whose first filter
    column equals the first filter value; with no filter, an empty one or
    anything but a dict it returns every row. It never raises.
   */
  lemma SelectFilter(table: string, args: seq<Arg>)
    requires |args| >= 1 && args[0] == Str("select")
    ensures OperateDb(table, args).Query?
    ensures |args| >= 2 && args[1].Dict? && |args[1].entries| >= 1 ==>
      var first := args[1].entries[0];
      OperateDb(table, args).stmt == Statement(SelectWhereSql(table, first.key), Positional([first.value]))
    ensures !(|args| >= 2 && args[1].Dict? && |args[1].entries| >= 1) ==>
      OperateDb(table, args).stmt == Statement("SELECT * FROM " + table, NoParams)
  {
  }

  /**
    Where `operate_db` ends: it raises exactly when it has no arguments or the
    arguments a write needs are missing or not dicts (an empty delete filter
    included); a select returns rows and is the only call that does not upload;
    every other call, an unknown operation included, uploads the file with
    `replace` afterwards.
   */
  lemma OperateDbOutcome(table: string, args: seq<Arg>)
    ensures OperateDb(table, args).Raises? <==>
      |args| == 0
      || (args[0] == Str("insert") && (|args| < 2 || !args[1].Dict?))
      || (args[0] == Str("update") && (|args| < 3 || !args[1].Dict? || !args[2].Dict?))
      || (args[0] == Str("delete") && (|args| < 2 || !args[1].Dict? || args[1].entries == []))
    ensures OperateDb(table, args).Query? <==> |args| >= 1 && args[0] == Str("select")
    ensures UploadsAfter(OperateDb(table, args)) <==>
      |args| >= 1 && args[0] != Str("select") && !OperateDb(table, args).Raises?
    ensures OperateDb(table, args).NoStatement? <==>
      |args| >= 1 && args[0] !in [Str("insert"), Str("update"), Str("delete"), Str("select")]
  {
  }

  /** When the new values hold a key `where_a` and the filter a key `a`, the filter's value is bound. */
  lemma UpdateCollision(v: Value, w: Value)
    ensures UpdateParams([Entry("where_a", v)], [Entry("a", w)]) == map["where_a" := w]
  {
    assert ToMap([Entry("where_a", v)]) == map["where_a" := v];
    assert [Entry("a", w)][..0] == [];
    assert "where_" + "a" == "where_a";
    assert Prefixed([Entry("a", w)]) == map["where_a" := w];
  }
}
