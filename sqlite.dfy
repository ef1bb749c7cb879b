/**
  The SQLite dialect of `databases/sqlite.py`: the resolver that renders a query
  chain as SQL text, the catalog projections over fetched rows, and the checked
  table lookup. `Query.resolve` (`databases/database.py`) is here too, because it
  and the resolver call each other.
 */
module Sqlite {
  import opened Wrappers
  import opened Errors
  import opened Text
  import opened Databases

  const SelectParamMsg := "Param for select query has to be of type list."
  const SelectChildMsg := "Select query can not have a child."
  const WhereParamMsg := "Param for where query has to be of type str."
  const WhereNoChildMsg := "Child for where query can not be None."
  const WhereChildOpMsg := "Child query has to have QueryOp = SELECT."

  /**
    `SqliteResolver.resolve(query)`. It succeeds exactly on the resolvable chains and
    then yields their rendered text; every failure is a `TypeError` or a `ValueError`.
   */
  function SqliteResolve(q: Query): (r: Result<string, Error>)
    ensures r.Success? <==> Resolvable(q)
    ensures r.Success? ==> r.value == Rendered(q)
    ensures r.Failure? ==> r.error.TypeError? || r.error.ValueError?
    decreases q, 0
  {
    match q.op
    case SELECT =>
      if !q.param.StrList? then Failure(TypeError(SelectParamMsg))
      else if q.child.Some? then Failure(ValueError(SelectChildMsg))
      else Success("SELECT " + Join(",", q.param.items) + " FROM " + q.table.name)
    case WHERE =>
      if !q.param.Str? then Failure(TypeError(WhereParamMsg))
      else if q.child.None? then Failure(ValueError(WhereNoChildMsg))
      else if q.child.value.op != SELECT then Failure(ValueError(WhereChildOpMsg))
      else
        var selectSql :- QueryResolve(q.child.value);
        Success(selectSql + " WHERE " + q.param.s)
  }

  /** `Query.resolve()`: hands the query to the resolver of its table's database. */
  function QueryResolve(q: Query): (r: Result<string, Error>)
    ensures r.Success? <==> Resolvable(q)
    ensures r.Success? ==> r.value == Rendered(q)
    ensures r.Failure? ==> r.error.TypeError? || r.error.ValueError?
    decreases q, 1
  {
    match q.table.database.resolver
    case SqliteResolver => SqliteResolve(q)
  }

  /**
    Which exception each malformed stage raises. The parameter's type is checked
    before the child, and a `WHERE` whose child is itself a `WHERE` is refused.
   */
  lemma ResolveErrors(q: Query)
    ensures q.op == SELECT && !q.param.StrList? ==> QueryResolve(q) == Failure(TypeError(SelectParamMsg))
    ensures q.op == SELECT && q.param.StrList? && q.child.Some?
      ==> QueryResolve(q) == Failure(ValueError(SelectChildMsg))
    ensures q.op == WHERE && !q.param.Str? ==> QueryResolve(q) == Failure(TypeError(WhereParamMsg))
    ensures q.op == WHERE && q.param.Str? && q.child.None?
      ==> QueryResolve(q) == Failure(ValueError(WhereNoChildMsg))
    ensures q.op == WHERE && q.param.Str? && q.child.Some? && q.child.value.op == WHERE
      ==> QueryResolve(q) == Failure(ValueError(WhereChildOpMsg))
    ensures q.op == WHERE && q.param.Str? && q.child.Some? && q.child.value.op == SELECT
      && QueryResolve(q.child.value).Failure?
      ==> QueryResolve(q) == QueryResolve(q.child.value)
  {
  }

  /** A `WHERE` stage appends its predicate to its child's text, which is a strict prefix of the result. */
  lemma WhereExtendsChild(q: Query)
    requires q.op == WHERE && QueryResolve(q).Success?
    ensures q.child.Some? && QueryResolve(q.child.value).Success?
    ensures QueryResolve(q).value == QueryResolve(q.child.value).value + " WHERE " + q.param.s
    ensures |QueryResolve(q.child.value).value| < |QueryResolve(q).value|
    ensures QueryResolve(q).value[..|QueryResolve(q.child.value).value|] == QueryResolve(q.child.value).value
  {
  }

  /**
    `Table.select`: the wildcard resolves exactly like the explicit column list it
    stands for, and any column list, the empty one included, renders as
    `SELECT c1,c2 FROM t` with no space after the commas.
   */
  lemma SelectResolves(t: Table, columns: Value, tableColumns: seq<string>)
    ensures columns == Wildcard
      ==> QueryResolve(Select(t, columns, tableColumns)) == QueryResolve(Select(t, StrList(tableColumns), tableColumns))
    ensures columns == Wildcard
      ==> QueryResolve(Select(t, columns, tableColumns)) == Success("SELECT " + Join(",", tableColumns) + " FROM " + t.name)
    ensures columns.StrList?
      ==> QueryResolve(Select(t, columns, tableColumns)) == Success("SELECT " + Join(",", columns.items) + " FROM " + t.name)
    ensures !columns.StrList? && columns != Wildcard
      ==> QueryResolve(Select(t, columns, tableColumns)) == Failure(TypeError(SelectParamMsg))
  {
  }

  // ---------------------------------------------------------------- catalog

  /** A fetched row: its fields in the order the statement selected them. */
  type Row = seq<string>

  const RowIndexMsg := "tuple index out of range"

  /** `list(map(lambda r: r[k], rows))`: field `k` of every row, in row order. */
  function Field(rows: seq<Row>, k: nat): (r: Result<seq<string>, Error>)
    ensures r.Success? <==> forall i :: 0 <= i < |rows| ==> k < |rows[i]|
    ensures r.Success? ==> |r.value| == |rows|
    ensures r.Success? ==> forall i :: 0 <= i < |rows| ==> r.value[i] == rows[i][k]
    ensures r.Failure? ==> r.error == IndexError(RowIndexMsg)
  {
    if rows == [] then Success([])
    else if k >= |rows[0]| then Failure(IndexError(RowIndexMsg))
    else
      var rest :- Field(rows[1..], k);
      Success([rows[0][k]] + rest)
  }

  /** `SqliteTable.get_columns()` over the rows of `PRAGMA table_info(name)`: their second field. */
  function GetColumns(pragmaRows: seq<Row>): (r: Result<seq<string>, Error>)
    ensures r.Success? <==> forall i :: 0 <= i < |pragmaRows| ==> 1 < |pragmaRows[i]|
    ensures r.Success? ==> |r.value| == |pragmaRows|
    ensures r.Success? ==> forall i :: 0 <= i < |pragmaRows| ==> r.value[i] == pragmaRows[i][1]
  {
    Field(pragmaRows, 1)
  }

  /** `SqliteDatabase.get_tables()` over the rows of the `sqlite_master` query: their first field. */
  function GetTables(masterRows: seq<Row>): (r: Result<seq<string>, Error>)
    ensures r.Success? <==> forall i :: 0 <= i < |masterRows| ==> 0 < |masterRows[i]|
    ensures r.Success? ==> |r.value| == |masterRows|
    ensures r.Success? ==> forall i :: 0 <= i < |masterRows| ==> r.value[i] == masterRows[i][0]
  {
    Field(masterRows, 0)
  }

  /**
    `SqliteDatabase.__getitem__(item)`: the key is type-checked before the catalog is
    read; once the catalog is read it behaves as the base class's lookup.
   */
  function SqliteGetItem(db: Database, item: Value, masterRows: seq<Row>): (r: Result<Table, Error>)
    ensures !item.Str? ==> r == Failure(TypeError(KeyTypeMsg))
    ensures item.Str? && GetTables(masterRows).Failure? ==> r == Failure(GetTables(masterRows).error)
    ensures GetTables(masterRows).Success? ==> r == GetItem(db, item, GetTables(masterRows).value)
    ensures r.Success? ==> r.value.name == item.s && r.value.database == db
  {
    if !item.Str? then Failure(TypeError(KeyTypeMsg))
    else
      var tables :- GetTables(masterRows);
      if item.s !in tables then Failure(KeyError(MissingTableMsg(item.s)))
      else Success(Table(db, item.s))
  }
}
