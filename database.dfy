/**
  The query-building layer of `databases/database.py`.

  `Query`, `Table` and `Database` are write-once objects whose fields are set only
  by their constructors, so they are modelled as values: the `op`, `param`,
  `table` and `child` accessors of `Query`, and `database`/`name` of `Table`,
  are the datatype's destructors and return exactly what was passed in.
  The catalog reads (`get_tables()`, `get_columns()`) are passed in as lists.
 */
module Databases {
  import opened Wrappers
  import opened Errors
  import opened Text

  /** `QueryOp`: the kind of a query stage. */
  datatype QueryOp = SELECT | WHERE

  /**
    A Python value of unknown type, as a query parameter or a lookup key is typed
    (`Any`): a string, a list of strings, or anything else.
   */
  datatype Value = Str(s: string) | StrList(items: seq<string>) | Other

  /** The concrete resolvers; `SqliteResolver` is the only one the repository implements. */
  datatype Resolver = SqliteResolver

  /** A database owns the resolver that its queries render themselves with. */
  datatype Database = Database(resolver: Resolver)

  datatype Table = Table(database: Database, name: string)

  /** One stage of a query chain; `child` is the previous stage (`None` by default). */
  datatype Query = Query(table: Table, op: QueryOp, param: Value, child: Option<Query>)

  const Wildcard: Value := Str("*")

  /**
    `Table.select(columns)`: a base `SELECT` stage with no child; the wildcard `"*"`
    is replaced by the table's current column list `tableColumns`, anything else is
    stored as given.
   */
  function Select(t: Table, columns: Value, tableColumns: seq<string>): (q: Query)
    ensures q.op == SELECT && q.child == None && q.table == t
    ensures columns == Wildcard ==> q.param == StrList(tableColumns)
    ensures columns != Wildcard ==> q.param == columns
  {
    Query(t, SELECT, if columns == Wildcard then StrList(tableColumns) else columns, None)
  }

  const KeyTypeMsg := "Database name must be of type str"

  function MissingTableMsg(name: string): string {
    "Database '" + name + "' does not exist"
  }

  /**
    `Database.__getitem__(item)` against the catalog `tables`: a non-string key
    raises `TypeError`, a name outside the catalog raises `KeyError`, and otherwise
    the result is the table of that name in this database.
   */
  function GetItem(db: Database, item: Value, tables: seq<string>): (r: Result<Table, Error>)
    ensures !item.Str? ==> r == Failure(TypeError(KeyTypeMsg))
    ensures item.Str? && item.s !in tables ==> r == Failure(KeyError(MissingTableMsg(item.s)))
    ensures r.Success? <==> item.Str? && item.s in tables
    ensures r.Success? ==> r.value.database == db && r.value.name == item.s && r.value.name in tables
  {
    if !item.Str? then Failure(TypeError(KeyTypeMsg))
    else if item.s !in tables then Failure(KeyError(MissingTableMsg(item.s)))
    else Success(Table(db, item.s))
  }

  // ---------------------------------------------------------------- chain shape

  /** The stages of a query chain from the head `q` down to its base. */
  function Chain(q: Query): (c: seq<Query>)
    ensures |c| >= 1 && c[0] == q
    ensures q.child.None? <==> |c| == 1
    ensures c[|c| - 1].child.None?
  {
    match q.child
    case None => [q]
    case Some(ch) =>
      var rest := Chain(ch);
      assert ([q] + rest)[|rest|] == rest[|rest| - 1];
      [q] + rest
  }

  /** Each stage of the chain is the child of the stage before it. */
  lemma {:induction false} ChainLinks(q: Query)
    ensures forall i :: 0 <= i < |Chain(q)| - 1 ==> Chain(q)[i].child == Some(Chain(q)[i + 1])
  {
    if q.child.Some? {
      var c := Chain(q);
      var rest := Chain(q.child.value);
      ChainLinks(q.child.value);
      assert c == [q] + rest;
      forall i | 0 <= i < |c| - 1 ensures c[i].child == Some(c[i + 1]) {
        if i > 0 {
          assert c[i] == rest[i - 1] && c[i + 1] == rest[i];
        }
      }
    }
  }

  function WhereCount(c: seq<Query>): nat {
    if c == [] then 0 else (if c[0].op == WHERE then 1 else 0) + WhereCount(c[1..])
  }

  /**
    The chains a resolver can render: a lone `SELECT` over a column list, or a `WHERE`
    with a predicate string directly over such a `SELECT`.
   */
  predicate Resolvable(q: Query) {
    var c := Chain(q);
    (|c| == 1 && q.op == SELECT && q.param.StrList?)
    || (|c| == 2 && q.op == WHERE && q.param.Str? && c[1].op == SELECT && c[1].param.StrList?)
  }

  /** The text of a resolvable chain: the base's projection and table, then the filter if any. */
  function Rendered(q: Query): string
    requires Resolvable(q)
  {
    var c := Chain(q);
    var base := c[|c| - 1];
    var select := "SELECT " + Join(",", base.param.items) + " FROM " + base.table.name;
    if q.op == SELECT then select else select + " WHERE " + q.param.s
  }

  /** A resolvable chain ends in a `SELECT` and holds at most one `WHERE`. */
  lemma ResolvableShape(q: Query)
    requires Resolvable(q)
    ensures Chain(q)[|Chain(q)| - 1].op == SELECT
    ensures |Chain(q)| <= 2 && WhereCount(Chain(q)) <= 1
  {
    var c := Chain(q);
    if |c| == 2 {
      assert c[1..][1..] == [];
      assert WhereCount(c[1..]) == 0;
    }
  }
}
