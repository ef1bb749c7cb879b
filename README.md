# A verified model of the dbms query layer

The repository is a small SQLite table viewer. Its core is pure query-building
and parsing logic:

- `databases/database.py` has write-once `Query` stages. Each stage holds a table,
  an operation (`SELECT` or `WHERE`), a parameter and an optional child stage.
  `Table.select` builds the base stage. `Database.__getitem__` looks up a table
  name in the catalog.
- `databases/sqlite.py` has the SQLite resolver, which turns a query chain into SQL
  text or raises `TypeError`/`ValueError`. It also has the two catalog
  projections over fetched rows and the checked table lookup.
- `sql_helper.py` has `get_selected_columns`, which reads the column labels back
  from a SQL text typed by the user.

The Dafny project models these pieces:

- `wrappers.dfy`: `Option` and `Result`; the `Errors` module holds the Python
  exception kinds with their message texts. A raised exception is a `Failure`.
- `text.dfy` (module `Text`): the parts of Python's `str` the core uses:
  - `strip`, with the exact `str.isspace` character set;
  - `lower`, on ASCII letters;
  - `find`, with `None` for `-1`, and `in`;
  - `split` on one character, and `join`.
- `database.dfy` (module `Databases`): `Query`, `Table` and `Database` as
  datatypes. The accessors are the datatype's destructors. A parameter of
  unknown Python type is a `Value`: a string, a list of strings, or anything
  else. The module also has `Table.select`, `Database.__getitem__` and the shape
  of a chain the resolver accepts.
- `sqlite.dfy` (module `Sqlite`): `SqliteResolver.resolve` and `Query.resolve`,
  two mutually recursive functions. It also has the row projections and
  `SqliteDatabase.__getitem__`.
- `sql_helper.dfy` (module `SqlHelper`): `get_selected_columns` in two forms:
  - the function `SelectedColumns`, which states what it computes;
  - the method `GetSelectedColumns`, which does the source's steps in order,
    with the `for` loop and its early `break` in `CollectColumns`. It is proved
    equal to the function.
- `roundtrip.dfy` ties the two halves together. The columns of a rendered
  `SELECT` are read back unchanged when every column is a plain label: non-empty,
  lower case, and free of whitespace and commas. This holds with or without a
  `WHERE` filter, and with any whitespace after each comma, a different string
  after each comma if need be (`SELECT a, b,\tc FROM t`). Other column lists
  need not come back as written. `SELECT ID FROM t` reads back as `["id"]`. The
  empty list renders as `SELECT  FROM t`, which reads back as `["from"]`. The file
  ends with worked examples.

Two behaviours of the code to note:

- `SELECT` accepts an empty column list and renders `SELECT  FROM t`
  (`databases/sqlite.py:15-19`).
- Every structural fault of a chain raises `ValueError`: a child under `SELECT`, a
  `WHERE` without a child, or a `WHERE` over a `WHERE` (`databases/sqlite.py:18`,
  `24` and `26`). A parameter of the wrong type raises `TypeError` instead
  (`databases/sqlite.py:16` and `22`).

## Model

| member | source | states |
|---|---|---|
| Databases.Select | databases/database.py:86-94 | `Table.select` always gives a `SELECT` stage with no child on this table; `"*"` becomes the table's column list, any other argument is stored unchanged |
| Databases.GetItem | databases/database.py:120-130 | a non-string key fails with `TypeError` and its exact message, a name outside the catalog with `KeyError`; it succeeds exactly for a catalog name, giving the table of that name in this database |
| Databases.Chain | databases/database.py:23-34 | the stages from the head down through the child links: it starts at the head, has one stage exactly when the head has no child, and ends at a stage without a child |
| Databases.ChainLinks | databases/database.py:23-34 | each stage of the chain is the child of the stage before it |
| Databases.ResolvableShape | databases/sqlite.py:20-26 | a chain the resolver accepts ends in a `SELECT`, has at most two stages and holds at most one `WHERE` |
| Sqlite.SqliteResolve | databases/sqlite.py:8-28 | resolution succeeds exactly on the accepted chains (a lone `SELECT` over a list; a `WHERE` with a string over such a `SELECT`), gives `SELECT c1,c2 FROM t` plus ` WHERE p` if there is a filter, and fails only with `TypeError` or `ValueError` |
| Sqlite.QueryResolve | databases/database.py:60-65 | `Query.resolve` hands the query to its database's resolver and has that resolver's contract |
| Sqlite.ResolveErrors | databases/sqlite.py:14-27 | which exception each malformed stage raises, with its message: the parameter type is checked before the child, a `WHERE` over a `WHERE` is refused, and a child's failure is passed through |
| Sqlite.WhereExtendsChild | databases/sqlite.py:27-28 | a resolved `WHERE` is its child's text plus ` WHERE ` and the predicate, so the child's text is a strict prefix of it |
| Sqlite.SelectResolves | databases/sqlite.py:14-19 | a `select` stage renders its column list joined by `,` with no space, the empty list included; the wildcard renders as the table's column list; a parameter that is neither a list nor `"*"` fails with `TypeError` |
| Sqlite.Field | databases/sqlite.py:63 | mapping `r[k]` over the rows succeeds exactly when every row has a field `k`, and gives that field of every row, in row order and with the same length; a short row fails with `IndexError` |
| Sqlite.GetColumns | databases/sqlite.py:32-35 | the column names are the second field of every `PRAGMA table_info` row, in order, one per row |
| Sqlite.GetTables | databases/sqlite.py:56-63 | the table names are the first field of every catalog row, in order, one per row |
| Sqlite.SqliteGetItem | databases/sqlite.py:44-54 | the key's type is checked before the catalog is read; once the catalog is read, the lookup behaves exactly like the base class's, and a found table carries the key as its name |
| SqlHelper.SelectedColumns | sql_helper.py:4-24 | fails with `ValueError("Not a select command.")` exactly when the lower-cased text holds no `select`; otherwise the result is a non-empty list of labels without spaces |
| SqlHelper.GetSelectedColumns | sql_helper.py:10-24 | the step-by-step procedure (lower, find, slice at offset 6, strip, split, strip each, loop) returns exactly `SelectedColumns(sql)` |
| SqlHelper.CollectColumns | sql_helper.py:17-23 | the loop with its early `break` returns exactly `Collect` of the entries |
| SqlHelper.Collect | sql_helper.py:17-23 | the loop's result is no longer than the entries, is non-empty when there are entries, and has no label with a space |
| SqlHelper.CollectShape | sql_helper.py:18-23 | every label but the last is the corresponding entry, which has no space; the last is its entry cut at the first space; the result stops early only at an entry that holds a space |
| SqlHelper.CollectStopsAt | sql_helper.py:19-21 | when entry `n` is the first with a space, the result has exactly `n + 1` labels: the first `n` entries, then entry `n` cut at its first space |
| SqlHelper.CollectNoSpace | sql_helper.py:22-23 | when no entry holds a space, every entry is kept unchanged |
| SqlHelper.FirstWord | sql_helper.py:20 | `entry.split(" ")[0]` has no space and is the whole entry when the entry has none |
| SqlHelper.StripEach | sql_helper.py:16 | `[c.strip() for c in splitted]` gives one entry per piece |
| SqlHelper.Entries | sql_helper.py:14-16 | the text after the keyword, stripped, split at commas and stripped piece by piece, gives at least one entry |
| SqlHelper.StripEachAt | sql_helper.py:16 | the list comprehension keeps the order: entry `i` is piece `i` stripped |
| SqlHelper.ColumnsIn | sql_helper.py:14-23 | the text after the keyword always gives at least one label, and no label has a space |
| SqlHelper.AfterKeyword | sql_helper.py:11-14 | there is no text after the keyword exactly when `select` occurs nowhere in the lower-cased text |
| SqlHelper.SelectedColumnsOfLower | sql_helper.py:10 | the result depends only on the lower-cased text: `f(lower(s)) == f(s)` |
| SqlHelper.SelectedColumnsAreLower | sql_helper.py:10 | every returned label is lower case |
| SqlHelper.PrefixIgnored | sql_helper.py:13-14 | only the text after the first `select` is read: a prefix that does not create an earlier `select` leaves the result unchanged |
| SqlHelper.AfterKeywordSuffix | sql_helper.py:13 | when the first `n` characters start no `select`, the text after the first `select` is that of the suffix from `n` |
| Text.IsSpace | sql_helper.py:14 | the characters `str.strip()` removes: those for which `str.isspace()` holds |
| Text.SpaceCharacters | sql_helper.py:14 | `IsSpace` holds for exactly the 29 characters Python lists as whitespace: tab, line feed, vertical tab, form feed, carriage return, the four separators `\x1c`..`\x1f`, space, `\x85`, `\xa0`, `\u1680`, `\u2000`..`\u200a`, `\u2028`, `\u2029`, `\u202f`, `\u205f` and `\u3000` |
| Text.Strip | sql_helper.py:14 | `strip()` never lengthens the text, gives `""` only for all-whitespace text, and otherwise starts and ends with a non-whitespace character |
| Text.StripDropsSpace | sql_helper.py:16 | whitespace in front of a text does not change its stripped form |
| Text.StripNoSpace | sql_helper.py:16 | a text without whitespace strips to itself |
| Text.StripKeepsUpTo | sql_helper.py:14 | stripping a text that starts with non-whitespace keeps it as a prefix, up to any later non-whitespace character |
| Text.StripSpaceThen | sql_helper.py:14 | stripping a text with one whitespace character in front keeps the text after it, up to any later non-whitespace character |
| Text.Lower | sql_helper.py:10 | `lower()` keeps the length |
| Text.LowerAt | sql_helper.py:10 | `lower()` lowers each character on its own |
| Text.LowerIsLower | sql_helper.py:10 | the lowered text has no upper-case letter |
| Text.LowerOfLower | sql_helper.py:10 | a text without upper-case letters is unchanged by `lower()`, so `lower()` is idempotent |
| Text.LowerAppend | sql_helper.py:10 | lowering distributes over concatenation |
| Text.Find | sql_helper.py:11-13 | `find` gives the first index where the pattern occurs, and `None` (Python's `-1`) exactly when it occurs nowhere |
| Text.FindIsFirst | sql_helper.py:13 | an occurrence with none before it is what `find` returns |
| Text.Split | sql_helper.py:15 | `split` on one character gives at least one piece, and no piece holds the separator |
| Text.JoinSplit | sql_helper.py:15 | joining the pieces of a split with the separator gives the text back |
| Text.SplitJoin | sql_helper.py:15 | splitting a join of separator-free pieces gives the pieces back |
| Text.SplitJoinThen | sql_helper.py:15 | splitting a join followed by more text gives back every piece but the last, and then the split of the last piece with that text |
| Text.Join | databases/sqlite.py:19 | `','.join` of no pieces is `""` and of one piece is that piece |
| Text.JoinPadded | databases/sqlite.py:19 | joining with a separator followed by padding equals joining with the separator after putting the padding in front of every piece but the first |
| Roundtrip.SelectedColumnsOfSelectText | sql_helper.py:4-24 | `SELECT c1,<p1>c2,<p2>c3,... FROM <anything>` over plain lower-case labels reads back as exactly those labels, where each `p_k` is any whitespace (empty included) and each comma may have a different one |
| Roundtrip.ResolvedColumns | databases/sqlite.py:14-28 | every chain the resolver accepts, over plain labels, resolves, and `get_selected_columns` on its text gives the base `SELECT`'s columns back |
| Roundtrip.WildcardColumns | viewer.py:37-39 | the viewer's `table.select("*").resolve()` text reads back as the table's column list |
| RoundtripExamples.UsersSelectText | databases/sqlite.py:19 | `users.select(["id","name","email"])` renders as `SELECT id,name,email FROM users` |
| RoundtripExamples.UsersWhereText | databases/sqlite.py:28 | the same with the filter `id=1` renders as `SELECT id,name,email FROM users WHERE id=1` |
| RoundtripExamples.UsersQueries | sql_helper.py:4-24 | both of those texts read back as `["id","name","email"]` |
| ExtractorExamples.PlainSelect | sql_helper.py:13-24 | `"SELECT a,b,c FROM t"` gives `["a","b","c"]` |
| ExtractorExamples.SpacedSelectWithFilter | sql_helper.py:13-24 | `"SELECT a, b FROM t WHERE x=1"` gives `["a","b"]` |
| ExtractorExamples.MixedWhitespace | sql_helper.py:13-24 | `"SELECT a, b,\tc FROM t"`, a space after one comma and a tab after the other, gives `["a","b","c"]` |
| ExtractorExamples.UpperCaseLabel | sql_helper.py:10 | `"SELECT ID FROM t"` gives `["id"]`: a label is returned lower-cased, not as written |
| ExtractorExamples.SameLowerSameColumns | sql_helper.py:10 | two texts with the same lower-case form give the same result |
| ExtractorExamples.EmptySelectText | databases/sqlite.py:15-19 | `select([])` on table `t` renders as `SELECT  FROM t`, with two spaces |
| ExtractorExamples.EmptyListReadBack | sql_helper.py:13-24 | `"SELECT  FROM t"` gives `["from"]`: the empty column list does not read back |
| ExtractorExamples.KeywordThenWord | sql_helper.py:13-21 | a text whose lower-case form is `select`, then any whitespace (none included), then a plain word, then one space and then any text without a comma, gives exactly that word |

## Left out

- Connections and SQL execution (`connect`, `execute`, `fetch` in `databases/sqlite.py:65-93`, and the base-class stubs) are I/O. Fetched rows and catalog lists are parameters of the model instead. The SQL texts of the `PRAGMA` and `sqlite_master` statements go only to the engine, so they are not modelled, and neither is what the engine does with the generated SQL.
- `viewer.py` and `main.py` are Qt widget glue and application start-up, and are not part of this model. `main.py:29` passes a sixth widget, which `Viewer.__init__` does not accept. No filter feature exists, so none is modelled.
- The commented-out `Query.where` (`databases/database.py:52-58`) is dead code. A `WHERE` stage is built with the `Query` constructor, in the form the resolver accepts.
- The `NotImplementedError` bodies of `Resolver.resolve`, `Table.get_columns`, `Database.get_tables`, `connect`, `fetch` and `execute` in `databases/database.py` are abstract placeholders. The only resolver is `SqliteResolver`. The catalogs are inputs.
- Text.Lower: models ASCII letters only. Python's `str.lower` also maps non-ASCII letters, and some of those mappings change the length.
- Sqlite.SqliteGetItem: returns a `Table`, not a `SqliteTable`. The subclass adds only `get_columns`, whose row projection is `Sqlite.GetColumns`.
- A list parameter whose elements are not all strings makes Python's `','.join` raise `TypeError`. `Value` has no such list: its lists hold strings only.
- Row fields are modelled as strings. The catalog columns the projections read are names, so they are strings.
- `Query.resolve` lives in module `Sqlite` next to the resolver, because the two call each other.
- The accessors `op`, `param`, `table`, `child`, `database`, `name` and `resolver` are datatype destructors. They return exactly the constructor's arguments, and nothing can rebind them, so no contract is stated for them.
