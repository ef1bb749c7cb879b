/**
  How the two halves of the repository fit together: the text a resolver renders for
  a `SELECT` is read back by `get_selected_columns` as the very columns it selected,
  with or without a `WHERE` filter after the table name, and also when the columns
  are written with whitespace after the commas.
 */
module Roundtrip {
  import opened Wrappers
  import opened Errors
  import opened Text
  import opened Databases
  import opened Sqlite
  import opened SqlHelper

  /**
    A column label that survives the trip: non-empty, without whitespace or commas,
    and already lower case (the reader lower-cases everything it returns).
   */
  predicate PlainColumn(c: string) {
    |c| > 0 && ',' !in c && IsLowerText(c) && forall i :: 0 <= i < |c| ==> !IsSpace(c[i])
  }

  predicate PlainColumns(cols: seq<string>) {
    |cols| >= 1 && forall i :: 0 <= i < |cols| ==> PlainColumn(cols[i])
  }

  /**
    A `SELECT` text over `cols`, with whitespace `pads[k]` after the comma that follows
    column `k` (nothing where `pads` runs out), followed by anything at all. With no pads
    it is what a resolver renders.
   */
  function SelectText(cols: seq<string>, pads: seq<string>, tail: string): string {
    "SELECT " + Join(",", Pieces(cols, pads)) + " FROM " + tail
  }

  /** Every pad is whitespace; each may be a different string, and any may be empty. */
  predicate Blank(pads: seq<string>) {
    forall k :: 0 <= k < |pads| ==> AllSpace(pads[k])
  }

  /** What comes before column `i` after its comma: nothing before the first column, `pads[i - 1]` before the others. */
  function Lead(i: nat, pads: seq<string>): (r: string)
    ensures Blank(pads) ==> AllSpace(r)
  {
    if 0 < i <= |pads| then pads[i - 1] else ""
  }

  /** The pieces between the commas of the column list: each column after its lead. */
  function Pieces(cols: seq<string>, pads: seq<string>): (p: seq<string>)
    ensures |p| == |cols|
    ensures forall i :: 0 <= i < |cols| ==> p[i] == Lead(i, pads) + cols[i]
  {
    seq(|cols|, i requires 0 <= i < |cols| => Lead(i, pads) + cols[i])
  }

  /** Without pads the pieces are the columns themselves. */
  lemma NoPads(cols: seq<string>)
    ensures Pieces(cols, []) == cols
  {
    var p := Pieces(cols, []);
    forall i | 0 <= i < |cols| ensures p[i] == cols[i] {
      assert "" + cols[i] == cols[i];
    }
  }

  /** Whitespace holds no upper-case letter. */
  lemma SpaceIsLower(q: string)
    requires AllSpace(q)
    ensures IsLowerText(q)
  {
    forall i | 0 <= i < |q| ensures !IsUpper(q[i]) {
      assert IsSpace(q[i]);
    }
  }

  /** The pieces of plain columns and whitespace pads are lower case. */
  lemma PiecesLower(cols: seq<string>, pads: seq<string>, ps: seq<string>)
    requires PlainColumns(cols) && Blank(pads) && ps == Pieces(cols, pads)
    ensures forall i :: 0 <= i < |ps| ==> IsLowerText(ps[i])
  {
    forall i | 0 <= i < |ps| ensures IsLowerText(ps[i]) {
      var q := Lead(i, pads);
      SpaceIsLower(q);
      assert ps[i] == q + cols[i];
      forall k | 0 <= k < |ps[i]| ensures !IsUpper(ps[i][k]) {
        if k >= |q| {
          assert ps[i][k] == cols[i][k - |q|];
        }
      }
    }
  }

  /** Lower-casing the `SELECT` text touches only the keywords and the tail. */
  lemma LowerSelectText(cols: seq<string>, pads: seq<string>, tail: string)
    requires PlainColumns(cols) && Blank(pads)
    ensures Lower(SelectText(cols, pads, tail)) == "select " + Join(",", Pieces(cols, pads)) + " from " + Lower(tail)
  {
    var ps := Pieces(cols, pads);
    var j := Join(",", ps);
    LowerAppend("SELECT " + j + " FROM ", tail);
    LowerAppend("SELECT " + j, " FROM ");
    LowerAppend("SELECT ", j);
    PiecesLower(cols, pads, ps);
    JoinLower(",", ps);
    LowerOfLower(j);
    LowerSelectFrom();
  }

  /** The lower-case forms of the two keyword parts of the `SELECT` text. */
  lemma LowerSelectFrom()
    ensures Lower("SELECT ") == "select " && Lower(" FROM ") == " from "
  {
    assert Lower("SELECT ") == "select ";
  }

  /** A text that starts with the keyword continues after it. */
  lemma AfterLeadingKeyword(s: string)
    requires |s| >= |Keyword| && s[..|Keyword|] == Keyword
    ensures AfterKeyword(s) == Some(s[|Keyword|..])
  {
    assert OccursAt(s, Keyword, 0);
    FindIsFirst(s, Keyword, 0);
  }

  /** The first `select` of the `SELECT` text is its own keyword, at the very start. */
  lemma AfterKeywordOfSelectText(cols: seq<string>, pads: seq<string>, tail: string)
    requires PlainColumns(cols) && Blank(pads)
    ensures AfterKeyword(Lower(SelectText(cols, pads, tail)))
      == Some(" " + Join(",", Pieces(cols, pads)) + " from " + Lower(tail))
  {
    var j := Join(",", Pieces(cols, pads));
    var rest := " " + j + " from " + Lower(tail);
    LowerSelectText(cols, pads, tail);
    SelectThenRest(j, Lower(tail));
    AfterKeywordIs(Keyword + rest, rest);
  }

  /** The lowered `SELECT` text is the keyword followed by the rest. */
  lemma SelectThenRest(j: string, l: string)
    ensures "select " + j + " from " + l == Keyword + (" " + j + " from " + l)
  {
  }

  /** The text after a leading keyword. */
  lemma AfterKeywordIs(low: string, rest: string)
    requires low == Keyword + rest
    ensures AfterKeyword(low) == Some(rest)
  {
    assert low[..|Keyword|] == Keyword && low[|Keyword|..] == rest;
    AfterLeadingKeyword(low);
  }

  /**
    After the keyword, stripping leaves the column list in front, followed by
    ` from`.
   */
  lemma StripAfterKeyword(j: string, t: string)
    requires |j| > 0 && !IsSpace(j[0])
    ensures var s := Strip(" " + j + " from " + t);
      |s| >= |j| + 5 && s[..|j| + 5] == j + " from"
  {
    var rest := " " + j + " from " + t;
    assert rest[1..|j| + 6] == j + " from";
    StripSpaceThen(rest, |j| + 5);
  }

  /**
    Splitting the column list followed by ` from…` at the commas: every piece but
    the last comes back on its own, and the last one is followed by ` from`.
   */
  lemma SplitColumns(ps: seq<string>, r: string, p: seq<string>)
    requires |ps| >= 1 && forall i :: 0 <= i < |ps| ==> ',' !in ps[i]
    requires |r| >= 5 && r[..5] == " from"
    requires p == Split(Join(",", ps) + r, ',')
    ensures var n := |ps|;
      && |p| >= n
      && (forall i :: 0 <= i < n - 1 ==> p[i] == ps[i])
      && |p[n - 1]| >= |ps[n - 1]| + 5 && p[n - 1][..|ps[n - 1]| + 5] == ps[n - 1] + " from"
  {
    var n := |ps|;
    var c := ps[n - 1];
    SplitJoinThen(ps, r, ',');
    SplitPrefix(c, r, ',');
    assert r == " from" + r[5..];
    SplitPrefix(" from", r[5..], ',');
    var last := c + (" from" + Split(r[5..], ',')[0]);
    assert Split(c + r, ',')[0] == last;
    assert last[..|c| + 5] == c + " from";
  }

  /**
    The entry made from the last piece holds a space, and the label cut from it is
    the last column.
   */
  lemma LastEntry(c: string, x: string)
    requires PlainColumn(c)
    requires |x| >= |c| + 5 && x[..|c| + 5] == c + " from"
    ensures ' ' in Strip(x) && FirstWord(Strip(x)) == c
  {
    assert x[0] == c[0] && x[|c| + 4] == 'm';
    StripKeepsUpTo(x, |c| + 4);
    var e := Strip(x);
    assert e[|c|] == ' ';
    var w := e[|c| + 1..];
    assert e == c + ([' '] + w);
    SplitPrefix(c, [' '] + w, ' ');
    assert ([' '] + w)[1..] == w;
    assert Split([' '] + w, ' ')[0] == [];
    assert c + [] == c;
  }

  /** The same, when the last piece starts with whitespace. */
  lemma PaddedLastEntry(q: string, c: string, x: string)
    requires PlainColumn(c) && AllSpace(q)
    requires |x| >= |q| + |c| + 5 && x[..|q| + |c| + 5] == q + c + " from"
    ensures ' ' in Strip(x) && FirstWord(Strip(x)) == c
  {
    var y := x[|q|..];
    assert x == q + y;
    StripDropsSpace(q, y);
    assert y[..|c| + 5] == x[..|q| + |c| + 5][|q|..];
    LastEntry(c, y);
  }

  /** A piece strips to its column. */
  lemma StripPiece(q: string, c: string)
    requires PlainColumn(c) && AllSpace(q)
    ensures Strip(q + c) == c && ' ' !in c
  {
    StripDropsSpace(q, c);
    StripNoSpace(c);
  }

  /** The entry of a piece that is whitespace and then a column is that column. */
  lemma EntryAt(pieces: seq<string>, i: nat, q: string, c: string)
    requires i < |pieces| && pieces[i] == q + c
    requires PlainColumn(c) && AllSpace(q)
    ensures StripEach(pieces)[i] == c && ' ' !in c
  {
    StripEachAt(pieces, i);
    StripPiece(q, c);
  }

  /** The entries of the pieces before the last one are the columns. */
  lemma EntriesOfPieces(cols: seq<string>, pads: seq<string>, pieces: seq<string>)
    requires PlainColumns(cols) && Blank(pads) && |pieces| >= |cols|
    requires forall i :: 0 <= i < |cols| - 1 ==> pieces[i] == Lead(i, pads) + cols[i]
    ensures forall i :: 0 <= i < |cols| - 1 ==> StripEach(pieces)[i] == cols[i] && ' ' !in cols[i]
  {
    forall i | 0 <= i < |cols| - 1 ensures StripEach(pieces)[i] == cols[i] && ' ' !in cols[i] {
      EntryAt(pieces, i, Lead(i, pads), cols[i]);
    }
  }

  /** The entry of the last piece, whitespace and then a column and then ` from…`, is cut back to the column. */
  lemma LastEntryAt(pieces: seq<string>, i: nat, q: string, c: string)
    requires i < |pieces| && PlainColumn(c) && AllSpace(q)
    requires |pieces[i]| >= |q + c| + 5 && pieces[i][..|q + c| + 5] == q + c + " from"
    ensures ' ' in StripEach(pieces)[i] && FirstWord(StripEach(pieces)[i]) == c
  {
    StripEachAt(pieces, i);
    PaddedLastEntry(q, c, pieces[i]);
  }

  /** The labels read from the pieces followed by ` from…`. */
  lemma CollectPieces(cols: seq<string>, pads: seq<string>, r: string)
    requires PlainColumns(cols) && Blank(pads)
    requires |r| >= 5 && r[..5] == " from"
    ensures Collect(StripEach(Split(Join(",", Pieces(cols, pads)) + r, ','))) == cols
  {
    var ps := Pieces(cols, pads);
    var p := Split(Join(",", ps) + r, ',');
    PiecesHaveNoComma(cols, pads, ps);
    SplitColumns(ps, r, p);
    PiecesOfSplit(cols, pads, ps, p);
  }

  /** No padded column holds a comma. */
  lemma PiecesHaveNoComma(cols: seq<string>, pads: seq<string>, ps: seq<string>)
    requires PlainColumns(cols) && Blank(pads)
    requires |ps| == |cols| && forall i :: 0 <= i < |cols| ==> ps[i] == Lead(i, pads) + cols[i]
    ensures forall i :: 0 <= i < |ps| ==> ',' !in ps[i]
  {
    assert !IsSpace(',');
    forall i | 0 <= i < |ps| ensures ',' !in ps[i] {
      var q := Lead(i, pads);
      assert ',' !in q && ',' !in cols[i];
    }
  }

  /**
    The pieces of the split line up with the padded columns. This step is a lemma of
    its own so that the split and join terms of `CollectPieces` stay out of the
    context in which the pieces are matched with the columns.
   */
  lemma PiecesOfSplit(cols: seq<string>, pads: seq<string>, ps: seq<string>, p: seq<string>)
    requires PlainColumns(cols) && Blank(pads)
    requires |ps| == |cols| && forall i :: 0 <= i < |cols| ==> ps[i] == Lead(i, pads) + cols[i]
    requires var n := |ps|;
      && |p| >= n
      && (forall i :: 0 <= i < n - 1 ==> p[i] == ps[i])
      && |p[n - 1]| >= |ps[n - 1]| + 5 && p[n - 1][..|ps[n - 1]| + 5] == ps[n - 1] + " from"
    ensures Collect(StripEach(p)) == cols
  {
    CollectOfPieces(cols, pads, p);
  }

  /** Pieces made of the columns, the last one followed by ` from…`, collect to the columns. */
  lemma CollectOfPieces(cols: seq<string>, pads: seq<string>, pieces: seq<string>)
    requires PlainColumns(cols) && Blank(pads) && |pieces| >= |cols|
    requires forall i :: 0 <= i < |cols| - 1 ==> pieces[i] == Lead(i, pads) + cols[i]
    requires var q := Lead(|cols| - 1, pads) + cols[|cols| - 1];
      |pieces[|cols| - 1]| >= |q| + 5 && pieces[|cols| - 1][..|q| + 5] == q + " from"
    ensures Collect(StripEach(pieces)) == cols
  {
    EntriesOfPieces(cols, pads, pieces);
    LastOfPieces(cols, pads, pieces);
    CollectAll(StripEach(pieces), cols);
  }

  /** The entry of the last piece, followed by ` from…`, is cut back to the last column. */
  lemma LastOfPieces(cols: seq<string>, pads: seq<string>, pieces: seq<string>)
    requires PlainColumns(cols) && Blank(pads) && |pieces| >= |cols|
    requires var q := Lead(|cols| - 1, pads) + cols[|cols| - 1];
      |pieces[|cols| - 1]| >= |q| + 5 && pieces[|cols| - 1][..|q| + 5] == q + " from"
    ensures ' ' in StripEach(pieces)[|cols| - 1] && FirstWord(StripEach(pieces)[|cols| - 1]) == cols[|cols| - 1]
  {
    var n := |cols|;
    LastEntryAt(pieces, n - 1, Lead(n - 1, pads), cols[n - 1]);
  }

  /** Entries that match the columns up to a last one holding a space collect to the columns. */
  lemma CollectAll(entries: seq<string>, cols: seq<string>)
    requires 1 <= |cols| <= |entries|
    requires forall i :: 0 <= i < |cols| - 1 ==> entries[i] == cols[i] && ' ' !in entries[i]
    requires ' ' in entries[|cols| - 1] && FirstWord(entries[|cols| - 1]) == cols[|cols| - 1]
    ensures Collect(entries) == cols
  {
    CollectStopsAt(entries, |cols| - 1);
    SameUpToLast(Collect(entries), entries, cols);
  }

  /** A list that agrees with the entries up to its last element, which is the last column, is the columns. */
  lemma SameUpToLast(got: seq<string>, entries: seq<string>, cols: seq<string>)
    requires 1 <= |cols| == |got| && |cols| <= |entries|
    requires forall i :: 0 <= i < |cols| - 1 ==> got[i] == entries[i]
    requires forall i :: 0 <= i < |cols| - 1 ==> entries[i] == cols[i] && ' ' !in entries[i]
    requires got[|cols| - 1] == cols[|cols| - 1]
    ensures got == cols
  {
    forall i | 0 <= i < |cols| ensures got[i] == cols[i] {
      if i < |cols| - 1 {
        assert got[i] == entries[i];
      }
    }
  }

  /** The labels read from the text after the keyword of the `SELECT` text. */
  lemma ColumnsAfterSelect(cols: seq<string>, pads: seq<string>, t: string)
    requires PlainColumns(cols) && Blank(pads)
    ensures ColumnsIn(" " + Join(",", Pieces(cols, pads)) + " from " + t) == cols
  {
    var j := Join(",", Pieces(cols, pads));
    ListHead(cols, pads, j);
    var s := Strip(" " + j + " from " + t);
    ListThenFrom(j, t, s);
    CollectPieces(cols, pads, s[|j|..]);
  }

  /** The stripped text after the keyword is the column list and then ` from…`. */
  lemma ListThenFrom(j: string, t: string, s: string)
    requires |j| > 0 && !IsSpace(j[0]) && s == Strip(" " + j + " from " + t)
    ensures |s| >= |j| && s == j + s[|j|..]
    ensures |s[|j|..]| >= 5 && s[|j|..][..5] == " from"
  {
    StripAfterKeyword(j, t);
    var r := s[|j|..];
    assert s[..|j|] == j;
    assert s == s[..|j|] + r;
    assert r[..5] == s[..|j| + 5][|j|..];
  }

  /** The column list starts with the first column, so not with whitespace. */
  lemma ListHead(cols: seq<string>, pads: seq<string>, j: string)
    requires PlainColumns(cols) && j == Join(",", Pieces(cols, pads))
    ensures |j| > 0 && !IsSpace(j[0])
  {
    var ps := Pieces(cols, pads);
    JoinHead(",", ps);
    assert ps[0] == "" + cols[0] == cols[0];
    assert j[0] == j[..|cols[0]|][0];
  }

  /**
    Round trip: reading back the columns of a `SELECT` text gives exactly the columns
    it was written with, whatever whitespace follows each comma and whatever follows
    the table name.
   */
  lemma SelectedColumnsOfSelectText(cols: seq<string>, pads: seq<string>, tail: string)
    requires PlainColumns(cols) && Blank(pads)
    ensures SelectedColumns(SelectText(cols, pads, tail)) == Success(cols)
  {
    AfterKeywordOfSelectText(cols, pads, tail);
    ColumnsAfterSelect(cols, pads, Lower(tail));
  }

  /** A resolvable chain renders as the `SELECT` text of its base, then the table name and the filter, if any. */
  lemma RenderedIsSelectText(q: Query)
    requires Resolvable(q)
    ensures var base := Chain(q)[|Chain(q)| - 1];
      Rendered(q) == SelectText(base.param.items, [], base.table.name + (if q.op == SELECT then "" else " WHERE " + q.param.s))
  {
    var base := Chain(q)[|Chain(q)| - 1];
    NoPads(base.param.items);
    assert base.table.name + "" == base.table.name;
  }

  /**
    Any query a resolver accepts, over plain columns, renders to a text from which
    `get_selected_columns` recovers the columns of its base `SELECT` stage.
   */
  lemma ResolvedColumns(q: Query)
    requires Resolvable(q)
    requires PlainColumns(Chain(q)[|Chain(q)| - 1].param.items)
    ensures QueryResolve(q).Success?
    ensures SelectedColumns(QueryResolve(q).value) == Success(Chain(q)[|Chain(q)| - 1].param.items)
  {
    var base := Chain(q)[|Chain(q)| - 1];
    RenderedIsSelectText(q);
    SelectedColumnsOfSelectText(base.param.items, [], base.table.name + (if q.op == SELECT then "" else " WHERE " + q.param.s));
  }

  /**
    The wildcard `SELECT` the table viewer renders for a table: reading the columns
    back from its text gives the table's own column list.
   */
  lemma WildcardColumns(t: Table, tableColumns: seq<string>)
    requires PlainColumns(tableColumns)
    ensures QueryResolve(Select(t, Wildcard, tableColumns)).Success?
    ensures SelectedColumns(QueryResolve(Select(t, Wildcard, tableColumns)).value) == Success(tableColumns)
  {
    var q := Select(t, Wildcard, tableColumns);
    assert Chain(q) == [q];
    ResolvedColumns(q);
  }
}

/** A `users` table queried with and without a filter. */
module RoundtripExamples {
  import opened Wrappers
  import opened Text
  import opened Databases
  import opened Sqlite
  import opened SqlHelper
  import opened Roundtrip

  /** The `SELECT` text for the columns `id`, `name` and `email` of `users`. */
  lemma UsersText()
    ensures "SELECT " + Join(",", ["id", "name", "email"]) + " FROM " + "users" == "SELECT id,name,email FROM users"
  {
    var cols := ["id", "name", "email"];
    assert Join(",", cols) == "id,name,email" by {
      assert cols[1..] == ["name", "email"];
      assert cols[1..][1..] == ["email"];
    }
  }

  /** The text a resolver renders for `users.select(["id", "name", "email"])`. */
  lemma UsersSelectText(db: Database)
    ensures QueryResolve(Select(Table(db, "users"), StrList(["id", "name", "email"]), []))
      == Success("SELECT id,name,email FROM users")
  {
    SelectResolves(Table(db, "users"), StrList(["id", "name", "email"]), []);
    UsersText();
  }

  /** The same selection filtered by `id=1`. */
  lemma UsersWhereText(db: Database)
    ensures var q := Select(Table(db, "users"), StrList(["id", "name", "email"]), []);
      QueryResolve(Query(Table(db, "users"), WHERE, Str("id=1"), Some(q)))
      == Success("SELECT id,name,email FROM users WHERE id=1")
  {
    var q := Select(Table(db, "users"), StrList(["id", "name", "email"]), []);
    var w := Query(Table(db, "users"), WHERE, Str("id=1"), Some(q));
    UsersSelectText(db);
    assert Chain(w) == [w, q];
    WhereExtendsChild(w);
    assert "SELECT id,name,email FROM users" + " WHERE " + "id=1" == "SELECT id,name,email FROM users WHERE id=1";
  }

  /** `get_selected_columns` reads `id`, `name` and `email` back from both texts. */
  lemma UsersQueries(db: Database)
    ensures var users := Table(db, "users");
      var q := Select(users, StrList(["id", "name", "email"]), []);
      var w := Query(users, WHERE, Str("id=1"), Some(q));
      && SelectedColumns(QueryResolve(q).value) == Success(["id", "name", "email"])
      && SelectedColumns(QueryResolve(w).value) == Success(["id", "name", "email"])
  {
    var users := Table(db, "users");
    var cols := ["id", "name", "email"];
    var q := Select(users, StrList(cols), []);
    var w := Query(users, WHERE, Str("id=1"), Some(q));
    assert Chain(q) == [q];
    assert Chain(w) == [w, q];
    assert forall i :: 0 <= i < |cols| ==> PlainColumn(cols[i]) by {
      assert PlainColumn("id") && PlainColumn("name") && PlainColumn("email");
    }
    ResolvedColumns(q);
    ResolvedColumns(w);
  }
}

/**
  `get_selected_columns` on texts typed by hand. Each lemma that reads a literal text
  takes the text as a parameter fixed by its `requires`, so that the solver meets the
  literal only where a helper lemma has already matched it with a `SELECT` text.
 */
module ExtractorExamples {
  import opened Wrappers
  import opened Text
  import opened Databases
  import opened Sqlite
  import opened SqlHelper
  import opened Roundtrip

  lemma PlainSelectText()
    ensures SelectText(["a", "b", "c"], [], "t") == "SELECT a,b,c FROM t"
    ensures PlainColumns(["a", "b", "c"])
  {
    var cols := ["a", "b", "c"];
    NoPads(cols);
    assert Join(",", cols) == "a,b,c" by {
      assert cols[1..] == ["b", "c"];
      assert cols[1..][1..] == ["c"];
    }
    assert PlainColumn("a") && PlainColumn("b") && PlainColumn("c");
  }

  // The text is a parameter fixed by `requires`, which keeps the literal out of the solver's way.
  lemma PlainSelect(sql: string)
    requires sql == "SELECT a,b,c FROM t"
    ensures SelectedColumns(sql) == Success(["a", "b", "c"])
  {
    PlainSelectText();
    SelectedColumnsOfSelectText(["a", "b", "c"], [], "t");
  }

  lemma SpacedSelectText()
    ensures SelectText(["a", "b"], [" "], "t WHERE x=1") == "SELECT a, b FROM t WHERE x=1"
    ensures PlainColumns(["a", "b"]) && Blank([" "])
  {
    var cols := ["a", "b"];
    var ps := Pieces(cols, [" "]);
    assert Lead(1, [" "]) == " ";
    assert ps[0] == "" + "a" == "a" && ps[1] == " " + "b" == " b" && |ps| == 2;
    assert ps == ["a", " b"];
    assert Join(",", ps) == "a, b" by {
      assert ps[1..] == [" b"];
    }
    assert PlainColumn("a") && PlainColumn("b");
  }

  // The text is a parameter fixed by `requires`, which keeps the literal out of the solver's way.
  lemma SpacedSelectWithFilter(sql: string)
    requires sql == "SELECT a, b FROM t WHERE x=1"
    ensures SelectedColumns(sql) == Success(["a", "b"])
  {
    SpacedSelectText();
    SelectedColumnsOfSelectText(["a", "b"], [" "], "t WHERE x=1");
  }

  lemma MixedSelectText()
    ensures SelectText(["a", "b", "c"], [" ", "\t"], "t") == "SELECT a, b,\tc FROM t"
    ensures PlainColumns(["a", "b", "c"]) && Blank([" ", "\t"])
  {
    MixedPieces();
    MixedJoin();
    assert PlainColumn("a") && PlainColumn("b") && PlainColumn("c");
  }

  lemma MixedPieces()
    ensures Pieces(["a", "b", "c"], [" ", "\t"]) == ["a", " b", "\tc"]
  {
    var ps := Pieces(["a", "b", "c"], [" ", "\t"]);
    assert Lead(1, [" ", "\t"]) == " " && Lead(2, [" ", "\t"]) == "\t";
    assert ps[0] == "" + "a" == "a" && ps[1] == " " + "b" == " b" && ps[2] == "\t" + "c" == "\tc";
    assert |ps| == 3;
  }

  lemma MixedJoin()
    ensures Join(",", ["a", " b", "\tc"]) == "a, b,\tc"
  {
    var ps := ["a", " b", "\tc"];
    assert ps[1..] == [" b", "\tc"];
    assert ps[1..][1..] == ["\tc"];
  }

  /** A space after one comma and a tab after the next. */
  // The text is a parameter fixed by `requires`, which keeps the literal out of the solver's way.
  lemma MixedWhitespace(sql: string)
    requires sql == "SELECT a, b,\tc FROM t"
    ensures SelectedColumns(sql) == Success(["a", "b", "c"])
  {
    MixedSelectText();
    SelectedColumnsOfSelectText(["a", "b", "c"], [" ", "\t"], "t");
  }

  /** An upper-case label comes back lower-cased, not as it was written. */
  // The text is a parameter fixed by `requires`, which keeps the literal out of the solver's way.
  lemma UpperCaseLabel(sql: string)
    requires sql == "SELECT ID FROM t"
    ensures SelectedColumns(sql) == Success(["id"])
  {
    var plain := SelectText(["id"], [], "t");
    UpperCaseText(sql, plain);
    SameLowerSameColumns(sql, plain);
    PlainId(plain);
  }

  /** Texts with the same lower-case form give the same result. */
  lemma SameLowerSameColumns(a: string, b: string)
    requires Lower(a) == Lower(b)
    ensures SelectedColumns(a) == SelectedColumns(b)
  {
    SelectedColumnsOfLower(a);
    SelectedColumnsOfLower(b);
  }

  lemma PlainId(plain: string)
    requires plain == SelectText(["id"], [], "t")
    ensures SelectedColumns(plain) == Success(["id"])
  {
    assert PlainColumn("id");
    SelectedColumnsOfSelectText(["id"], [], "t");
  }

  // Both texts are parameters fixed by `requires`, which keeps the literals out of the solver's way.
  lemma UpperCaseText(sql: string, plain: string)
    requires sql == "SELECT ID FROM t" && plain == SelectText(["id"], [], "t")
    ensures Lower(sql) == Lower(plain)
  {
    assert plain == "SELECT " + "id" + " FROM t" by {
      NoPads(["id"]);
    }
    assert sql == "SELECT " + "ID" + " FROM t";
    assert Lower("ID") == Lower("id");
    LowerSameMiddle("SELECT ", "ID", "id", " FROM t");
  }

  /** Texts that differ only in a middle part with the same lower-case form lower alike. */
  lemma LowerSameMiddle(a: string, b: string, b': string, c: string)
    requires Lower(b) == Lower(b')
    ensures Lower(a + b + c) == Lower(a + b' + c)
  {
    LowerAppend(a + b, c);
    LowerAppend(a, b);
    LowerAppend(a + b', c);
    LowerAppend(a, b');
  }

  /** An empty column list is rendered, with two spaces before `FROM`. */
  lemma EmptySelectText(db: Database)
    ensures QueryResolve(Select(Table(db, "t"), StrList([]), [])) == Success("SELECT  FROM t")
  {
    SelectResolves(Table(db, "t"), StrList([]), []);
    assert Join(",", []) == [];
    assert "SELECT " + [] + " FROM " + "t" == "SELECT  FROM t";
  }

  /** The text of an empty column list reads back as the label `from`. */
  // The text is a parameter fixed by `requires`, which keeps the literal out of the solver's way.
  lemma EmptyListReadBack(sql: string)
    requires sql == "SELECT  FROM t"
    ensures SelectedColumns(sql) == Success(["from"])
  {
    EmptyListLower(sql);
    assert PlainColumn("from");
    KeywordThenWord(sql, "  ", "from", "t");
  }

  // The text is a parameter fixed by `requires`, which keeps the literal out of the solver's way.
  lemma EmptyListLower(sql: string)
    requires sql == "SELECT  FROM t"
    ensures Lower(sql) == Keyword + "  " + "from" + (" " + "t") && AllSpace("  ")
  {
    assert sql == "SELECT" + "  " + "FROM" + (" " + "t");
    LowerKeywords();
    LowerFourParts(sql, "SELECT", "  ", "FROM", " " + "t", Keyword, "from");
  }

  /**
    A text whose lower-case form is the keyword, any whitespace, a plain word, a space
    and then any text without a comma reads back as that word alone.
   */
  lemma KeywordThenWord(sql: string, q: string, w: string, t: string)
    requires Lower(sql) == Keyword + q + w + (" " + t)
    requires AllSpace(q) && PlainColumn(w) && ',' !in t
    ensures SelectedColumns(sql) == Success([w])
  {
    KeywordFirst(sql, q, w, t);
    WordThenText(q, w, t);
  }

  /** A text whose lower-case form starts with the keyword reads its labels from what follows it. */
  lemma KeywordFirst(sql: string, q: string, w: string, t: string)
    requires Lower(sql) == Keyword + q + w + (" " + t)
    ensures SelectedColumns(sql) == Success(ColumnsIn(q + w + " " + t))
  {
    var low := Lower(sql);
    var rest := q + w + " " + t;
    assert low == Keyword + rest;
    assert low[..|Keyword|] == Keyword && low[|Keyword|..] == rest;
    AfterLeadingKeyword(low);
  }

  /** The lower-case forms of the parts of `SELECT  FROM t`. */
  lemma LowerKeywords()
    ensures Lower("SELECT") == Keyword && Lower("FROM") == "from"
    ensures IsLowerText("  ") && IsLowerText(" " + "t") && AllSpace("  ")
  {
    assert Lower("SELECT") == "select";
  }

  /** Lowering a text made of four parts, where the second and fourth are already lower case. */
  lemma LowerFourParts(sql: string, a: string, b: string, c: string, d: string, la: string, lc: string)
    requires sql == a + b + c + d
    requires Lower(a) == la && Lower(c) == lc && IsLowerText(b) && IsLowerText(d)
    ensures Lower(sql) == la + b + lc + d
  {
    LowerFour(a, b, c, d);
    LowerOfLower(b);
    LowerOfLower(d);
  }

  /** Lowering four parts one by one. */
  lemma LowerFour(a: string, b: string, c: string, d: string)
    ensures Lower(a + b + c + d) == Lower(a) + Lower(b) + Lower(c) + Lower(d)
  {
    LowerAppend(a + b + c, d);
    LowerAppend(a + b, c);
    LowerAppend(a, b);
  }

  /**
    After the keyword, whitespace, a plain word, a space and any text without a comma
    read back as that word alone.
   */
  lemma WordThenText(q: string, w: string, t: string)
    requires AllSpace(q) && PlainColumn(w) && ',' !in t
    ensures ColumnsIn(q + w + " " + t) == [w]
  {
    var x := w + " " + t;
    assert q + w + " " + t == q + x;
    StripDropsSpace(q, x);
    var s := Strip(x);
    WordEntryStrip(w, t, x, s);
    SingleEntry(q + x, s);
    WordEntryFirst(w, s);
  }

  /** A text that strips to one comma-free entry, itself already stripped, has that entry alone. */
  lemma SingleEntry(r: string, s: string)
    requires Strip(r) == s && ',' !in s && Strip(s) == s
    ensures ColumnsIn(r) == Collect([s])
  {
    SplitNoSeparator(s, ',');
    assert StripEach([s]) == [Strip(s)];
  }

  /** Such an entry strips to a comma-free prefix of itself that starts with the word and strips to itself. */
  lemma WordEntryStrip(w: string, t: string, x: string, s: string)
    requires PlainColumn(w) && ',' !in t
    requires x == w + " " + t && s == Strip(x)
    ensures |s| >= |w| && s[..|w|] == w && ',' !in s && Strip(s) == s
    ensures |s| > |w| ==> s[|w|] == ' '
  {
    assert x[0] == w[0] && x[|w| - 1] == w[|w| - 1];
    StripKeepsUpTo(x, |w| - 1);
    assert s == x[..|s|];
    assert ',' !in x;
    StripKeepsUpTo(s, |s| - 1);
  }

  /** The labels of a single entry that starts with the word, followed by nothing or a space, are the word. */
  lemma WordEntryFirst(w: string, s: string)
    requires PlainColumn(w) && |s| >= |w| && s[..|w|] == w
    requires |s| > |w| ==> s[|w|] == ' '
    ensures Collect([s]) == [w]
  {
    assert ' ' !in w;
    if |s| == |w| {
      assert s == w;
    } else {
      var u := s[|w|..];
      assert s == w + u && u[0] == ' ';
      SplitPrefix(w, u, ' ');
      assert u == [' '] + u[1..];
      assert Split(u, ' ')[0] == [];
      assert w + [] == w;
    }
  }
}
