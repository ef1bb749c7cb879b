/**
  `sql_helper.get_selected_columns`: recovers the selected column labels from a
  SQL text typed by the user. `SelectedColumns` states what the function computes;
  `GetSelectedColumns` is the step-by-step procedure of the source, proved equal to it.
 */
module SqlHelper {
  import opened Wrappers
  import opened Errors
  import opened Text

  const Keyword := "select"
  const NotSelectMsg := "Not a select command."

  /** `[c.strip() for c in pieces]` */
  function StripEach(pieces: seq<string>): (r: seq<string>)
    ensures |r| == |pieces|
  {
    if pieces == [] then [] else [Strip(pieces[0])] + StripEach(pieces[1..])
  }

  lemma {:induction false} StripEachAt(pieces: seq<string>, i: nat)
    requires i < |pieces|
    ensures StripEach(pieces)[i] == Strip(pieces[i])
  {
    if i > 0 {
      StripEachAt(pieces[1..], i - 1);
    }
  }

  /** The column candidates in the text after the keyword: stripped, split at commas, each piece stripped. */
  function Entries(rest: string): (r: seq<string>)
    ensures |r| >= 1
  {
    StripEach(Split(Strip(rest), ','))
  }

  /** `entry.split(" ")[0]`: the text of `entry` before its first space. */
  function FirstWord(entry: string): (w: string)
    ensures ' ' !in w
    ensures ' ' !in entry ==> w == entry
  {
    var w := Split(entry, ' ')[0];
    assert ' ' !in entry ==> w == entry by {
      if ' ' !in entry {
        SplitNoSeparator(entry, ' ');
      }
    }
    w
  }

  /**
    What the loop keeps of the entries: every entry up to the first one that holds a
    space, and of that one only the text before its first space.
   */
  function Collect(entries: seq<string>): (cols: seq<string>)
    ensures |cols| <= |entries|
    ensures |entries| > 0 ==> |cols| > 0
    ensures forall j :: 0 <= j < |cols| ==> ' ' !in cols[j]
  {
    if entries == [] then []
    else if ' ' in entries[0] then [FirstWord(entries[0])]
    else [entries[0]] + Collect(entries[1..])
  }

  /**
    The labels are the entries in order, up to the first entry that holds a space;
    only the last label can differ from its entry, and then it is that entry cut at
    its first space. Labels stop early only at an entry that holds a space.
   */
  lemma {:induction false} CollectShape(entries: seq<string>)
    ensures var cols := Collect(entries);
      && (forall j :: 0 <= j < |cols| - 1 ==> ' ' !in entries[j] && cols[j] == entries[j])
      && (|cols| > 0 ==> cols[|cols| - 1] == FirstWord(entries[|cols| - 1]))
      && (|cols| < |entries| ==> |cols| > 0 && ' ' in entries[|cols| - 1])
  {
    if entries != [] && ' ' !in entries[0] {
      CollectShape(entries[1..]);
    }
  }

  /** The labels read from the text that follows the keyword. */
  function ColumnsIn(rest: string): (cols: seq<string>)
    ensures |cols| >= 1
    ensures forall j :: 0 <= j < |cols| ==> ' ' !in cols[j]
  {
    Collect(Entries(rest))
  }

  /** The text after the first `select` in a lower-cased text, if it holds one. */
  function AfterKeyword(lowered: string): (r: Option<string>)
    ensures r.None? <==> forall i :: !OccursAt(lowered, Keyword, i)
  {
    match Find(lowered, Keyword)
    case None => None
    case Some(k) => Some(lowered[k + |Keyword|..])
  }

  /**
    The result of `get_selected_columns(sql)`: `ValueError` exactly when the lower-cased
    text holds no `select`; otherwise a non-empty list of labels without spaces.
   */
  function SelectedColumns(sql: string): (r: Result<seq<string>, Error>)
    ensures r.Failure? <==> forall i :: !OccursAt(Lower(sql), Keyword, i)
    ensures r.Failure? ==> r.error == ValueError(NotSelectMsg)
    ensures r.Success? ==> |r.value| >= 1
    ensures r.Success? ==> forall j :: 0 <= j < |r.value| ==> ' ' !in r.value[j]
  {
    match AfterKeyword(Lower(sql))
    case None => Failure(ValueError(NotSelectMsg))
    case Some(rest) => Success(ColumnsIn(rest))
  }

  /** `get_selected_columns(sql)` as the source runs it. */
  method GetSelectedColumns(sql: string) returns (r: Result<seq<string>, Error>)
    ensures r == SelectedColumns(sql)
  {
    var text := Lower(sql);
    var found := Find(text, Keyword);
    if found.None? {
      return Failure(ValueError(NotSelectMsg));
    }
    var selectIndex := found.value + 6;
    ghost var rest := text[selectIndex..];
    text := Strip(text[selectIndex..]);
    var splitted := Split(text, ',');
    splitted := StripEach(splitted);
    var columns := CollectColumns(splitted);
    ghost var entries := Entries(rest);
    assert splitted == entries;
    assert SelectedColumns(sql) == Success(Collect(entries));
    return Success(columns);
  }

  /**
    The loop of `get_selected_columns` over the stripped entries: each entry is kept
    until one holds a space; of that one only the text before its first space is kept,
    and the loop stops.
   */
  method CollectColumns(splitted: seq<string>) returns (columns: seq<string>)
    ensures columns == Collect(splitted)
  {
    columns := [];
    ghost var cut := false;
    for i := 0 to |splitted|
      invariant |columns| == i
      invariant forall j :: 0 <= j < i ==> columns[j] == splitted[j] && ' ' !in splitted[j]
    {
      var entry := splitted[i];
      if ' ' in entry {
        CollectStopsAt(splitted, i);
        columns := columns + [FirstWord(entry)];
        cut := true;
        break;
      }
      columns := columns + [entry];
    }
    if !cut {
      CollectNoSpace(splitted);
    }
  }

  // ---------------------------------------------------------------- properties

  /** The result depends only on the lower-cased text. */
  lemma SelectedColumnsOfLower(sql: string)
    ensures SelectedColumns(Lower(sql)) == SelectedColumns(sql)
  {
    LowerIsLower(sql);
    LowerOfLower(Lower(sql));
  }

  /** Every returned label is lower case. */
  lemma SelectedColumnsAreLower(sql: string)
    requires SelectedColumns(sql).Success?
    ensures forall j :: 0 <= j < |SelectedColumns(sql).value| ==> IsLowerText(SelectedColumns(sql).value[j])
  {
    var lowered := Lower(sql);
    LowerIsLower(sql);
    var k := Find(lowered, Keyword).value;
    var rest := lowered[k + |Keyword|..];
    assert IsLowerText(rest);
    EntriesLower(rest);
    CollectLower(Entries(rest));
    assert SelectedColumns(sql) == Success(Collect(Entries(rest)));
  }

  /** The entries of a lower-case text are lower case. */
  lemma EntriesLower(rest: string)
    requires IsLowerText(rest)
    ensures forall i :: 0 <= i < |Entries(rest)| ==> IsLowerText(Entries(rest)[i])
  {
    StripLower(rest);
    var pieces := Split(Strip(rest), ',');
    SplitLower(Strip(rest), ',');
    forall i | 0 <= i < |pieces| ensures IsLowerText(Entries(rest)[i]) {
      StripEachAt(pieces, i);
      StripLower(pieces[i]);
    }
  }

  /** The labels collected from lower-case entries are lower case. */
  lemma CollectLower(entries: seq<string>)
    requires forall i :: 0 <= i < |entries| ==> IsLowerText(entries[i])
    ensures forall j :: 0 <= j < |Collect(entries)| ==> IsLowerText(Collect(entries)[j])
  {
    var cols := Collect(entries);
    CollectShape(entries);
    forall j | 0 <= j < |cols| ensures IsLowerText(cols[j]) {
      if j == |cols| - 1 {
        SplitLower(entries[j], ' ');
        assert cols[j] == Split(entries[j], ' ')[0];
      } else {
        assert cols[j] == entries[j];
      }
    }
  }

  /**
    Text before the first `select` is ignored: prefixing a text that does not create an
    earlier `select` leaves the result unchanged.
   */
  lemma PrefixIgnored(p: string, sql: string)
    requires forall i :: 0 <= i < |p| ==> !OccursAt(Lower(p + sql), Keyword, i)
    ensures SelectedColumns(p + sql) == SelectedColumns(sql)
  {
    LowerAppend(p, sql);
    assert Lower(p + sql)[|p|..] == Lower(sql);
    AfterKeywordSuffix(Lower(p + sql), Lower(sql), |p|);
  }

  /** With no keyword in the first `n` characters, the rest after the keyword is that of the suffix. */
  lemma AfterKeywordSuffix(whole: string, tail: string, n: nat)
    requires n <= |whole| && whole[n..] == tail
    requires forall i :: 0 <= i < n ==> !OccursAt(whole, Keyword, i)
    ensures AfterKeyword(whole) == AfterKeyword(tail)
  {
    match Find(tail, Keyword)
    case None =>
      NoKeywordInSuffix(whole, tail, n);
    case Some(k) =>
      FirstKeywordInSuffix(whole, tail, n, k);
      assert whole[n + k + |Keyword|..] == tail[k + |Keyword|..];
  }

  /** No keyword before `n` and none in the suffix from `n`: none at all. */
  lemma NoKeywordInSuffix(whole: string, tail: string, n: nat)
    requires n <= |whole| && whole[n..] == tail
    requires forall i :: 0 <= i < n ==> !OccursAt(whole, Keyword, i)
    requires forall j :: !OccursAt(tail, Keyword, j)
    ensures Find(whole, Keyword) == None
  {
    forall i ensures !OccursAt(whole, Keyword, i) {
      if i >= n {
        OccursShift(whole, Keyword, n, i - n);
      }
    }
  }

  /** No keyword before `n` and the first one of the suffix at `k`: the first one of the whole text is at `n + k`. */
  lemma FirstKeywordInSuffix(whole: string, tail: string, n: nat, k: nat)
    requires n <= |whole| && whole[n..] == tail
    requires forall i :: 0 <= i < n ==> !OccursAt(whole, Keyword, i)
    requires OccursAt(tail, Keyword, k) && forall j :: 0 <= j < k ==> !OccursAt(tail, Keyword, j)
    ensures Find(whole, Keyword) == Some(n + k)
  {
    forall i | 0 <= i < n + k ensures !OccursAt(whole, Keyword, i) {
      if i >= n {
        OccursShift(whole, Keyword, n, i - n);
      }
    }
    OccursShift(whole, Keyword, n, k);
    FindIsFirst(whole, Keyword, n + k);
  }

  /** With no entry holding a space, every entry is kept as it is. */
  lemma {:induction false} CollectNoSpace(entries: seq<string>)
    requires forall j :: 0 <= j < |entries| ==> ' ' !in entries[j]
    ensures Collect(entries) == entries
  {
    if entries != [] {
      CollectNoSpace(entries[1..]);
    }
  }

  /**
    When the first `n` entries hold no space and entry `n` does, the labels are those
    `n` entries followed by entry `n` cut at its first space.
   */
  lemma {:induction false} CollectStopsAt(entries: seq<string>, n: nat)
    requires n < |entries| && ' ' in entries[n]
    requires forall j :: 0 <= j < n ==> ' ' !in entries[j]
    ensures |Collect(entries)| == n + 1 && Collect(entries)[n] == FirstWord(entries[n])
    ensures forall j :: 0 <= j < n ==> Collect(entries)[j] == entries[j]
  {
    if n > 0 {
      CollectStopsAt(entries[1..], n - 1);
      assert entries[..n] == [entries[0]] + entries[1..][..n - 1];
    }
  }
}
