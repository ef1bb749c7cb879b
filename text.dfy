/**
  The parts of Python's `str` that the core relies on: `lower`, `strip`,
  `split` with an explicit separator, `join`, `find` and the `in` test.
  Strings are sequences of characters; `lower` is modelled on ASCII letters only.
 */
module Text {
  import opened Wrappers

  // ---------------------------------------------------------------- whitespace

  /** The characters for which Python's `str.isspace()` holds, i.e. those `str.strip()` removes. */
  predicate IsSpace(c: char) {
    ('\t' <= c <= '\r') || ('\U{1c}' <= c <= ' ') || c == '\U{85}' || c == '\U{a0}'
    || c == '\U{1680}' || ('\U{2000}' <= c <= '\U{200a}') || c == '\U{2028}' || c == '\U{2029}'
    || c == '\U{202f}' || c == '\U{205f}' || c == '\U{3000}'
  }

  /** The characters listed as whitespace by Python, one by one. */
  const PythonSpaces: set<char> := {
    '\t', '\n', '\U{0b}', '\U{0c}', '\r', '\U{1c}', '\U{1d}', '\U{1e}', '\U{1f}', ' ',
    '\U{85}', '\U{a0}', '\U{1680}',
    '\U{2000}', '\U{2001}', '\U{2002}', '\U{2003}', '\U{2004}', '\U{2005}', '\U{2006}',
    '\U{2007}', '\U{2008}', '\U{2009}', '\U{200a}',
    '\U{2028}', '\U{2029}', '\U{202f}', '\U{205f}', '\U{3000}'
  }

  /** `IsSpace` holds for exactly the listed characters. */
  lemma SpaceCharacters(c: char)
    ensures IsSpace(c) <==> c in PythonSpaces
  {
  }

  predicate AllSpace(s: string) {
    forall i :: 0 <= i < |s| ==> IsSpace(s[i])
  }

  /** How many whitespace characters `s` starts with. */
  function LeadingSpace(s: string): (k: nat)
    ensures k <= |s|
    ensures forall i :: 0 <= i < k ==> IsSpace(s[i])
    ensures k < |s| ==> !IsSpace(s[k])
  {
    if |s| > 0 && IsSpace(s[0]) then 1 + LeadingSpace(s[1..]) else 0
  }

  /** The length of `s` without the whitespace it ends with. */
  function KeptLength(s: string): (k: nat)
    ensures k <= |s|
    ensures forall i :: k <= i < |s| ==> IsSpace(s[i])
    ensures k > 0 ==> !IsSpace(s[k - 1])
  {
    if |s| > 0 && IsSpace(s[|s| - 1]) then KeptLength(s[..|s| - 1]) else |s|
  }

  /** `s.lstrip()` */
  function TrimLeft(s: string): string {
    s[LeadingSpace(s)..]
  }

  /** `s.rstrip()` */
  function TrimRight(s: string): string {
    s[..KeptLength(s)]
  }

  /** `s.strip()`: `s` without the whitespace it starts and ends with. */
  function Strip(s: string): (r: string)
    ensures |r| <= |s|
    ensures r == [] ==> AllSpace(s)
    ensures r != [] ==> !IsSpace(r[0]) && !IsSpace(r[|r| - 1])
  {
    TrimRight(TrimLeft(s))
  }

  /** A text of whitespace only strips to the empty text. */
  lemma StripAllSpace(s: string)
    requires AllSpace(s)
    ensures Strip(s) == []
  {
  }

  /** Leading whitespace does not change the stripped text. */
  lemma StripSkipsSpace(s: string)
    requires |s| > 0 && IsSpace(s[0])
    ensures Strip(s) == Strip(s[1..])
  {
    assert s[1 + LeadingSpace(s[1..])..] == s[1..][LeadingSpace(s[1..])..];
  }

  /**
    A text that starts with a non-space character strips to a prefix of itself, which
    reaches at least past every other non-space character.
   */
  lemma StripKeepsUpTo(s: string, m: nat)
    requires m < |s| && !IsSpace(s[0]) && !IsSpace(s[m])
    ensures m < |Strip(s)| && Strip(s) == s[..|Strip(s)|]
  {
    assert TrimLeft(s) == s;
  }

  /**
    A text of one whitespace character and then a non-space one strips to a prefix of
    the rest, reaching at least past every other non-space character.
   */
  lemma StripSpaceThen(s: string, m: nat)
    requires 1 <= m < |s| && IsSpace(s[0]) && !IsSpace(s[1]) && !IsSpace(s[m])
    ensures m <= |Strip(s)| && Strip(s)[..m] == s[1..m + 1]
  {
    var t := s[1..];
    StripSkipsSpace(s);
    StripKeepsUpTo(t, m - 1);
    var r := Strip(t);
    assert r[..m] == t[..m];
    assert t[..m] == s[1..m + 1];
  }

  /** A text without whitespace is its own stripped form. */
  lemma StripNoSpace(s: string)
    requires forall i :: 0 <= i < |s| ==> !IsSpace(s[i])
    ensures Strip(s) == s
  {
    if |s| > 0 {
      StripKeepsUpTo(s, |s| - 1);
    }
  }

  /** Any whitespace in front of a text does not change the stripped text. */
  lemma {:induction false} StripDropsSpace(q: string, x: string)
    requires AllSpace(q)
    ensures Strip(q + x) == Strip(x)
  {
    if |q| > 0 {
      StripSkipsSpace(q + x);
      assert (q + x)[1..] == q[1..] + x;
      StripDropsSpace(q[1..], x);
    } else {
      assert q + x == x;
    }
  }

  // ---------------------------------------------------------------- lower case

  predicate IsUpper(c: char) {
    'A' <= c <= 'Z'
  }

  /** A string in which no ASCII letter is upper case. */
  predicate IsLowerText(s: string) {
    forall i :: 0 <= i < |s| ==> !IsUpper(s[i])
  }

  function LowerChar(c: char): (d: char)
    ensures !IsUpper(d)
    ensures !IsUpper(c) ==> d == c
  {
    if IsUpper(c) then (c as int + 32) as char else c
  }

  /** `s.lower()` restricted to ASCII: every letter `A`..`Z` becomes its lower-case form. */
  function Lower(s: string): (r: string)
    ensures |r| == |s|
  {
    if s == [] then [] else [LowerChar(s[0])] + Lower(s[1..])
  }

  /** Each character is lowered on its own. */
  lemma {:induction false} LowerAt(s: string, i: nat)
    requires i < |s|
    ensures Lower(s)[i] == LowerChar(s[i])
  {
    if i > 0 {
      LowerAt(s[1..], i - 1);
    }
  }

  lemma LowerIsLower(s: string)
    ensures IsLowerText(Lower(s))
  {
    forall i | 0 <= i < |s| ensures !IsUpper(Lower(s)[i]) {
      LowerAt(s, i);
    }
  }

  /** Lowering changes nothing in a string that has no upper-case letter; so `Lower` is idempotent. */
  lemma LowerOfLower(s: string)
    requires IsLowerText(s)
    ensures Lower(s) == s
  {
    forall i | 0 <= i < |s| ensures Lower(s)[i] == s[i] {
      LowerAt(s, i);
    }
  }

  lemma LowerAppend(a: string, b: string)
    ensures Lower(a + b) == Lower(a) + Lower(b)
  {
    forall i | 0 <= i < |a + b| ensures Lower(a + b)[i] == (Lower(a) + Lower(b))[i] {
      LowerAt(a + b, i);
      if i < |a| {
        LowerAt(a, i);
      } else {
        LowerAt(b, i - |a|);
      }
    }
  }

  /** Stripping keeps a lower-case text lower case. */
  lemma StripLower(s: string)
    requires IsLowerText(s)
    ensures IsLowerText(Strip(s))
  {
  }

  /** Every piece of a lower-case text is lower case. */
  lemma {:induction false} SplitLower(s: string, sep: char)
    requires IsLowerText(s)
    ensures forall i :: 0 <= i < |Split(s, sep)| ==> IsLowerText(Split(s, sep)[i])
  {
    if |s| > 0 {
      SplitLower(s[1..], sep);
    }
  }

  /** Joining lower-case pieces with a lower-case separator gives a lower-case text. */
  lemma {:induction false} JoinLower(sep: string, xs: seq<string>)
    requires IsLowerText(sep)
    requires forall i :: 0 <= i < |xs| ==> IsLowerText(xs[i])
    ensures IsLowerText(Join(sep, xs))
  {
    if |xs| > 1 {
      JoinLower(sep, xs[1..]);
    }
  }

  // ---------------------------------------------------------------- find / in

  /** `pat` occurs in `s` starting at index `i`. */
  predicate OccursAt(s: string, pat: string, i: int) {
    0 <= i && i + |pat| <= |s| && s[i..i + |pat|] == pat
  }

  function FindFrom(s: string, pat: string, from: nat): (r: Option<nat>)
    requires from <= |s|
    ensures r.Some? ==> from <= r.value && OccursAt(s, pat, r.value)
    ensures r.Some? ==> forall j :: from <= j < r.value ==> !OccursAt(s, pat, j)
    ensures r.None? ==> forall j :: from <= j ==> !OccursAt(s, pat, j)
    decreases |s| - from
  {
    if OccursAt(s, pat, from) then Some(from)
    else if from == |s| then None
    else FindFrom(s, pat, from + 1)
  }

  /** `s.find(pat)`, with `None` for Python's `-1`; `pat in s` is `Find(s, pat).Some?`. */
  function Find(s: string, pat: string): (r: Option<nat>)
    ensures r.Some? ==> OccursAt(s, pat, r.value)
    ensures r.Some? ==> forall j :: 0 <= j < r.value ==> !OccursAt(s, pat, j)
    ensures r.None? <==> forall j :: !OccursAt(s, pat, j)
  {
    FindFrom(s, pat, 0)
  }

  /** The first occurrence is the only index that is an occurrence with none before it. */
  lemma FindIsFirst(s: string, pat: string, k: nat)
    requires OccursAt(s, pat, k)
    requires forall j :: 0 <= j < k ==> !OccursAt(s, pat, j)
    ensures Find(s, pat) == Some(k)
  {
  }

  /** An occurrence in a suffix is an occurrence in the whole text, shifted by the dropped prefix. */
  lemma OccursShift(s: string, pat: string, n: nat, j: nat)
    requires n <= |s|
    ensures OccursAt(s, pat, n + j) == OccursAt(s[n..], pat, j)
  {
    if j + |pat| <= |s| - n {
      assert s[n..][j..j + |pat|] == s[n + j..n + j + |pat|];
    }
  }

  // ---------------------------------------------------------------- join / split

  /** `sep.join(xs)` */
  function Join(sep: string, xs: seq<string>): (r: string)
    ensures xs == [] ==> r == []
    ensures |xs| == 1 ==> r == xs[0]
  {
    if |xs| == 0 then []
    else if |xs| == 1 then xs[0]
    else xs[0] + sep + Join(sep, xs[1..])
  }

  /** A join starts with its first piece. */
  lemma JoinHead(sep: string, xs: seq<string>)
    requires |xs| >= 1
    ensures |Join(sep, xs)| >= |xs[0]| && Join(sep, xs)[..|xs[0]|] == xs[0]
  {
    if |xs| > 1 {
      var tail := sep + Join(sep, xs[1..]);
      assert Join(sep, xs) == xs[0] + tail;
    }
  }

  /** Every text of `ys` with `pad` in front of it. */
  function Padded(pad: string, ys: seq<string>): (r: seq<string>)
    ensures |r| == |ys|
    ensures forall i :: 0 <= i < |ys| ==> r[i] == pad + ys[i]
  {
    if ys == [] then [] else [pad + ys[0]] + Padded(pad, ys[1..])
  }

  /**
    A separator followed by padding joins the same text as the bare separator does over
    the later pieces with the padding put in front of each.
   */
  lemma {:induction false} JoinPadded(sep: char, pad: string, xs: seq<string>)
    requires |xs| >= 1
    ensures Join([sep] + pad, xs) == Join([sep], [xs[0]] + Padded(pad, xs[1..]))
  {
    if |xs| > 1 {
      PadJoin(sep, pad, xs[1..]);
      var ys := [xs[0]] + Padded(pad, xs[1..]);
      assert ys[1..] == Padded(pad, xs[1..]);
      assert xs[0] + ([sep] + pad) + Join([sep] + pad, xs[1..])
        == xs[0] + [sep] + (pad + Join([sep] + pad, xs[1..]));
    }
  }

  lemma {:induction false} PadJoin(sep: char, pad: string, ys: seq<string>)
    requires |ys| >= 1
    ensures pad + Join([sep] + pad, ys) == Join([sep], Padded(pad, ys))
  {
    if |ys| > 1 {
      PadJoin(sep, pad, ys[1..]);
      var zs := Padded(pad, ys);
      assert zs[1..] == Padded(pad, ys[1..]);
      assert pad + (ys[0] + ([sep] + pad) + Join([sep] + pad, ys[1..]))
        == (pad + ys[0]) + [sep] + (pad + Join([sep] + pad, ys[1..]));
    }
  }

  /** Extending the first piece by one character extends the joined text by that character. */
  lemma JoinExtendHead(sep: string, c: char, t: seq<string>)
    requires |t| >= 1
    ensures Join(sep, [[c] + t[0]] + t[1..]) == [c] + Join(sep, t)
  {
    var u := [[c] + t[0]] + t[1..];
    if |t| > 1 {
      assert u[1..] == t[1..];
    }
  }

  /** `s.split(sep)` for a one-character separator: the pieces between separators, at least one. */
  function Split(s: string, sep: char): (r: seq<string>)
    ensures |r| >= 1
    ensures forall i :: 0 <= i < |r| ==> sep !in r[i]
  {
    if |s| == 0 then [[]]
    else if s[0] == sep then [[]] + Split(s[1..], sep)
    else
      var t := Split(s[1..], sep);
      [[s[0]] + t[0]] + t[1..]
  }

  /** Joining the pieces with the separator gives the text back. */
  lemma {:induction false} JoinSplit(s: string, sep: char)
    ensures Join([sep], Split(s, sep)) == s
  {
    if |s| > 0 {
      var t := Split(s[1..], sep);
      JoinSplit(s[1..], sep);
      if s[0] == sep {
        assert ([[]] + t)[1..] == t;
      } else {
        JoinExtendHead([sep], s[0], t);
      }
      assert s == [s[0]] + s[1..];
    }
  }

  /**
    Splitting joined pieces followed by more text: every piece but the last comes back,
    and the last one is split together with the text that follows it.
   */
  lemma {:induction false} SplitJoinThen(xs: seq<string>, b: string, sep: char)
    requires |xs| >= 1
    requires forall i :: 0 <= i < |xs| ==> sep !in xs[i]
    ensures Split(Join([sep], xs) + b, sep) == xs[..|xs| - 1] + Split(xs[|xs| - 1] + b, sep)
  {
    if |xs| > 1 {
      var n := |xs|;
      var tail := xs[1..];
      var y := Join([sep], tail) + b;
      var last := Split(xs[n - 1] + b, sep);
      assert tail[|tail| - 1] == xs[n - 1];
      calc {
        Split(Join([sep], xs) + b, sep);
      == { JoinThen([sep], xs, b); }
        Split(xs[0] + [sep] + y, sep);
      == { SplitAfterPiece(xs[0], y, sep); }
        [xs[0]] + Split(y, sep);
      == { SplitJoinThen(tail, b, sep); }
        [xs[0]] + (tail[..n - 2] + last);
      ==
        ([xs[0]] + tail[..n - 2]) + last;
      == { assert xs[..n - 1] == [xs[0]] + tail[..n - 2]; }
        xs[..n - 1] + last;
      }
    }
  }

  /** Text after a join of two or more pieces follows the join of the later pieces. */
  lemma JoinThen(sep: string, xs: seq<string>, b: string)
    requires |xs| >= 2
    ensures Join(sep, xs) + b == xs[0] + sep + (Join(sep, xs[1..]) + b)
  {
    var head := xs[0] + sep;
    var rest := Join(sep, xs[1..]);
    calc {
      Join(sep, xs) + b;
    ==
      (head + rest) + b;
    ==
      head + (rest + b);
    }
  }

  /** A separator-free piece followed by the separator splits off as the first piece. */
  lemma SplitAfterPiece(a: string, y: string, sep: char)
    requires sep !in a
    ensures Split(a + [sep] + y, sep) == [a] + Split(y, sep)
  {
    SplitPrefix(a, [sep] + y, sep);
    assert a + [sep] + y == a + ([sep] + y);
    assert ([sep] + y)[1..] == y;
    assert a + [] == a;
  }

  /** No piece of a non-empty list holds the separator: splitting the joined text gives the pieces back. */
  lemma {:induction false} SplitJoin(xs: seq<string>, sep: char)
    requires |xs| >= 1
    requires forall i :: 0 <= i < |xs| ==> sep !in xs[i]
    ensures Split(Join([sep], xs), sep) == xs
  {
    if |xs| == 1 {
      SplitNoSeparator(xs[0], sep);
    } else {
      SplitJoin(xs[1..], sep);
      SplitPrefix(xs[0], [sep] + Join([sep], xs[1..]), sep);
      assert xs[0] + [sep] + Join([sep], xs[1..]) == xs[0] + ([sep] + Join([sep], xs[1..]));
      assert Split([sep] + Join([sep], xs[1..]), sep) == [[]] + xs[1..] by {
        assert ([sep] + Join([sep], xs[1..]))[1..] == Join([sep], xs[1..]);
      }
      assert xs[0] + [] == xs[0];
      assert [xs[0]] + xs[1..] == xs;
    }
  }

  lemma {:induction false} SplitNoSeparator(s: string, sep: char)
    requires sep !in s
    ensures Split(s, sep) == [s]
  {
    if |s| > 0 {
      SplitNoSeparator(s[1..], sep);
      assert [s[0]] + s[1..] == s;
    }
  }

  /** A separator-free prefix is glued onto the first piece of what follows it. */
  lemma {:induction false} SplitPrefix(a: string, b: string, sep: char)
    requires sep !in a
    ensures Split(a + b, sep) == [a + Split(b, sep)[0]] + Split(b, sep)[1..]
  {
    if |a| == 0 {
      assert a + b == b;
      assert a + Split(b, sep)[0] == Split(b, sep)[0];
      assert Split(b, sep) == [Split(b, sep)[0]] + Split(b, sep)[1..];
    } else {
      assert (a + b)[1..] == a[1..] + b;
      assert (a + b)[0] == a[0];
      SplitPrefix(a[1..], b, sep);
      assert [a[0]] + (a[1..] + Split(b, sep)[0]) == a + Split(b, sep)[0];
    }
  }
}
