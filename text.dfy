/** The few Python string operations the codelists and pull commands use,
    written out over sequences: str.strip(), str.rstrip(chars),
    str.split(sep), sep.join(parts), str.partition(sep), and
    str.splitlines() / bytes.splitlines(). */
module Text {

  import opened Wrappers

  /** Python's str.isspace(): the characters a bare strip() removes. */
  predicate IsSpace(c: char) {
    || c == ' '
    || ('\t' <= c <= '\r')
    || ('\U{1c}' <= c <= '\U{1f}')
    || c == '\U{85}' || c == '\U{a0}' || c == '\U{1680}'
    || ('\U{2000}' <= c <= '\U{200a}')
    || c == '\U{2028}' || c == '\U{2029}' || c == '\U{202f}'
    || c == '\U{205f}' || c == '\U{3000}'
  }

  /** Drops the longest prefix whose elements all satisfy `drop`. */
  function TrimStart<T>(s: seq<T>, drop: T -> bool): (r: seq<T>)
    ensures |r| <= |s| && r == s[|s| - |r|..]
    ensures r == [] || !drop(r[0])
    ensures forall i :: 0 <= i < |s| - |r| ==> drop(s[i])
  {
    if s != [] && drop(s[0]) then TrimStart(s[1..], drop) else s
  }

  /** Drops the longest suffix whose elements all satisfy `drop`. */
  function TrimEnd<T>(s: seq<T>, drop: T -> bool): (r: seq<T>)
    ensures |r| <= |s| && r == s[..|r|]
    ensures r == [] || !drop(r[|r| - 1])
    ensures forall i :: |r| <= i < |s| ==> drop(s[i])
  {
    if s != [] && drop(s[|s| - 1]) then TrimEnd(s[..|s| - 1], drop) else s
  }

  /** How many white-space characters `s` starts with. */
  function LeadingSpace(s: string): (n: nat)
    ensures n <= |s| && (n < |s| ==> !IsSpace(s[n]))
    ensures forall j :: 0 <= j < n ==> IsSpace(s[j])
  {
    |s| - |TrimStart(s, IsSpace)|
  }

  /** Python's `s.strip()`: the part of `s` after its leading and before
      its trailing white space, ending with a character that is not white
      space. */
  function Strip(s: string): (r: string)
    ensures var i := LeadingSpace(s);
      && i + |r| <= |s| && r == s[i..i + |r|]
      && (forall j :: i + |r| <= j < |s| ==> IsSpace(s[j]))
    ensures r == [] || !IsSpace(r[|r| - 1])
  {
    var t := TrimStart(s, IsSpace);
    assert t == s[LeadingSpace(s)..];
    TrimEnd(t, IsSpace)
  }

  /** `s.strip()` is empty exactly when `s` is all white space. */
  lemma StripEmpty(s: string)
    ensures Strip(s) == [] <==> forall i :: 0 <= i < |s| ==> IsSpace(s[i])
  {
    var t := TrimStart(s, IsSpace);
    if Strip(s) == [] {
      assert t == [];
    }
  }

  /** Python's `s.rstrip(c)` for a single character `c`: `s` less its
      longest run of trailing `c`. */
  function RStrip(s: string, c: char): (r: string)
    ensures |r| <= |s| && r == s[..|r|]
    ensures r == [] || r[|r| - 1] != c
    ensures forall i :: |r| <= i < |s| ==> s[i] == c
  {
    TrimEnd(s, x => x == c)
  }

  /** Index of the first `sep` in `s`, or `|s|` when there is none. */
  function IndexOf<T(==)>(s: seq<T>, sep: T): (i: nat)
    ensures i <= |s|
    ensures sep !in s[..i]
    ensures i < |s| ==> s[i] == sep
  {
    if s == [] || s[0] == sep then 0 else 1 + IndexOf(s[1..], sep)
  }

  /** `sep.join(parts)`. */
  function Join<T>(sep: seq<T>, parts: seq<seq<T>>): seq<T>
  {
    if |parts| == 0 then []
    else if |parts| == 1 then parts[0]
    else parts[0] + sep + Join(sep, parts[1..])
  }

  /** Python's `s.split(sep)` for a one-character separator: every
      separator starts a new part, so the parts rejoin to `s` and there is
      one more part than there are separators. */
  function Split<T(==)>(s: seq<T>, sep: T): (parts: seq<seq<T>>)
    ensures |parts| == multiset(s)[sep] + 1
    ensures forall k :: 0 <= k < |parts| ==> sep !in parts[k]
    ensures Join([sep], parts) == s
  {
    var i := IndexOf(s, sep);
    if i == |s| then
      assert s[..i] == s;
      [s]
    else
      var rest := Split(s[i + 1..], sep);
      PrependPart(s, sep, i, rest);
      [s[..i]] + rest
  }

  /** The part before the first separator, put in front of the parts of
      what follows it, gives the parts of the whole. */
  lemma PrependPart<T>(s: seq<T>, sep: T, i: nat, rest: seq<seq<T>>)
    requires i < |s| && s[i] == sep && sep !in s[..i]
    requires |rest| == multiset(s[i + 1..])[sep] + 1
    requires forall k :: 0 <= k < |rest| ==> sep !in rest[k]
    requires Join([sep], rest) == s[i + 1..]
    ensures var parts := [s[..i]] + rest;
      && |parts| == multiset(s)[sep] + 1
      && (forall k :: 0 <= k < |parts| ==> sep !in parts[k])
      && Join([sep], parts) == s
  {
    var parts := [s[..i]] + rest;
    assert parts[1..] == rest;
    assert s == s[..i] + [sep] + s[i + 1..];
    MultisetCountSplit(s[..i], sep, s[i + 1..]);
  }

  lemma MultisetCountSplit<T>(a: seq<T>, sep: T, b: seq<T>)
    requires sep !in a
    ensures multiset(a + [sep] + b)[sep] == multiset(b)[sep] + 1
  {
    assert multiset(a + [sep] + b) == multiset(a) + multiset([sep]) + multiset(b);
  }

  /** The part of `s` before the first `sep`: the head of Python's
      `s.partition(sep)`, the whole of `s` when there is no `sep`. */
  function Before<T(==)>(s: seq<T>, sep: T): (head: seq<T>)
    ensures sep !in head
    ensures |head| <= |s| && head == s[..|head|]
    ensures |head| < |s| ==> s[|head|] == sep
  {
    s[..IndexOf(s, sep)]
  }

  /** The part before the first `sep` of `a + [sep] + b`, where `a` has
      no `sep`, is `a`. */
  lemma BeforeSep<T>(a: seq<T>, sep: T, b: seq<T>)
    requires sep !in a
    ensures Before(a + [sep] + b, sep) == a
  {
    IndexOfSep(a, sep, b);
    assert (a + [sep] + b)[..|a|] == a;
  }

  lemma {:induction false} IndexOfSep<T>(a: seq<T>, sep: T, b: seq<T>)
    requires sep !in a
    ensures IndexOf(a + [sep] + b, sep) == |a|
    decreases |a|
  {
    if a != [] {
      assert (a + [sep] + b)[1..] == a[1..] + [sep] + b;
      IndexOfSep(a[1..], sep, b);
    }
  }

  /** Python's `s.split(sep, 1)`: the text before and after the first
      `sep`, or None when the result would have only one element. */
  function SplitOnce<T(==)>(s: seq<T>, sep: T): (r: Option<(seq<T>, seq<T>)>)
    ensures r.None? <==> sep !in s
    ensures r.Some? ==> sep !in r.value.0 && s == r.value.0 + [sep] + r.value.1
  {
    var i := IndexOf(s, sep);
    if i == |s| then
      assert s[..i] == s;
      None
    else
      assert s == s[..i] + [sep] + s[i + 1..];
      Some((s[..i], s[i + 1..]))
  }

  /** Joining after appending one more part puts a separator and that
      part at the end. */
  lemma {:induction false} JoinSnoc<T>(sep: seq<T>, parts: seq<seq<T>>, last: seq<T>)
    requires parts != []
    ensures Join(sep, parts + [last]) == Join(sep, parts) + sep + last
  {
    if |parts| > 1 {
      assert (parts + [last])[1..] == parts[1..] + [last];
      JoinSnoc(sep, parts[1..], last);
    } else {
      assert (parts + [last])[1..] == [last];
    }
  }

  /** An element absent from a join is absent from every part. */
  lemma {:induction false} JoinAbsent<T>(sep: seq<T>, parts: seq<seq<T>>, x: T)
    requires x !in Join(sep, parts)
    ensures forall k :: 0 <= k < |parts| ==> x !in parts[k]
  {
    if |parts| > 1 {
      assert Join(sep, parts) == parts[0] + sep + Join(sep, parts[1..]);
      JoinAbsent(sep, parts[1..], x);
      assert forall k :: 1 <= k < |parts| ==> parts[k] == parts[1..][k - 1];
    }
  }

  /** An element in neither the separator nor any part is not in the join. */
  lemma {:induction false} JoinWithout<T>(sep: seq<T>, parts: seq<seq<T>>, x: T)
    requires x !in sep && forall k :: 0 <= k < |parts| ==> x !in parts[k]
    ensures x !in Join(sep, parts)
  {
    if |parts| > 1 {
      JoinWithout(sep, parts[1..], x);
    }
  }

  /** The text after the last `sep` in `s` (all of `s` when it has none). */
  function AfterLast<T(==)>(s: seq<T>, sep: T): (r: seq<T>)
    ensures |r| <= |s| && r == s[|s| - |r|..]
    ensures sep !in r
    ensures |r| < |s| ==> s[|s| - |r| - 1] == sep
  {
    if s == [] || s[|s| - 1] == sep then []
    else
      var front := AfterLast(s[..|s| - 1], sep);
      SuffixSnoc(s, front);
      front + [s[|s| - 1]]
  }

  /** A suffix of `s` without its last element, followed by that element,
      is a suffix of `s`. */
  lemma SuffixSnoc<T>(s: seq<T>, r: seq<T>)
    requires s != [] && |r| <= |s| - 1 && r == s[..|s| - 1][|s| - 1 - |r|..]
    ensures r + [s[|s| - 1]] == s[|s| - 1 - |r|..]
    ensures |r| + 1 < |s| ==> s[..|s| - 1][|s| - 2 - |r|] == s[|s| - 2 - |r|]
  {
  }

  lemma {:induction false} AfterLastSep<T>(front: seq<T>, sep: T, last: seq<T>)
    requires sep !in last
    ensures AfterLast(front + [sep] + last, sep) == last
    decreases |last|
  {
    var s := front + [sep] + last;
    if last != [] {
      assert s[..|s| - 1] == front + [sep] + last[..|last| - 1];
      AfterLastSep(front, sep, last[..|last| - 1]);
    }
  }

  /** `s` with every `a` replaced by `b`. */
  function Replace<T(==)>(s: seq<T>, a: T, b: T): (r: seq<T>)
    ensures |r| == |s|
    ensures forall k :: 0 <= k < |s| ==> r[k] == if s[k] == a then b else s[k]
  {
    if s == [] then [] else [if s[0] == a then b else s[0]] + Replace(s[1..], a, b)
  }

  /** Which elements end a line for one flavour of `splitlines()`, and the
      carriage return / line feed pair that together count as a single
      boundary. */
  datatype Newlines<!T> = Newlines(isBreak: T -> bool, cr: T, lf: T)

  ghost predicate ValidNewlines<T>(nl: Newlines<T>) {
    nl.isBreak(nl.cr) && nl.isBreak(nl.lf) && nl.cr != nl.lf
  }

  /** The line boundaries of `str.splitlines()`. */
  predicate IsLineBoundary(c: char) {
    || c == '\n' || c == '\r' || c == '\U{b}' || c == '\U{c}'
    || ('\U{1c}' <= c <= '\U{1e}')
    || c == '\U{85}' || c == '\U{2028}' || c == '\U{2029}'
  }

  const TextNewlines: Newlines<char> := Newlines(IsLineBoundary, '\r', '\n')

  /** A line, as `splitlines()` returns it: free of every boundary. */
  predicate NoBreak<T>(line: seq<T>, isBreak: T -> bool) {
    forall j :: 0 <= j < |line| ==> !isBreak(line[j])
  }

  /** Index of the first line boundary in `s`, or `|s|` when there is none. */
  function BreakAt<T>(s: seq<T>, isBreak: T -> bool): (i: nat)
    ensures i <= |s|
    ensures NoBreak(s[..i], isBreak)
    ensures i < |s| ==> isBreak(s[i])
  {
    if s == [] || isBreak(s[0]) then 0
    else
      var i := 1 + BreakAt(s[1..], isBreak);
      assert s[..i] == [s[0]] + s[1..][..i - 1];
      i
  }

  /** `BreakAt` is the one index with no boundary before it and a boundary
      (or the end) at it. */
  lemma {:induction false} BreakAtIs<T>(s: seq<T>, isBreak: T -> bool, j: nat)
    requires j <= |s| && NoBreak(s[..j], isBreak)
    requires j < |s| ==> isBreak(s[j])
    ensures BreakAt(s, isBreak) == j
    decreases |s|
  {
    if s != [] && !isBreak(s[0]) {
      assert j > 0;
      assert s[1..][..j - 1] == s[..j][1..];
      BreakAtIs(s[1..], isBreak, j - 1);
    } else if s != [] {
      NoBreakFirst(s, isBreak, j);
    }
  }

  /** A boundary-free non-empty prefix starts with a non-boundary. */
  lemma NoBreakFirst<T>(s: seq<T>, isBreak: T -> bool, j: nat)
    requires 0 < |s| && j <= |s| && NoBreak(s[..j], isBreak)
    ensures j > 0 ==> !isBreak(s[0])
  {
    if j > 0 {
      assert s[..j][0] == s[0];
    }
  }

  /** How many elements the boundary starting at `s[i]` takes up: two for
      a carriage return followed by a line feed, one otherwise. */
  function BreakWidth<T(==)>(s: seq<T>, i: nat, nl: Newlines<T>): (w: nat)
    requires i < |s|
    ensures 1 <= w <= 2 && i + w <= |s|
  {
    if s[i] == nl.cr && i + 1 < |s| && s[i + 1] == nl.lf then 2 else 1
  }

  /** Python's `splitlines()` without `keepends`: the lines of `s` with
      their boundaries removed; a boundary at the very end does not start
      a further, empty line, and the empty input has no lines at all. */
  function SplitLines<T(==)>(s: seq<T>, nl: Newlines<T>): (lines: seq<seq<T>>)
    ensures forall k :: 0 <= k < |lines| ==> NoBreak(lines[k], nl.isBreak)
    ensures |lines| <= |s|
    decreases |s|
  {
    if s == [] then []
    else
      var i := BreakAt(s, nl.isBreak);
      if i == |s| then
        assert s[..i] == s;
        [s]
      else
        [s[..i]] + SplitLines(s[i + BreakWidth(s, i, nl)..], nl)
  }

  /** The three separators a line may end with: LF, CR LF and CR. */
  ghost predicate IsLineEnding<T>(sep: seq<T>, nl: Newlines<T>) {
    sep == [nl.lf] || sep == [nl.cr, nl.lf] || sep == [nl.cr]
  }

  /** Joining boundary-free lines with any one of the three line endings
      and splitting them again gives the lines back, provided the last
      line is not empty (an empty last line would be indistinguishable
      from a trailing line ending). */
  lemma {:induction false} SplitLinesOfJoin<T>(ls: seq<seq<T>>, sep: seq<T>, nl: Newlines<T>)
    requires ValidNewlines(nl) && IsLineEnding(sep, nl)
    requires forall k :: 0 <= k < |ls| ==> NoBreak(ls[k], nl.isBreak)
    requires ls == [] || ls[|ls| - 1] != []
    ensures SplitLines(Join(sep, ls), nl) == ls
  {
    if |ls| == 0 {
    } else if |ls| == 1 {
      assert Join(sep, ls) == ls[0];
      SplitLinesOne(ls[0], nl);
    } else {
      SplitLinesOfJoin(ls[1..], sep, nl);
      SplitLinesOfJoinStep(ls, sep, nl);
    }
  }

  /** The step of `SplitLinesOfJoin`: the first line, then the lines of
      the rest. */
  lemma SplitLinesOfJoinStep<T>(ls: seq<seq<T>>, sep: seq<T>, nl: Newlines<T>)
    requires ValidNewlines(nl) && IsLineEnding(sep, nl)
    requires forall k :: 0 <= k < |ls| ==> NoBreak(ls[k], nl.isBreak)
    requires |ls| > 1 && ls[|ls| - 1] != []
    requires SplitLines(Join(sep, ls[1..]), nl) == ls[1..]
    ensures SplitLines(Join(sep, ls), nl) == ls
  {
    var s := Join(sep, ls);
    JoinFirstLine(ls, sep, nl);
    SplitLinesUnfold(s, nl, |ls[0]|, |sep|, ls[0], Join(sep, ls[1..]));
    assert ls == [ls[0]] + ls[1..];
  }

  /** A non-empty text without boundaries is a single line. */
  lemma SplitLinesOne<T>(s: seq<T>, nl: Newlines<T>)
    requires s != [] && NoBreak(s, nl.isBreak)
    ensures SplitLines(s, nl) == [s]
  {
    assert s[..|s|] == s;
    BreakAtIs(s, nl.isBreak, |s|);
  }

  /** The first line of a join of several boundary-free lines ends at the
      first separator, which is read as one boundary. */
  lemma JoinFirstLine<T>(ls: seq<seq<T>>, sep: seq<T>, nl: Newlines<T>)
    requires ValidNewlines(nl) && IsLineEnding(sep, nl)
    requires forall k :: 0 <= k < |ls| ==> NoBreak(ls[k], nl.isBreak)
    requires |ls| > 1 && ls[|ls| - 1] != []
    ensures var s := Join(sep, ls); var i := |ls[0]|;
      && BreakAt(s, nl.isBreak) == i < |s|
      && BreakWidth(s, i, nl) == |sep|
      && s[..i] == ls[0]
      && s[i + |sep|..] == Join(sep, ls[1..])
  {
    var rest := ls[1..];
    var tail := Join(sep, rest);
    var s := ls[0] + sep + tail;
    assert Join(sep, ls) == s;
    assert s[..|ls[0]|] == ls[0];
    BreakAtIs(s, nl.isBreak, |ls[0]|);
    if sep != [nl.lf] {
      JoinHead(rest, sep, nl);
    }
    assert s[|ls[0]| + |sep|..] == tail;
  }

  /** The lines joined by a line ending never start with a line feed, so a
      CR separator in front of them is never read as half of a CR LF. */
  lemma JoinHead<T>(ls: seq<seq<T>>, sep: seq<T>, nl: Newlines<T>)
    requires ValidNewlines(nl) && IsLineEnding(sep, nl) && sep != [nl.lf]
    requires forall k :: 0 <= k < |ls| ==> NoBreak(ls[k], nl.isBreak)
    requires ls != [] && ls[|ls| - 1] != []
    ensures Join(sep, ls) != [] && Join(sep, ls)[0] != nl.lf
  {
    if |ls| > 1 {
      assert Join(sep, ls) == ls[0] + sep + Join(sep, ls[1..]);
      if ls[0] != [] {
        assert Join(sep, ls)[0] == ls[0][0];
      }
    }
  }

  /** Boundary-free lines, each followed by the same line ending, split
      back into the same lines: this is how a file whose every line is
      terminated reads, and an empty last line is kept here because its
      ending follows it. */
  lemma {:induction false} SplitLinesOfTerminated<T>(ls: seq<seq<T>>, sep: seq<T>, nl: Newlines<T>)
    requires ValidNewlines(nl) && IsLineEnding(sep, nl)
    requires forall k :: 0 <= k < |ls| ==> NoBreak(ls[k], nl.isBreak)
    requires ls != []
    ensures SplitLines(Join(sep, ls) + sep, nl) == ls
  {
    JoinTerminated(ls, sep);
    if |ls| == 1 {
      SplitLinesAfterFirst(ls[0], sep, [], nl);
    } else {
      var tail := Join(sep, ls[1..]) + sep;
      SplitLinesOfTerminated(ls[1..], sep, nl);
      JoinTerminated(ls[1..], sep);
      if ls[1] != [] {
        assert tail[0] == ls[1][0];
      }
      SplitLinesAfterFirst(ls[0], sep, tail, nl);
      assert ls == [ls[0]] + ls[1..];
    }
  }

  /** A joined list of lines with a final separator is its first line, the
      separator, and the rest terminated the same way. */
  lemma JoinTerminated<T>(ls: seq<seq<T>>, sep: seq<T>)
    requires ls != []
    ensures Join(sep, ls) + sep == ls[0] + sep + (if |ls| == 1 then [] else Join(sep, ls[1..]) + sep)
  {
  }

  /** A boundary-free first line followed by one line ending is the first
      line of the text, provided a lone CR is not followed by a line feed. */
  lemma SplitLinesAfterFirst<T>(first: seq<T>, sep: seq<T>, tail: seq<T>, nl: Newlines<T>)
    requires ValidNewlines(nl) && IsLineEnding(sep, nl) && NoBreak(first, nl.isBreak)
    requires sep == [nl.cr] && tail != [] ==> tail[0] != nl.lf
    ensures SplitLines(first + sep + tail, nl) == [first] + SplitLines(tail, nl)
  {
    var s := first + sep + tail;
    var i := |first|;
    assert s[..i] == first;
    BreakAtIs(s, nl.isBreak, i);
    assert BreakWidth(s, i, nl) == |sep|;
    assert s[i + |sep|..] == tail;
    SplitLinesUnfold(s, nl, i, |sep|, first, tail);
  }

  /** One line ending added after text that does not already end in a
      boundary adds no line: `splitlines()` drops a single trailing line
      ending. */
  lemma {:induction false} SplitLinesTrailingEnding<T>(s: seq<T>, t: seq<T>, nl: Newlines<T>)
    requires ValidNewlines(nl) && IsLineEnding(t, nl)
    requires s != [] && !nl.isBreak(s[|s| - 1])
    ensures SplitLines(s + t, nl) == SplitLines(s, nl)
    decreases |s|
  {
    if BreakAt(s, nl.isBreak) == |s| {
      TrailingEndingLast(s, t, nl);
    } else {
      var rest := TrailingEndingStep(s, t, nl);
      SplitLinesTrailingEnding(rest, t, nl);
    }
  }

  /** The trailing-ending case of a text without boundaries: it is one line
      either way. */
  lemma TrailingEndingLast<T>(s: seq<T>, t: seq<T>, nl: Newlines<T>)
    requires ValidNewlines(nl) && IsLineEnding(t, nl)
    requires s != [] && BreakAt(s, nl.isBreak) == |s|
    ensures SplitLines(s + t, nl) == SplitLines(s, nl) == [s]
  {
    var st := s + t;
    assert s[..|s|] == s && st[..|s|] == s;
    BreakAtIs(st, nl.isBreak, |s|);
    var i := BreakAt(st, nl.isBreak);
    var w := BreakWidth(st, i, nl);
    assert w == |t|;
    assert st[i + w..] == [];
    assert SplitLines(st, nl) == [s] + SplitLines([], nl);
  }

  /** The first line of a text with a boundary is the same with or without
      a trailing line ending; what follows it keeps the ending. */
  lemma TrailingEndingStep<T>(s: seq<T>, t: seq<T>, nl: Newlines<T>) returns (rest: seq<T>)
    requires ValidNewlines(nl) && IsLineEnding(t, nl)
    requires s != [] && !nl.isBreak(s[|s| - 1]) && BreakAt(s, nl.isBreak) < |s|
    ensures |rest| < |s| && rest != [] && !nl.isBreak(rest[|rest| - 1])
    ensures var i0 := BreakAt(s, nl.isBreak);
      && SplitLines(s + t, nl) == [s[..i0]] + SplitLines(rest + t, nl)
      && SplitLines(s, nl) == [s[..i0]] + SplitLines(rest, nl)
  {
    var i0 := BreakAt(s, nl.isBreak);
    var w := BreakWidth(s, i0, nl);
    FirstBreakKept(s, t, nl);
    rest := s[i0 + w..];
    assert rest[|rest| - 1] == s[|s| - 1];
    SplitLinesUnfold(s, nl, i0, w, s[..i0], rest);
    AppendedUnfold(s, t, nl, i0, w);
  }

  /** One step of `SplitLines` on `s + t` whose first boundary lies in `s`. */
  lemma AppendedUnfold<T>(s: seq<T>, t: seq<T>, nl: Newlines<T>, i0: nat, w: nat)
    requires i0 + w <= |s| && i0 == BreakAt(s + t, nl.isBreak) < |s + t|
    requires w == BreakWidth(s + t, i0, nl)
    ensures SplitLines(s + t, nl) == [s[..i0]] + SplitLines(s[i0 + w..] + t, nl)
  {
    AppendSlices(s, t, i0, i0 + w);
    SplitLinesUnfold(s + t, nl, i0, w, s[..i0], s[i0 + w..] + t);
  }

  /** Slicing `s + t` within `s`. */
  lemma AppendSlices<T>(s: seq<T>, t: seq<T>, i: nat, j: nat)
    requires i <= j <= |s|
    ensures (s + t)[..i] == s[..i] && (s + t)[j..] == s[j..] + t
  {
  }

  /** Appending to a text whose last element is not a boundary keeps its
      first boundary and that boundary's width. */
  lemma FirstBreakKept<T>(s: seq<T>, t: seq<T>, nl: Newlines<T>)
    requires ValidNewlines(nl)
    requires s != [] && !nl.isBreak(s[|s| - 1]) && BreakAt(s, nl.isBreak) < |s|
    ensures var i0 := BreakAt(s, nl.isBreak);
      && i0 + BreakWidth(s, i0, nl) < |s|
      && BreakAt(s + t, nl.isBreak) == i0
      && BreakWidth(s + t, i0, nl) == BreakWidth(s, i0, nl)
  {
    var i0 := BreakAt(s, nl.isBreak);
    assert (s + t)[..i0] == s[..i0];
    BreakAtIs(s + t, nl.isBreak, i0);
    assert i0 + 1 < |s|;
    assert nl.isBreak(s[i0 + BreakWidth(s, i0, nl) - 1]);
  }

  /** One step of `SplitLines` on a text whose first boundary is at `i`
      and `w` wide. */
  lemma SplitLinesUnfold<T>(s: seq<T>, nl: Newlines<T>, i: nat, w: nat, first: seq<T>, rest: seq<T>)
    requires i == BreakAt(s, nl.isBreak) < |s| && w == BreakWidth(s, i, nl)
    requires first == s[..i] && rest == s[i + w..]
    ensures SplitLines(s, nl) == [first] + SplitLines(rest, nl)
  {
  }

  /** Replacing the separator of a join by another is the same as joining
      with the other separator, when no part contains the first one. */
  lemma {:induction false} ReplaceJoin<T>(parts: seq<seq<T>>, a: T, b: T)
    requires forall k :: 0 <= k < |parts| ==> a !in parts[k]
    ensures Replace(Join([a], parts), a, b) == Join([b], parts)
  {
    if |parts| == 1 {
      ReplaceAbsent(parts[0], a, b);
    } else if |parts| > 1 {
      ReplaceAbsent(parts[0], a, b);
      ReplaceJoin(parts[1..], a, b);
      ReplaceConcat(parts[0] + [a], Join([a], parts[1..]), a, b);
      ReplaceConcat(parts[0], [a], a, b);
    }
  }

  lemma ReplaceAbsent<T>(s: seq<T>, a: T, b: T)
    requires a !in s
    ensures Replace(s, a, b) == s
  {
  }

  lemma ReplaceConcat<T>(s: seq<T>, t: seq<T>, a: T, b: T)
    ensures Replace(s + t, a, b) == Replace(s, a, b) + Replace(t, a, b)
  {
  }
}
