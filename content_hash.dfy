/** The digest `codelists` records for a downloaded file: line endings are
    normalised first, so that a checkout that rewrote LF as CR LF (or the
    other way round) does not look like an edited file. SHA-1 itself is
    not modelled: it is the parameter `sha1`, applied to the normalised
    bytes. */
module ContentHash {

  import opened Text

  newtype byte = b: int | 0 <= b < 256

  type Bytes = seq<byte>

  /** A hex digest as `hexdigest()` returns it. */
  type Digest = string

  const CR: byte := 13
  const LF: byte := 10

  /** `bytes.splitlines()` ends lines at LF, CR and CR LF only. */
  predicate IsByteBreak(b: byte) {
    b == CR || b == LF
  }

  const ByteNewlines: Newlines<byte> := Newlines(IsByteBreak, CR, LF)

  /** `b"\n".join(content.splitlines())`: every line ending becomes a
      single LF and a final line ending disappears, so no CR is left. */
  function Normalise(content: Bytes): (r: Bytes)
    ensures CR !in r
    ensures |r| <= |content|
  {
    var lines := SplitLines(content, ByteNewlines);
    JoinedLength(lines, content);
    JoinWithoutCR(lines);
    Join([LF], lines)
  }

  lemma {:induction false} JoinWithoutCR(lines: seq<Bytes>)
    requires forall k :: 0 <= k < |lines| ==> NoBreak(lines[k], IsByteBreak)
    ensures CR !in Join([LF], lines)
  {
    if |lines| > 1 {
      JoinWithoutCR(lines[1..]);
      assert CR !in lines[0] by {
        assert forall j :: 0 <= j < |lines[0]| ==> lines[0][j] != CR;
      }
    } else if |lines| == 1 {
      assert forall j :: 0 <= j < |lines[0]| ==> lines[0][j] != CR;
    }
  }

  /** `splitlines()` removes at least one byte per line boundary, so the
      LF-joined lines are never longer than the input. */
  lemma {:induction false} JoinedLength(lines: seq<Bytes>, content: Bytes)
    requires lines == SplitLines(content, ByteNewlines)
    ensures |Join([LF], lines)| <= |content|
    decreases |content|
  {
    if content != [] {
      var i := BreakAt(content, IsByteBreak);
      if i < |content| {
        var rest := content[i + BreakWidth(content, i, ByteNewlines)..];
        JoinedLength(SplitLines(rest, ByteNewlines), rest);
        var tail := SplitLines(rest, ByteNewlines);
        if tail != [] {
          assert ([content[..i]] + tail)[1..] == tail;
        }
      }
    }
  }

  /** `hash_bytes`: the digest of the normalised content. Content that is
      already in normal form (LF line endings only, none at the end) has
      its plain SHA-1 digest. */
  function HashBytes(sha1: Bytes -> Digest, content: Bytes): (d: Digest)
    ensures CR !in content && (content == [] || content[|content| - 1] != LF) ==> d == sha1(content)
  {
    NormalFormFixed(content);
    sha1(Normalise(content))
  }

  /** Content with no CR and no final LF is its own normal form. */
  lemma NormalFormFixed(content: Bytes)
    ensures CR !in content && (content == [] || content[|content| - 1] != LF) ==> Normalise(content) == content
  {
    if CR !in content && content != [] && content[|content| - 1] != LF {
      var parts := Split(content, LF);
      JoinAbsent([LF], parts, CR);
      forall k | 0 <= k < |parts| ensures NoBreak(parts[k], IsByteBreak) {
        assert LF !in parts[k] && CR !in parts[k];
      }
      LastPartNonEmpty(content, parts);
      SplitLinesOfJoin(parts, [LF], ByteNewlines);
    }
  }

  /** Content that does not end with LF does not end with an empty part. */
  lemma LastPartNonEmpty(content: Bytes, parts: seq<Bytes>)
    requires content != [] && content[|content| - 1] != LF
    requires parts != [] && Join([LF], parts) == content
    ensures parts[|parts| - 1] != []
  {
    var n := |parts| - 1;
    if n > 0 {
      assert parts == parts[..n] + [parts[n]];
      JoinSnoc([LF], parts[..n], parts[n]);
    }
  }

  /** Lines written with LF, CR LF or CR endings normalise to the same
      LF-separated bytes, as long as the last line is not empty. */
  lemma NormaliseLineEndings(lines: seq<Bytes>, sep: Bytes)
    requires IsLineEnding(sep, ByteNewlines)
    requires forall k :: 0 <= k < |lines| ==> NoBreak(lines[k], IsByteBreak)
    requires lines == [] || lines[|lines| - 1] != []
    ensures Normalise(Join(sep, lines)) == Join([LF], lines)
  {
    SplitLinesOfJoin(lines, sep, ByteNewlines);
  }

  /** A file whose every line ends with the same line ending, LF, CR LF
      or CR, normalises to its lines joined by LF: the final ending goes,
      and trailing empty lines other than the last are kept. */
  lemma NormaliseTerminated(lines: seq<Bytes>, sep: Bytes)
    requires IsLineEnding(sep, ByteNewlines)
    requires forall k :: 0 <= k < |lines| ==> NoBreak(lines[k], IsByteBreak)
    requires lines != []
    ensures Normalise(Join(sep, lines) + sep) == Join([LF], lines)
  {
    SplitLinesOfTerminated(lines, sep, ByteNewlines);
  }

  /** Lines joined by any one line ending normalise to the same lines
      joined by LF, an empty last line aside: it only marks a final line
      ending, which normalising drops. */
  lemma NormaliseJoin(lines: seq<Bytes>, sep: Bytes)
    requires IsLineEnding(sep, ByteNewlines)
    requires forall k :: 0 <= k < |lines| ==> NoBreak(lines[k], IsByteBreak)
    ensures Normalise(Join(sep, lines)) ==
      Join([LF], if lines != [] && lines[|lines| - 1] == [] then lines[..|lines| - 1] else lines)
  {
    if lines == [] || lines[|lines| - 1] != [] {
      NormaliseLineEndings(lines, sep);
    } else if |lines| == 1 {
      assert Join(sep, lines) == [];
      assert Normalise([]) == [];
    } else {
      var init := lines[..|lines| - 1];
      assert lines == init + [[]];
      JoinSnoc(sep, init, []);
      assert Join(sep, lines) == Join(sep, init) + sep;
      NormaliseTerminated(init, sep);
    }
  }

  /** Hence the digest does not depend on which line ending a file uses,
      whether or not its last line is terminated. */
  lemma HashIgnoresLineEndings(sha1: Bytes -> Digest, lines: seq<Bytes>, sepA: Bytes, sepB: Bytes)
    requires IsLineEnding(sepA, ByteNewlines) && IsLineEnding(sepB, ByteNewlines)
    requires forall k :: 0 <= k < |lines| ==> NoBreak(lines[k], IsByteBreak)
    ensures HashBytes(sha1, Join(sepA, lines)) == HashBytes(sha1, Join(sepB, lines))
  {
    NormaliseJoin(lines, sepA);
    NormaliseJoin(lines, sepB);
  }

  /** A single line ending at the end of the content is dropped. */
  lemma NormaliseDropsFinalLineEnding(content: Bytes, ending: Bytes)
    requires IsLineEnding(ending, ByteNewlines)
    requires content == [] || !IsByteBreak(content[|content| - 1])
    ensures Normalise(content + ending) == Normalise(content)
  {
    if content == [] {
      assert content + ending == ending;
      assert SplitLines(ending, ByteNewlines) == [[]];
    } else {
      SplitLinesTrailingEnding(content, ending, ByteNewlines);
    }
  }

  /** The digest depends on the normalised bytes only. */
  lemma HashOfNormalised(sha1: Bytes -> Digest, a: Bytes, b: Bytes)
    requires Normalise(a) == Normalise(b)
    ensures HashBytes(sha1, a) == HashBytes(sha1, b)
  {
  }

  /** `"a\nb"`, `"a\r\nb"` and `"a\rb"` all have the digest of `"a\nb"`,
      and so do `"a\r\nb\r\n"` and `"a\rb\r"`, which end in a line
      ending; `"a\r\n\r\n"` keeps one empty line. */
  lemma SeparatorExample(sha1: Bytes -> Digest)
    ensures HashBytes(sha1, [97, 13, 10, 98]) == sha1([97, 10, 98])
    ensures HashBytes(sha1, [97, 13, 98]) == sha1([97, 10, 98])
    ensures HashBytes(sha1, [97, 10, 98]) == sha1([97, 10, 98])
    ensures HashBytes(sha1, [97, 13, 10, 98, 13, 10]) == sha1([97, 10, 98])
    ensures HashBytes(sha1, [97, 13, 98, 13]) == sha1([97, 10, 98])
    ensures HashBytes(sha1, [97, 13, 10, 13, 10]) == sha1([97, 10])
  {
    var lines: seq<Bytes> := [[97], [98]];
    assert Join([CR, LF], lines) == [97, 13, 10, 98];
    assert Join([CR], lines) == [97, 13, 98];
    assert Join([LF], lines) == [97, 10, 98];
    NormaliseLineEndings(lines, [CR, LF]);
    NormaliseLineEndings(lines, [CR]);
    NormaliseLineEndings(lines, [LF]);
    assert Join([CR, LF], lines) + [CR, LF] == [97, 13, 10, 98, 13, 10];
    assert Join([CR], lines) + [CR] == [97, 13, 98, 13];
    NormaliseTerminated(lines, [CR, LF]);
    NormaliseTerminated(lines, [CR]);
    var blank: seq<Bytes> := [[97], []];
    assert Join([CR, LF], blank) + [CR, LF] == [97, 13, 10, 13, 10];
    assert Join([LF], blank) == [97, 10];
    NormaliseTerminated(blank, [CR, LF]);
  }
}
