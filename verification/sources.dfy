/**
 `read_urls_from_file`: every line of the sources file is stripped of
 surrounding whitespace, and the stripped lines that are non-empty and do not
 start with `#` are returned, in file order, duplicates included.
 */
module Sources {

  /** The characters Python's `str.isspace` accepts, which `str.strip()`
      removes from both ends. */
  predicate IsSpace(c: char) {
    || ('\t' <= c <= '\r')            // tab, line feed, vertical tab, form feed, carriage return
    || ('\U{1C}' <= c <= ' ')         // file, group, record and unit separators, space
    || c == '\U{85}' || c == '\U{A0}' || c == '\U{1680}'
    || ('\U{2000}' <= c <= '\U{200A}')
    || c == '\U{2028}' || c == '\U{2029}' || c == '\U{202F}' || c == '\U{205F}' || c == '\U{3000}'
  }

  /** The same whitespace set, one code point at a time, as Python's
      Unicode tables list it: 29 characters in all. */
  const PythonWhitespace: set<char> := {
    '\t', '\n', '\U{0B}', '\U{0C}', '\r',
    '\U{1C}', '\U{1D}', '\U{1E}', '\U{1F}', ' ',
    '\U{85}', '\U{A0}', '\U{1680}',
    '\U{2000}', '\U{2001}', '\U{2002}', '\U{2003}', '\U{2004}', '\U{2005}',
    '\U{2006}', '\U{2007}', '\U{2008}', '\U{2009}', '\U{200A}',
    '\U{2028}', '\U{2029}', '\U{202F}', '\U{205F}', '\U{3000}'
  }

  /** The range form used by `IsSpace` accepts exactly the listed set. */
  lemma IsSpaceExactly(c: char)
    ensures IsSpace(c) <==> c in PythonWhitespace
  {
  }

  /** `s[a..b]` is `s` with all surrounding whitespace removed: only
      whitespace lies outside it, and it neither starts nor ends with
      whitespace. */
  ghost predicate StripBounds(s: string, a: int, b: int) {
    && 0 <= a <= b <= |s|
    && (forall i :: 0 <= i < a ==> IsSpace(s[i]))
    && (forall i :: b <= i < |s| ==> IsSpace(s[i]))
    && (a < b ==> !IsSpace(s[a]) && !IsSpace(s[b - 1]))
  }

  /** `u` neither starts nor ends with whitespace. */
  predicate IsStripped(u: string) {
    u == [] || (!IsSpace(u[0]) && !IsSpace(u[|u| - 1]))
  }

  /** `r` is `s` with all surrounding whitespace removed. */
  ghost predicate IsStripOf(r: string, s: string) {
    exists a, b :: StripBounds(s, a, b) && r == s[a..b]
  }

  /** `s` without its leading whitespace. */
  function TrimStart(s: string): (r: string)
    ensures |r| <= |s|
    ensures r == [] || !IsSpace(r[0])
  {
    if |s| > 0 && IsSpace(s[0]) then TrimStart(s[1..]) else s
  }

  /** `s` without its trailing whitespace. */
  function TrimEnd(s: string): (r: string)
    ensures |r| <= |s|
    ensures r == [] || !IsSpace(r[|r| - 1])
    ensures r != [] ==> r[0] == s[0]
  {
    if |s| > 0 && IsSpace(s[|s| - 1]) then TrimEnd(s[..|s| - 1]) else s
  }

  /** Python's `str.strip()` with no argument: whitespace removed from the
      front, then from the back. */
  function Strip(s: string): (r: string)
    ensures IsStripped(r)
    ensures |r| <= |s|
  {
    TrimEnd(TrimStart(s))
  }

  /** TrimStart removes exactly the leading whitespace. */
  lemma {:induction false} TrimStartBounds(s: string) returns (a: nat)
    ensures a <= |s| && TrimStart(s) == s[a..]
    ensures forall i :: 0 <= i < a ==> IsSpace(s[i])
    decreases |s|
  {
    if |s| > 0 && IsSpace(s[0]) {
      var a' := TrimStartBounds(s[1..]);
      a := a' + 1;
      assert s[1..][a'..] == s[a..];
    } else {
      a := 0;
    }
  }

  /** TrimEnd removes exactly the trailing whitespace. */
  lemma {:induction false} TrimEndBounds(s: string) returns (b: nat)
    ensures b <= |s| && TrimEnd(s) == s[..b]
    ensures forall i :: b <= i < |s| ==> IsSpace(s[i])
    decreases |s|
  {
    if |s| > 0 && IsSpace(s[|s| - 1]) {
      b := TrimEndBounds(s[..|s| - 1]);
      assert s[..|s| - 1][..b] == s[..b];
    } else {
      b := |s|;
    }
  }

  /** Strip removes exactly the surrounding whitespace. */
  lemma StripIsStripOf(s: string)
    ensures IsStripOf(Strip(s), s)
  {
    var a := TrimStartBounds(s);
    var t := s[a..];
    var b := TrimEndBounds(t);
    var r := Strip(s);
    assert r == t[..b];
    assert r == s[a..a + b];
    forall i | a + b <= i < |s| ensures IsSpace(s[i]) {
      assert s[i] == t[i - a];
    }
    if 0 < b {
      assert s[a] == r[0] && s[a + b - 1] == r[b - 1];
    }
    assert StripBounds(s, a, a + b);
  }

  /** Only one slice of `s` can be its strip, up to the empty one. */
  lemma StripBoundsUnique(s: string, a1: int, b1: int, a2: int, b2: int)
    requires StripBounds(s, a1, b1) && StripBounds(s, a2, b2)
    ensures s[a1..b1] == s[a2..b2]
  {
    if a1 < b1 {
      assert !IsSpace(s[a1]);
      assert a2 <= a1 < b2;
      assert !IsSpace(s[a2]) && !IsSpace(s[b2 - 1]);
      assert a1 == a2 && b1 == b2;
    } else {
      assert forall i :: 0 <= i < |s| ==> IsSpace(s[i]);
      assert a2 == b2;
    }
  }

  /** At most one string is the strip of `s`. */
  lemma StripUnique(r1: string, r2: string, s: string)
    requires IsStripOf(r1, s) && IsStripOf(r2, s)
    ensures r1 == r2
  {
    var a1, b1 :| StripBounds(s, a1, b1) && r1 == s[a1..b1];
    var a2, b2 :| StripBounds(s, a2, b2) && r2 == s[a2..b2];
    StripBoundsUnique(s, a1, b1, a2, b2);
  }

  /** Stripping a string without surrounding whitespace changes nothing. */
  lemma StripOfStripped(u: string)
    requires IsStripped(u)
    ensures Strip(u) == u
  {
    assert StripBounds(u, 0, |u|);
    assert u == u[0..|u|];
    StripIsStripOf(u);
    StripUnique(Strip(u), u, u);
  }

  /** Stripping a stripped string changes nothing. */
  lemma StripIdempotent(s: string)
    ensures Strip(Strip(s)) == Strip(s)
  {
    StripOfStripped(Strip(s));
  }

  /** A stripped line that names a source: non-empty and not a `#` comment. */
  predicate IsSourceLine(t: string) {
    |t| > 0 && t[0] != '#'
  }

  /** What one line of the file contributes: its stripped form, when that
      names a source. */
  function LineSources(line: string): (r: seq<string>)
    ensures r == [] || r == [Strip(line)]
    ensures r != [] <==> IsSourceLine(Strip(line))
  {
    var t := Strip(line);
    if IsSourceLine(t) then [t] else []
  }

  /** The sources listed by the lines of a sources file, in file order. */
  function ReadUrls(lines: seq<string>): (urls: seq<string>)
    ensures |urls| <= |lines|
  {
    if |lines| == 0 then [] else LineSources(lines[0]) + ReadUrls(lines[1..])
  }

  /** Every returned source is non-empty, not a comment and has no
      surrounding whitespace. */
  lemma {:induction false} ReadUrlsClean(lines: seq<string>)
    ensures forall i :: 0 <= i < |ReadUrls(lines)| ==>
      IsSourceLine(ReadUrls(lines)[i]) && Strip(ReadUrls(lines)[i]) == ReadUrls(lines)[i]
    decreases |lines|
  {
    if |lines| > 0 {
      ReadUrlsClean(lines[1..]);
      StripIdempotent(lines[0]);
    }
  }

  /** Reading two blocks of lines is reading each and concatenating: no
      sorting and no deduplication across lines. */
  lemma {:induction false} ReadUrlsAppend(a: seq<string>, b: seq<string>)
    ensures ReadUrls(a + b) == ReadUrls(a) + ReadUrls(b)
    decreases |a|
  {
    if |a| == 0 {
      assert a + b == b;
    } else {
      assert (a + b)[0] == a[0] && (a + b)[1..] == a[1..] + b;
      ReadUrlsAppend(a[1..], b);
    }
  }

  /** A source is returned exactly when some line strips to it. */
  lemma {:induction false} ReadUrlsMembership(lines: seq<string>, u: string)
    ensures u in ReadUrls(lines) <==>
      exists i :: 0 <= i < |lines| && Strip(lines[i]) == u && IsSourceLine(u)
    decreases |lines|
  {
    if |lines| > 0 {
      ReadUrlsMembership(lines[1..], u);
      if exists i :: 0 <= i < |lines| && Strip(lines[i]) == u && IsSourceLine(u) {
        var i :| 0 <= i < |lines| && Strip(lines[i]) == u && IsSourceLine(u);
        if i > 0 {
          assert lines[1..][i - 1] == lines[i];
        }
      }
      if exists i :: 0 <= i < |lines[1..]| && Strip(lines[1..][i]) == u && IsSourceLine(u) {
        var i :| 0 <= i < |lines[1..]| && Strip(lines[1..][i]) == u && IsSourceLine(u);
        assert lines[i + 1] == lines[1..][i];
      }
    }
  }

  /** A line stands for itself wherever it is in the file. */
  lemma ReadUrlsAround(before: seq<string>, line: string, after: seq<string>)
    ensures ReadUrls(before + [line] + after) == ReadUrls(before) + ReadUrls([line]) + ReadUrls(after)
  {
    ReadUrlsAppend(before + [line], after);
    ReadUrlsAppend(before, [line]);
  }

  lemma ReadUrlsSingle(line: string)
    ensures ReadUrls([line]) == if IsSourceLine(Strip(line)) then [Strip(line)] else []
  {
    assert [line][1..] == [];
  }

  /** `line` holds nothing but whitespace. */
  ghost predicate IsBlankLine(line: string) {
    forall j :: 0 <= j < |line| ==> IsSpace(line[j])
  }

  /** `line[k]` is the first character of `line` that is not whitespace. */
  ghost predicate FirstNonBlankAt(line: string, k: int) {
    0 <= k < |line| && !IsSpace(line[k]) && forall j :: 0 <= j < k ==> IsSpace(line[j])
  }

  /** The first non-blank character of `line` is `#`. */
  ghost predicate IsCommentLine(line: string) {
    exists k :: FirstNonBlankAt(line, k) && line[k] == '#'
  }

  /** The first non-blank character of `line` is there and is not `#`. */
  ghost predicate StartsWithSource(line: string) {
    exists k :: FirstNonBlankAt(line, k) && line[k] != '#'
  }

  /** The strip of a blank line, or of one whose first non-blank character is
      `#`, is not a source line. */
  lemma CommentOrBlankStrip(line: string)
    requires IsBlankLine(line) || IsCommentLine(line)
    ensures !IsSourceLine(Strip(line))
  {
    var t := Strip(line);
    StripIsStripOf(line);
    var a, b :| StripBounds(line, a, b) && t == line[a..b];
    if IsCommentLine(line) {
      var k :| FirstNonBlankAt(line, k) && line[k] == '#';
      assert a < b ==> a == k;
    }
    assert t != [] ==> line[a] == t[0];
  }

  /** The strip of a line whose first non-blank character is not `#` is a
      source line. */
  lemma NonCommentStrip(line: string)
    requires StartsWithSource(line)
    ensures IsSourceLine(Strip(line))
  {
    var t := Strip(line);
    var k :| FirstNonBlankAt(line, k) && line[k] != '#';
    StripIsStripOf(line);
    var a, b :| StripBounds(line, a, b) && t == line[a..b];
    assert a <= k < b;
    assert line[a] == t[0];
  }

  /** A line that is blank, or whose first non-blank character is `#`, yields
      no source, wherever it stands in the file. */
  lemma CommentOrBlankLineDropped(before: seq<string>, line: string, after: seq<string>)
    requires IsBlankLine(line) || IsCommentLine(line)
    ensures ReadUrls(before + [line] + after) == ReadUrls(before) + ReadUrls(after)
  {
    CommentOrBlankStrip(line);
    ReadUrlsSingle(line);
    ReadUrlsAround(before, line, after);
    assert ReadUrls(before) + [] == ReadUrls(before);
  }

  /** A line whose first non-blank character is not `#` yields its stripped
      form, wherever it stands in the file. */
  lemma SourceLineKept(before: seq<string>, line: string, after: seq<string>)
    requires StartsWithSource(line)
    ensures ReadUrls(before + [line] + after) == ReadUrls(before) + [Strip(line)] + ReadUrls(after)
  {
    NonCommentStrip(line);
    ReadUrlsSingle(line);
    ReadUrlsAround(before, line, after);
  }

  /** Lines that are already stripped source lines come back unchanged, in the
      same order and with every repetition. */
  lemma {:induction false} ReadUrlsOfCleanLines(lines: seq<string>)
    requires forall i :: 0 <= i < |lines| ==> IsSourceLine(lines[i]) && Strip(lines[i]) == lines[i]
    ensures ReadUrls(lines) == lines
    decreases |lines|
  {
    if |lines| > 0 {
      ReadUrlsOfCleanLines(lines[1..]);
    }
  }

  /** Reading the output of a read again changes nothing. */
  lemma ReadUrlsIdempotent(lines: seq<string>)
    ensures ReadUrls(ReadUrls(lines)) == ReadUrls(lines)
  {
    ReadUrlsClean(lines);
    ReadUrlsOfCleanLines(ReadUrls(lines));
  }
}
