/**
  The four Python `str` operations that the SVG inlining step relies on:
  `lstrip()` with no argument, `startswith`, `splitlines()` without
  `keepends`, and `sep.join(parts)`. Characters are Unicode scalar values,
  as in a Python `str`.
 */
module PyStrings {

  /** `c.isspace()`: the characters Python treats as whitespace. */
  predicate IsSpace(c: char) {
    || c == ' '
    || ('\t' <= c <= '\r')
    || ('\U{1c}' <= c <= '\U{1f}')
    || c == '\U{85}'
    || c == '\U{a0}'
    || c == '\U{1680}'
    || ('\U{2000}' <= c <= '\U{200a}')
    || c == '\U{2028}'
    || c == '\U{2029}'
    || c == '\U{202f}'
    || c == '\U{205f}'
    || c == '\U{3000}'
  }

  /**
    The characters at which `splitlines()` ends a line: line feed, vertical
    tab, form feed, carriage return (alone or followed by a line feed), the
    file, group and record separators, next-line and the Unicode line and
    paragraph separators.
   */
  predicate IsLineBreak(c: char) {
    || ('\n' <= c <= '\r')
    || ('\U{1c}' <= c <= '\U{1e}')
    || c == '\U{85}'
    || c == '\U{2028}'
    || c == '\U{2029}'
  }

  predicate NoLineBreak(s: string) {
    forall k :: 0 <= k < |s| ==> !IsLineBreak(s[k])
  }

  predicate AllSpace(s: string) {
    forall k :: 0 <= k < |s| ==> IsSpace(s[k])
  }

  /** `s.lstrip()`: the longest suffix of `s` that does not start with whitespace. */
  function LStrip(s: string): (r: string)
    ensures |r| <= |s| && r == s[|s| - |r|..]
    ensures AllSpace(s[..|s| - |r|])
    ensures r == [] || !IsSpace(r[0])
  {
    if s != [] && IsSpace(s[0]) then LStrip(s[1..]) else s
  }

  /** `s.startswith(prefix)`, compared character by character. */
  function StartsWith(s: string, prefix: string): (b: bool)
    ensures b <==> |prefix| <= |s| && s[..|prefix|] == prefix
  {
    if prefix == [] then true
    else if s == [] || s[0] != prefix[0] then false
    else
      var b := StartsWith(s[1..], prefix[1..]);
      assert |prefix| <= |s| ==> s[..|prefix|] == [s[0]] + s[1..][..|prefix| - 1];
      assert prefix == [prefix[0]] + prefix[1..];
      b
  }

  /** Index of the first line break in `s`, or `|s|` if it has none. */
  function LineEnd(s: string): (i: nat)
    ensures i <= |s|
    ensures NoLineBreak(s[..i])
    ensures i < |s| ==> IsLineBreak(s[i])
  {
    if s == [] || IsLineBreak(s[0]) then 0
    else
      var i := 1 + LineEnd(s[1..]);
      assert s[..i] == [s[0]] + s[1..][..i - 1];
      i
  }

  /** Number of characters of the line boundary at `s[i]`: "\r\n" is one boundary. */
  function BreakLength(s: string, i: nat): (n: nat)
    requires i < |s|
    ensures 1 <= n <= |s| - i
  {
    if s[i] == '\r' && i + 1 < |s| && s[i + 1] == '\n' then 2 else 1
  }

  /** What follows the first line boundary of `s`, or "" when there is none. */
  function AfterFirstLine(s: string): (r: string)
    ensures |r| < |s| || s == []
  {
    var i := LineEnd(s);
    if i == |s| then [] else s[i + BreakLength(s, i)..]
  }

  /**
    `s.splitlines()`: the lines of `s` without their boundaries. A final
    boundary does not open an empty last line, and "" has no lines.
   */
  function SplitLines(s: string): (lines: seq<string>)
    ensures forall k :: 0 <= k < |lines| ==> NoLineBreak(lines[k])
    ensures |lines| <= |s|
    ensures lines == [] <==> s == []
    decreases |s|
  {
    if s == [] then []
    else
      var i := LineEnd(s);
      if i == |s| then [s]
      else [s[..i]] + SplitLines(AfterFirstLine(s))
  }

  /** `sep.join(parts)`: it opens with the first part and closes with the last. */
  function Join(sep: string, parts: seq<string>): (r: string)
    ensures parts == [] ==> r == []
    ensures parts != [] ==> |parts[0]| <= |r| && r[..|parts[0]|] == parts[0]
    ensures parts != [] ==> var last := parts[|parts| - 1];
              |last| <= |r| && r[|r| - |last|..] == last
  {
    if parts == [] then []
    else if |parts| == 1 then parts[0]
    else
      var rest := Join(sep, parts[1..]);
      var r := parts[0] + sep + rest;
      assert r[..|parts[0]|] == parts[0];
      assert parts[|parts| - 1] == parts[1..][|parts[1..]| - 1];
      assert r[|sep| + |parts[0]|..] == rest;
      r
  }

  /**
    Reference definition for what joining the lines with "\n" writes: every
    line boundary of `s` replaced by one "\n" ("\r\n" included), all other
    characters kept.
   */
  function NewlinesNormalized(s: string): (r: string)
    ensures forall k :: 0 <= k < |r| && IsLineBreak(r[k]) ==> r[k] == '\n'
  {
    if s == [] then []
    else if s[0] == '\r' && |s| > 1 && s[1] == '\n' then "\n" + NewlinesNormalized(s[2..])
    else if IsLineBreak(s[0]) then "\n" + NewlinesNormalized(s[1..])
    else [s[0]] + NewlinesNormalized(s[1..])
  }

  /** `s` without one final "\n", if it has one. */
  function DropFinalNewline(s: string): (r: string)
    ensures s == r || s == r + "\n"
  {
    if s != [] && s[|s| - 1] == '\n' then s[..|s| - 1] else s
  }

  lemma NoLineBreakTail(p: string)
    requires p != [] && NoLineBreak(p)
    ensures NoLineBreak(p[1..])
  {
    forall k | 0 <= k < |p| - 1 ensures !IsLineBreak(p[1..][k]) {
      assert p[1..][k] == p[k + 1];
    }
  }

  /** A prefix without boundary moves the first boundary along by its length. */
  lemma {:induction false} LineEndBreakFreePrefix(p: string, t: string)
    requires NoLineBreak(p)
    ensures LineEnd(p + t) == |p| + LineEnd(t)
  {
    if p != [] {
      assert (p + t)[0] == p[0] && !IsLineBreak(p[0]);
      assert (p + t)[1..] == p[1..] + t;
      NoLineBreakTail(p);
      LineEndBreakFreePrefix(p[1..], t);
    } else {
      assert p + t == t;
    }
  }

  /** A prefix without boundary leaves what follows the first boundary alone. */
  lemma AfterBreakFreePrefix(p: string, t: string)
    requires NoLineBreak(p)
    ensures AfterFirstLine(p + t) == AfterFirstLine(t)
  {
    LineEndBreakFreePrefix(p, t);
    var i := LineEnd(t);
    if i < |t| {
      assert (p + t)[|p| + i] == t[i];
      assert BreakLength(p + t, |p| + i) == BreakLength(t, i);
      assert (p + t)[|p| + i + BreakLength(t, i)..] == t[i + BreakLength(t, i)..];
    }
  }

  /** Normalizing leaves a prefix without boundary as it is. */
  lemma {:induction false} NormalizedBreakFreePrefix(p: string, t: string)
    requires NoLineBreak(p)
    ensures NewlinesNormalized(p + t) == p + NewlinesNormalized(t)
  {
    if p != [] {
      assert (p + t)[0] == p[0] && !IsLineBreak(p[0]);
      assert (p + t)[1..] == p[1..] + t;
      NoLineBreakTail(p);
      NormalizedBreakFreePrefix(p[1..], t);
      assert NewlinesNormalized(p + t) == [p[0]] + NewlinesNormalized(p[1..] + t);
      assert [p[0]] + (p[1..] + NewlinesNormalized(t)) == p + NewlinesNormalized(t);
    } else {
      assert p + t == t;
    }
  }

  /** A prefix without boundary survives normalizing and dropping the final "\n". */
  lemma KeepsBreakFreePrefix(s: string, p: string)
    requires NoLineBreak(p) && StartsWith(s, p)
    ensures StartsWith(DropFinalNewline(NewlinesNormalized(s)), p)
  {
    var t := s[|p|..];
    assert s == p + t;
    NormalizedBreakFreePrefix(p, t);
    var n := NewlinesNormalized(s);
    assert n[..|p|] == p;
    if t == [] {
      assert n == p;
      assert p != [] ==> !IsLineBreak(p[|p| - 1]);
    }
  }

  /** Stripping a whitespace prefix in front of a non-space character. */
  lemma {:induction false} LStripSpacePrefix(ws: string, s: string)
    requires AllSpace(ws)
    requires s == [] || !IsSpace(s[0])
    ensures LStrip(ws + s) == s
  {
    if ws != [] {
      assert (ws + s)[1..] == ws[1..] + s;
      LStripSpacePrefix(ws[1..], s);
    }
  }

  /** A blank line with its "\n" is all whitespace. */
  lemma BlankLineIsSpace(blank: string)
    requires AllSpace(blank)
    ensures AllSpace(blank + "\n")
  {
    forall k | 0 <= k < |blank| + 1 ensures IsSpace((blank + "\n")[k]) {
      if k < |blank| {
        assert (blank + "\n")[k] == blank[k];
      }
    }
  }

  /** Text after a non-blank text is kept by `lstrip()`. */
  lemma {:induction false} LStripKeepsSuffix(s: string, t: string)
    requires LStrip(s) != []
    ensures LStrip(s + t) == LStrip(s) + t
  {
    assert (s + t)[0] == s[0];
    if IsSpace(s[0]) {
      assert (s + t)[1..] == s[1..] + t;
      LStripKeepsSuffix(s[1..], t);
    }
  }

  /** A prefix stays a prefix when text is appended. */
  lemma StartsWithExtend(s: string, t: string, p: string)
    requires StartsWith(s, p)
    ensures StartsWith(s + t, p)
  {
    assert (s + t)[..|p|] == s[..|p|];
  }

  lemma ConcatAssoc(a: string, b: string, c: string, d: string)
    ensures a + b + c + d == a + (b + (c + d))
  {
  }

  /** The three terminators Python text files use. */
  predicate IsTerminator(nl: string) {
    nl == "\n" || nl == "\r\n" || nl == "\r"
  }

  /** A terminator in front of `rest` is one boundary of its own length. */
  lemma TerminatorStart(nl: string, rest: string)
    requires IsTerminator(nl)
    requires nl == "\r" ==> rest == [] || rest[0] != '\n'
    ensures IsLineBreak((nl + rest)[0])
    ensures BreakLength(nl + rest, 0) == |nl|
    ensures (nl + rest)[|nl|..] == rest
  {
    if nl == "\r\n" {
      assert (nl + rest)[0] == '\r' && (nl + rest)[1] == '\n';
    } else {
      assert |nl| == 1;
    }
  }

  /** Where the first line of `first + t` ends, and what follows it, when `t` starts with a boundary `n` characters long. */
  lemma FirstLineAtBreak(first: string, t: string, n: nat)
    requires NoLineBreak(first) && t != [] && IsLineBreak(t[0])
    requires n == BreakLength(t, 0)
    ensures LineEnd(first + t) == |first|
    ensures AfterFirstLine(first + t) == t[n..]
    ensures NewlinesNormalized(t) == "\n" + NewlinesNormalized(t[n..])
  {
    LineEndBreakFreePrefix(first, t);
    AfterBreakFreePrefix(first, t);
    NormalizedAtBreak(t);
  }

  /** A line without boundary and its terminator: normalized and without the final "\n", only the line is left. */
  lemma LineThenTerminator(line: string, nl: string)
    requires NoLineBreak(line) && IsTerminator(nl)
    ensures nl == "\r" ==> (line + nl)[0] != '\n'
    ensures DropFinalNewline(NewlinesNormalized(line + nl)) == line
  {
    TerminatorStart(nl, []);
    assert nl + [] == nl;
    NormalizedAtBreak(nl);
    NormalizedBreakFreePrefix(line, nl);
    assert NewlinesNormalized(line + nl) == line + "\n";
    assert (line + "\n")[..|line|] == line;
    if line != [] {
      assert (line + nl)[0] == line[0];
    }
  }

  /** A line without boundary followed by "\n" and more text splits off as the first line. */
  lemma SplitLinesCons(line: string, rest: string)
    requires NoLineBreak(line)
    ensures SplitLines(line + "\n" + rest) == [line] + SplitLines(rest)
  {
    var s, t := line + "\n" + rest, "\n" + rest;
    assert s == line + t;
    TerminatorStart("\n", rest);
    FirstLineAtBreak(line, t, 1);
    assert s[..|line|] == line;
  }

  /** A text without boundary is one line (or none, when empty). */
  lemma SplitLinesSingle(line: string)
    requires NoLineBreak(line)
    ensures SplitLines(line) == if line == [] then [] else [line]
  {
  }

  lemma JoinCons(sep: string, part: string, parts: seq<string>)
    requires parts != []
    ensures Join(sep, [part] + parts) == part + sep + Join(sep, parts)
  {
    assert ([part] + parts)[1..] == parts;
  }

  /** A list of lines without its last line when that line is empty. */
  function WithoutEmptyLast(lines: seq<string>): seq<string> {
    if lines != [] && lines[|lines| - 1] == [] then lines[..|lines| - 1] else lines
  }

  lemma WithoutEmptyLastCons(first: string, rest: seq<string>)
    requires rest != []
    ensures WithoutEmptyLast([first] + rest) == [first] + WithoutEmptyLast(rest)
  {
    var lines := [first] + rest;
    assert lines[|lines| - 1] == rest[|rest| - 1];
    if rest[|rest| - 1] == [] {
      assert lines[..|lines| - 1] == [first] + rest[..|rest| - 1];
    }
  }

  /**
    Round trip one way: splitting lines joined by "\n" gives the lines back,
    except that a last empty line is lost (its "\n" reads as a final boundary).
   */
  lemma {:induction false} SplitLinesOfJoin(lines: seq<string>)
    requires forall k :: 0 <= k < |lines| ==> NoLineBreak(lines[k])
    ensures SplitLines(Join("\n", lines)) == WithoutEmptyLast(lines)
  {
    if |lines| == 1 {
      SplitLinesSingle(lines[0]);
    } else if |lines| > 1 {
      var first, rest := lines[0], lines[1..];
      assert forall k :: 0 <= k < |rest| ==> rest[k] == lines[k + 1];
      SplitLinesOfJoin(rest);
      assert lines == [first] + rest;
      SplitLinesOfJoinStep(first, rest);
    }
  }

  /** The inductive step: one more line in front. */
  lemma SplitLinesOfJoinStep(first: string, rest: seq<string>)
    requires NoLineBreak(first) && rest != []
    requires SplitLines(Join("\n", rest)) == WithoutEmptyLast(rest)
    ensures SplitLines(Join("\n", [first] + rest)) == WithoutEmptyLast([first] + rest)
  {
    JoinCons("\n", first, rest);
    SplitLinesCons(first, Join("\n", rest));
    WithoutEmptyLastCons(first, rest);
  }

  /** The lines after a first line that ends at a boundary are the lines of what follows it. */
  lemma SplitLinesTail(s: string)
    requires s != []
    ensures SplitLines(s)[1..] == SplitLines(AfterFirstLine(s))
  {
  }

  lemma NormalizedAtBreak(s: string)
    requires s != [] && IsLineBreak(s[0])
    ensures NewlinesNormalized(s) == "\n" + NewlinesNormalized(s[BreakLength(s, 0)..])
  {
  }

  /** Normalizing a line without boundary followed by a boundary. */
  lemma {:induction false} NormalizedAtLineEnd(s: string)
    requires LineEnd(s) < |s|
    ensures NewlinesNormalized(s) == s[..LineEnd(s)] + "\n" + NewlinesNormalized(AfterFirstLine(s))
    decreases |s|, 1
  {
    if IsLineBreak(s[0]) {
      NormalizedAtBreak(s);
    } else {
      NormalizedAfterChar(s);
    }
  }

  lemma {:induction false} NormalizedAfterChar(s: string)
    requires LineEnd(s) < |s| && !IsLineBreak(s[0])
    ensures NewlinesNormalized(s) == s[..LineEnd(s)] + "\n" + NewlinesNormalized(AfterFirstLine(s))
    decreases |s|, 0
  {
    var c, t := [s[0]], s[1..];
    assert s == c + t;
    LineEndBreakFreePrefix(c, t);
    AfterBreakFreePrefix(c, t);
    NormalizedBreakFreePrefix(c, t);
    NormalizedAtLineEnd(t);
    var i, x := LineEnd(t), NewlinesNormalized(AfterFirstLine(t));
    assert s[..1 + i] == c + t[..i];
    assert c + (t[..i] + "\n" + x) == (c + t[..i]) + "\n" + x;
  }

  lemma {:induction false} NormalizedNoBreak(s: string)
    requires NoLineBreak(s)
    ensures NewlinesNormalized(s) == s
  {
    if s != [] {
      assert NoLineBreak(s[1..]) by {
        forall k | 0 <= k < |s| - 1 ensures !IsLineBreak(s[1..][k]) {
          assert s[1..][k] == s[k + 1];
        }
      }
      NormalizedNoBreak(s[1..]);
    }
  }

  lemma NormalizedNonEmpty(s: string)
    requires s != []
    ensures NewlinesNormalized(s) != []
  {
  }

  /**
    Round trip the other way: joining the lines of `s` with "\n" writes `s`
    with every line boundary as "\n" and without a final boundary.
   */
  lemma {:induction false} JoinOfSplitLines(s: string)
    ensures Join("\n", SplitLines(s)) == DropFinalNewline(NewlinesNormalized(s))
    decreases |s|, 1
  {
    if s == [] {
    } else if LineEnd(s) == |s| {
      assert s[..|s|] == s;
      NormalizedNoBreak(s);
    } else if AfterFirstLine(s) == [] {
      JoinOfLastLine(s);
    } else {
      JoinOfFirstLine(s);
    }
  }

  /** The case of a text whose only boundary is its last one. */
  lemma JoinOfLastLine(s: string)
    requires LineEnd(s) < |s| && AfterFirstLine(s) == []
    ensures Join("\n", SplitLines(s)) == DropFinalNewline(NewlinesNormalized(s))
  {
    var i := LineEnd(s);
    NormalizedAtLineEnd(s);
    assert SplitLines(s) == [s[..i]];
    assert NewlinesNormalized(s) == s[..i] + "\n";
    assert (s[..i] + "\n")[..i] == s[..i];
  }

  /** The case of a text with more lines after its first boundary. */
  lemma {:induction false} JoinOfFirstLine(s: string)
    requires LineEnd(s) < |s| && AfterFirstLine(s) != []
    ensures Join("\n", SplitLines(s)) == DropFinalNewline(NewlinesNormalized(s))
    decreases |s|, 0
  {
    var i := LineEnd(s);
    var rest := AfterFirstLine(s);
    NormalizedAtLineEnd(s);
    JoinOfSplitLines(rest);
    JoinCons("\n", s[..i], SplitLines(rest));
    NormalizedNonEmpty(rest);
    DropFinalNewlineAfter(s[..i] + "\n", NewlinesNormalized(rest));
  }

  lemma DropFinalNewlineAfter(a: string, n: string)
    requires n != []
    ensures DropFinalNewline(a + n) == a + DropFinalNewline(n)
  {
    if n[|n| - 1] == '\n' {
      assert (a + n)[..|a + n| - 1] == a + n[..|n| - 1];
    }
  }
}
