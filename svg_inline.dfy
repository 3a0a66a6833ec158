/**
  Preparing the demo SVG for inlining into the image viewer's HTML: when
  the text, read past its leading whitespace, opens with an XML
  declaration, its first line is dropped and the remaining lines are
  joined again with "\n".
 */
module SvgInline {
  import opened PyStrings

  const XmlDeclarationStart: string := "<?xml"

  lemma DeclarationStartIsPlain()
    ensures NoLineBreak(XmlDeclarationStart)
    ensures !IsSpace(XmlDeclarationStart[0])
  {
    forall k | 0 <= k < |XmlDeclarationStart| ensures !IsLineBreak(XmlDeclarationStart[k]) {
      assert XmlDeclarationStart[k] in "<?xml";
    }
  }

  /** A text whose first characters are the declaration's passes the test as it stands. */
  lemma DeclarationFirst(decl: string, t: string)
    requires StartsWith(decl, XmlDeclarationStart)
    ensures LStrip(decl + t) == decl + t
    ensures HasXmlDeclaration(decl + t)
  {
    DeclarationStartIsPlain();
    assert decl[..5] == XmlDeclarationStart;
    assert (decl + t)[0] == decl[0] == XmlDeclarationStart[0];
    assert (decl + t)[..5] == decl[..5];
  }

  /** Whitespace in front of such a text is what the test looks past. */
  lemma PaddedDeclaration(ws: string, decl: string, t: string)
    requires AllSpace(ws) && StartsWith(decl, XmlDeclarationStart)
    ensures LStrip(ws + (decl + t)) == decl + t
    ensures HasXmlDeclaration(ws + (decl + t))
  {
    DeclarationFirst(decl, t);
    LStripSpacePrefix(ws, decl + t);
  }

  /** The same, for a text given whole. */
  lemma PaddedText(text: string, ws: string, decl: string)
    requires AllSpace(ws) && StartsWith(decl, XmlDeclarationStart)
    requires text == ws + decl
    ensures HasXmlDeclaration(text)
  {
    DeclarationFirst(decl, []);
    assert decl + [] == decl;
    LStripSpacePrefix(ws, decl);
  }

  /** The test: without its leading whitespace, the text starts with "<?xml". */
  predicate HasXmlDeclaration(text: string) {
    StartsWith(LStrip(text), XmlDeclarationStart)
  }

  /** Python's `lines[1:]`, which is empty for an empty list. */
  function AfterFirst(lines: seq<string>): seq<string> {
    if lines == [] then [] else lines[1..]
  }

  /**
    The strip as the viewer applies it: `"\n".join(text.splitlines()[1:])`
    when the test passes, the text itself otherwise. Stated without the
    list of lines: what follows the first line boundary, with every
    boundary written as "\n" and no final "\n".
   */
  function StripXmlDeclaration(text: string): (r: string)
    ensures !HasXmlDeclaration(text) ==> r == text
    ensures HasXmlDeclaration(text) ==> r == DropFinalNewline(NewlinesNormalized(AfterFirstLine(text)))
  {
    if HasXmlDeclaration(text) then
      SplitLinesTail(text);
      JoinOfSplitLines(AfterFirstLine(text));
      Join("\n", AfterFirst(SplitLines(text)))
    else
      text
  }

  /** After stripping, "\n" is the only line boundary left in the text. */
  lemma StripLeavesOnlyNewlines(text: string)
    requires HasXmlDeclaration(text)
    ensures var r := StripXmlDeclaration(text);
            forall k :: 0 <= k < |r| && IsLineBreak(r[k]) ==> r[k] == '\n'
  {
    var n := NewlinesNormalized(AfterFirstLine(text));
    var r := StripXmlDeclaration(text);
    assert r == DropFinalNewline(n);
    forall k | 0 <= k < |r| && IsLineBreak(r[k]) ensures r[k] == '\n' {
      assert r[k] == n[k];
    }
  }

  /**
    The lines of the stripped text are the input's lines after the first,
    in their order; only an empty last line does not survive.
   */
  lemma StripKeepsLaterLines(text: string)
    requires HasXmlDeclaration(text)
    ensures SplitLines(StripXmlDeclaration(text)) == WithoutEmptyLast(SplitLines(text)[1..])
  {
    var lines := SplitLines(text);
    assert forall k :: 0 <= k < |lines[1..]| ==> lines[1..][k] == lines[k + 1];
    SplitLinesOfJoin(lines[1..]);
  }

  /** Stripping never adds a line, and removes at least one when the test passes. */
  lemma StripNeverAddsLines(text: string)
    ensures |SplitLines(StripXmlDeclaration(text))| <= |SplitLines(text)|
    ensures HasXmlDeclaration(text) ==> |SplitLines(StripXmlDeclaration(text))| < |SplitLines(text)|
  {
    if HasXmlDeclaration(text) {
      StripKeepsLaterLines(text);
    }
  }

  /**
    A one-line text that passes the test (with or without a final "\n")
    strips to "": that holds for a bare declaration, and equally for a
    one-line SVG such as `<?xml version="1.0"?><svg/>`, whose whole image is
    dropped with the declaration.
   */
  lemma DeclarationAloneStripsToEmpty(line: string)
    requires NoLineBreak(line) && HasXmlDeclaration(line)
    ensures StripXmlDeclaration(line) == []
    ensures StripXmlDeclaration(line + "\n") == []
  {
    LineEndBreakFreePrefix(line, []);
    assert line + [] == line;
    assert AfterFirstLine(line) == [];
    var stripped := LStrip(line);
    assert |XmlDeclarationStart| == 5;
    LStripKeepsSuffix(line, "\n");
    StartsWithExtend(stripped, "\n", XmlDeclarationStart);
    assert HasXmlDeclaration(line + "\n");
    AfterBreakFreePrefix(line, "\n");
    assert AfterFirstLine("\n") == [];
  }

  /**
    The test looks past leading whitespace, the removal does not: after a
    blank first line, only the blank line goes and the text still starts
    with the declaration.
   */
  lemma LeadingBlankLineKeepsDeclaration(blank: string, rest: string)
    requires AllSpace(blank) && NoLineBreak(blank)
    requires StartsWith(rest, XmlDeclarationStart)
    ensures HasXmlDeclaration(blank + "\n" + rest)
    ensures StripXmlDeclaration(blank + "\n" + rest) == DropFinalNewline(NewlinesNormalized(rest))
    ensures StartsWith(StripXmlDeclaration(blank + "\n" + rest), XmlDeclarationStart)
  {
    var t := "\n" + rest;
    assert blank + "\n" + rest == blank + t;
    BlankLineThenDeclaration(blank, t, rest);
    DeclarationStartIsPlain();
    KeepsBreakFreePrefix(rest, XmlDeclarationStart);
  }

  lemma BlankLineThenDeclaration(blank: string, t: string, rest: string)
    requires AllSpace(blank) && NoLineBreak(blank)
    requires StartsWith(rest, XmlDeclarationStart)
    requires t == "\n" + rest
    ensures HasXmlDeclaration(blank + t)
    ensures StripXmlDeclaration(blank + t) == DropFinalNewline(NewlinesNormalized(rest))
  {
    var ws := blank + "\n";
    BlankLineIsSpace(blank);
    assert blank + t == ws + rest;
    PaddedText(blank + t, ws, rest);
    TerminatorStart("\n", rest);
    StripAfterBreak(blank + t, blank, t, 1);
  }

  /** A text that passes the test and whose first boundary starts `t` strips to what follows that boundary. */
  lemma StripAfterBreak(text: string, first: string, t: string, n: nat)
    requires HasXmlDeclaration(text) && text == first + t
    requires NoLineBreak(first) && t != [] && IsLineBreak(t[0])
    requires n == BreakLength(t, 0)
    ensures StripXmlDeclaration(text) == DropFinalNewline(NewlinesNormalized(t[n..]))
  {
    FirstLineAtBreak(first, t, n);
  }

  /** A declaration line, one body line and a final terminator of any kind: only the body is left. */
  lemma FinalBoundaryNotKept(decl: string, body: string, nl: string)
    requires NoLineBreak(decl) && StartsWith(decl, XmlDeclarationStart)
    requires NoLineBreak(body) && IsTerminator(nl)
    ensures StripXmlDeclaration(decl + nl + body + nl) == body
  {
    var rest := body + nl;
    LineThenTerminator(body, nl);
    ConcatAssoc(decl, nl, body, nl);
    DeclarationFirst(decl, nl + rest);
    TerminatorStart(nl, rest);
    FirstLineAtBreak(decl, nl + rest, |nl|);
  }

  /**
    The strip as evidently intended: drop the line that holds the
    declaration, i.e. the first line of the text past its leading whitespace.
   */
  function StripXmlDeclarationIntended(text: string): (r: string)
    ensures !HasXmlDeclaration(text) ==> r == text
    ensures HasXmlDeclaration(text) ==> r == DropFinalNewline(NewlinesNormalized(AfterFirstLine(LStrip(text))))
  {
    if HasXmlDeclaration(text) then
      SplitLinesTail(LStrip(text));
      JoinOfSplitLines(AfterFirstLine(LStrip(text)));
      Join("\n", AfterFirst(SplitLines(LStrip(text))))
    else
      text
  }

  /** Whatever whitespace, blank lines included, precedes the declaration line, that line goes. */
  lemma IntendedRemovesDeclarationLine(ws: string, decl: string, rest: string)
    requires AllSpace(ws)
    requires NoLineBreak(decl) && StartsWith(decl, XmlDeclarationStart)
    ensures StripXmlDeclarationIntended(ws + decl) == []
    ensures StripXmlDeclarationIntended(ws + decl + "\n" + rest) == DropFinalNewline(NewlinesNormalized(rest))
  {
    IntendedDeclarationOnly(ws, decl);
    IntendedDeclarationThenRest(ws, decl, "\n" + rest, rest);
    ConcatAssoc(ws, decl, "\n", rest);
  }

  lemma IntendedDeclarationOnly(ws: string, decl: string)
    requires AllSpace(ws)
    requires NoLineBreak(decl) && StartsWith(decl, XmlDeclarationStart)
    ensures StripXmlDeclarationIntended(ws + decl) == []
  {
    PaddedDeclaration(ws, decl, []);
    assert decl + [] == decl;
    LineEndBreakFreePrefix(decl, []);
  }

  lemma IntendedDeclarationThenRest(ws: string, decl: string, t: string, rest: string)
    requires AllSpace(ws)
    requires NoLineBreak(decl) && StartsWith(decl, XmlDeclarationStart)
    requires t == "\n" + rest
    ensures StripXmlDeclarationIntended(ws + (decl + t)) == DropFinalNewline(NewlinesNormalized(rest))
  {
    PaddedDeclaration(ws, decl, t);
    TerminatorStart("\n", rest);
    FirstLineAtBreak(decl, t, 1);
  }

  /** When no line boundary precedes the declaration, the source's strip already does the intended thing. */
  lemma IntendedAgreesWithoutLeadingBreak(text: string)
    requires NoLineBreak(text[..|text| - |LStrip(text)|])
    ensures StripXmlDeclarationIntended(text) == StripXmlDeclaration(text)
  {
    var ws := text[..|text| - |LStrip(text)|];
    assert text == ws + LStrip(text);
    AfterBreakFreePrefix(ws, LStrip(text));
  }
}
