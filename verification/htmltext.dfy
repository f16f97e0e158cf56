/** `htmlToText` and `text` of `PhpFit_Parse`: the text a cell shows. Line
    breaks are normalised, every other tag is dropped, whitespace is
    condensed, and entities and smart-quote placeholders are decoded, in
    that order. */
module HtmlText {
  import opened Strings
  import opened Whitespace
  import opened LineBreaks
  import opened TagStripping
  import opened Encoding
  import opened Unescaping
  import opened ParseTree

  /** Lines 147-155. */
  function HtmlToText(s: string): string {
    Unescape(CondenseWhitespace(Strip(NormalizeLineBreaks(s))))
  }

  /** Lines 138-141: the text of a node's body. A node with parts has no
      body; PHP reads the missing body as the empty string. */
  function Text(n: Node): string {
    HtmlToText(if n.content.Body? then n.content.body else "")
  }

  // -------------------------------------------------------------------
  // Escaped text reads back as itself
  // -------------------------------------------------------------------

  /** Escaping keeps text condensed: tokens hold no whitespace and open
      with `&`. */
  lemma {:induction false} EscapeCondensed(s: string)
    requires Condensed(s)
    ensures Condensed(Escape(s))
    ensures |s| == 0 ==> Escape(s) == ""
    ensures |s| > 0 && !IsSpace(s[0]) ==> |Escape(s)| > 0 && !IsSpace(Escape(s)[0])
    decreases |s|
  {
    if |s| > 0 {
      CondensedTail(s);
      EscapeCondensed(s[1..]);
      var p := Piece(s[0], EntityTable);
      var rest := Escape(s[1..]);
      assert Escape(s) == p + rest;
      PieceCondensed(s[0], rest);
    }
  }

  /** How one escaped character joins the escaped rest. */
  lemma PieceCondensed(c: char, rest: string)
    requires Condensed(rest)
    requires IsSpace(c) ==> c == ' ' && (|rest| == 0 || !IsSpace(rest[0]))
    ensures Condensed(Piece(c, EntityTable) + rest)
    ensures |Piece(c, EntityTable)| > 0
    ensures !IsSpace(c) ==> !IsSpace(Piece(c, EntityTable)[0])
    ensures IsSpace(c) ==> Piece(c, EntityTable)[0] == c
  {
    var p := Piece(c, EntityTable);
    var u := p + rest;
    assert forall k | 0 <= k < |p| :: !IsSpace(p[k]) || (p == [c] && IsSpace(c));
    forall k | 0 <= k < |u| && IsSpace(u[k])
      ensures u[k] == ' ' && (k + 1 == |u| || !IsSpace(u[k + 1]))
    {
      if k >= |p| {
        assert u[k] == rest[k - |p|];
        if k + 1 < |u| {
          assert u[k + 1] == rest[k + 1 - |p|];
        }
      } else {
        assert p == [c] && k == 0;
        if k + 1 < |u| {
          assert u[k + 1] == rest[0];
        }
      }
    }
  }

  /** The ends of an escaped text: a character that is not trimmed, or a
      token's `&` and `;`. */
  lemma EscapeEnds(s: string)
    requires |s| > 0 && !IsTrimmed(s[0]) && !IsTrimmed(s[|s| - 1])
    ensures |Escape(s)| > 0 && !IsTrimmed(Escape(s)[0]) && !IsTrimmed(Escape(s)[|Escape(s)| - 1])
  {
    EscapeFirst(s);
    EscapeLast(s);
  }

  lemma EscapeFirst(s: string)
    requires |s| > 0 && !IsTrimmed(s[0])
    ensures |Escape(s)| > 0 && !IsTrimmed(Escape(s)[0])
  {
    var first := Piece(s[0], EntityTable);
    PieceUntrimmed(s[0]);
    EscapeOne(s[0]);
    EncodeAppend([s[0]], s[1..], EntityTable);
    hide Encode, Piece;
    assert [s[0]] + s[1..] == s;
    var e := Escape(s);
    assert e == first + Escape(s[1..]);
    assert e[0] == first[0];
  }

  lemma EscapeLast(s: string)
    requires |s| > 0 && !IsTrimmed(s[|s| - 1])
    ensures |Escape(s)| > 0 && !IsTrimmed(Escape(s)[|Escape(s)| - 1])
  {
    var n := |s| - 1;
    var last := Piece(s[n], EntityTable);
    PieceUntrimmed(s[n]);
    EscapeOne(s[n]);
    EncodeAppend(s[..n], [s[n]], EntityTable);
    hide Encode, Piece;
    assert s[..n] + [s[n]] == s;
    var e := Escape(s);
    assert e == Escape(s[..n]) + last;
    assert e[|e| - 1] == last[|last| - 1];
  }

  lemma EscapeOne(c: char)
    ensures Escape([c]) == Piece(c, EntityTable)
  {
    assert [c][1..] == "";
    assert Encode([c], EntityTable) == Piece(c, EntityTable) + Encode("", EntityTable);
    assert Piece(c, EntityTable) + "" == Piece(c, EntityTable);
  }

  /** An untrimmed character escapes to untrimmed ends. */
  lemma PieceUntrimmed(c: char)
    requires !IsTrimmed(c)
    ensures var p := Piece(c, EntityTable);
            |p| > 0 && !IsTrimmed(p[0]) && !IsTrimmed(p[|p| - 1])
  {
  }

  /** `&nbsp;` is not the escaped form of anything. */
  lemma EscapedHasNoSpaceEntity(s: string)
    ensures Replace(Escape(s), "&nbsp;", " ") == Escape(s)
  {
    EntityTableWellFormed();
    NbspNoEntity();
    AbsentStage(s, EntityTable, '&', "&nbsp;", " ");
  }

  /** The text of an escaped cell is what was escaped, with smart-quote
      placeholders decoded, provided it was condensed, free of
      non-breaking spaces and had nothing to trim. */
  lemma TextOfEscaped(s: string)
    requires Condensed(s) && Avoids(s, {NonBreakingSpace})
    requires |s| > 0 ==> !IsTrimmed(s[0]) && !IsTrimmed(s[|s| - 1])
    ensures HtmlToText(Escape(s)) == UnescapeSmartQuotes(s)
  {
    var e := Escape(s);
    EscapedHasNoTag(s);
    NormalizeKeepsPlainText(e);
    StripKeepsPlainText(e);
    EscapeCondensed(s);
    EncodeAvoids(s, EntityTable, {NonBreakingSpace});
    EscapedHasNoSpaceEntity(s);
    if |s| > 0 {
      EscapeEnds(s);
    }
    CondenseKeeps(e);
    UnescapeUndoesEscape(s);
  }

  /** Without `<` in it, the escaped text reads back exactly. */
  lemma TextRoundTrip(s: string)
    requires Condensed(s) && Avoids(s, {NonBreakingSpace}) && '<' !in s
    requires |s| > 0 ==> !IsTrimmed(s[0]) && !IsTrimmed(s[|s| - 1])
    ensures HtmlToText(Escape(s)) == s
  {
    TextOfEscaped(s);
    SmartQuotesKeepPlain(s);
  }

  // -------------------------------------------------------------------
  // A break tag reads as a newline
  // -------------------------------------------------------------------

  /** The canonical line break between two escaped texts reads as a
      newline. */
  lemma UnescapeBreakBetween(a: string, b: string)
    requires '<' !in a && '<' !in b
    ensures Unescape(Escape(a) + LineBreak + Escape(b)) == a + "\n" + b
  {
    var e1, e2 := Escape(a), Escape(b);
    EscapedHasNoTag(a);
    EscapedHasNoTag(b);
    NoTagNoBreak(e2, "\n");
    ReplaceAtFront(e2, LineBreak, "\n");
    ReplaceSkipsPrefix(e1, LineBreak + e2, LineBreak, "\n");
    EncodeAppend(a, "\n" + b, EntityTable);
    EncodeAppend("\n", b, EntityTable);
    EscapeOne('\n');
    var s := a + "\n" + b;
    assert s == a + ("\n" + b);
    assert '<' !in s;
    EntitiesUndoEscape(s);
    SmartQuotesKeepPlain(s);
    hide Encode, Replace, UnescapeEntities, UnescapeSmartQuotes;
    assert e1 + LineBreak + e2 == e1 + (LineBreak + e2);
    assert e1 + ("\n" + e2) == Escape(s);
  }

  /** The canonical line break between two escaped texts survives
      condensing. */
  lemma CondenseBreakBetween(a: string, b: string)
    requires Condensed(a) && Condensed(b)
    requires Avoids(a, {NonBreakingSpace}) && Avoids(b, {NonBreakingSpace})
    requires |a| > 0 ==> !IsTrimmed(a[0])
    requires |b| > 0 ==> !IsTrimmed(b[|b| - 1])
    ensures var t := Escape(a) + LineBreak + Escape(b);
            CondenseWhitespace(t) == t
  {
    hide Encode, Replace, CondenseWhitespace;
    var e1, e2 := Escape(a), Escape(b);
    var t := e1 + LineBreak + e2;
    EscapeCondensed(a);
    EscapeCondensed(b);
    EncodeAvoids(a, EntityTable, {NonBreakingSpace});
    EncodeAvoids(b, EntityTable, {NonBreakingSpace});
    if |a| > 0 {
      EscapeFirst(a);
    }
    if |b| > 0 {
      EscapeLast(b);
    }
    NbspAbsentBetween(a, b);
    JoinedCondensed(e1, e2);
    JoinedAvoids(e1, e2);
    JoinedEnds(e1, e2);
    CondenseKeeps(t);
  }

  lemma JoinedCondensed(x: string, y: string)
    requires Condensed(x) && Condensed(y)
    ensures Condensed(x + LineBreak + y)
  {
    LineBreakCondensed();
    CondensedJoin(LineBreak, y);
    CondensedJoin(x, LineBreak + y);
    assert x + LineBreak + y == x + (LineBreak + y);
  }

  lemma JoinedAvoids(x: string, y: string)
    requires Avoids(x, {NonBreakingSpace}) && Avoids(y, {NonBreakingSpace})
    ensures Avoids(x + LineBreak + y, {NonBreakingSpace})
  {
    LineBreakCondensed();
    AvoidsJoin(x, LineBreak, {NonBreakingSpace});
    AvoidsJoin(x + LineBreak, y, {NonBreakingSpace});
  }

  lemma JoinedEnds(x: string, y: string)
    requires |x| > 0 ==> !IsTrimmed(x[0])
    requires |y| > 0 ==> !IsTrimmed(y[|y| - 1])
    ensures var t := x + LineBreak + y;
            !IsTrimmed(t[0]) && !IsTrimmed(t[|t| - 1])
  {
    LineBreakCondensed();
    var t := x + LineBreak + y;
    assert t[0] == if |x| > 0 then x[0] else LineBreak[0];
    assert t[|t| - 1] == if |y| > 0 then y[|y| - 1] else LineBreak[|LineBreak| - 1];
  }

  /** No `&nbsp;` appears around a line break between escaped texts. */
  lemma NbspAbsentBetween(a: string, b: string)
    ensures var t := Escape(a) + LineBreak + Escape(b);
            Replace(t, "&nbsp;", " ") == t
  {
    var e1, e2 := Escape(a), Escape(b);
    EntityTableWellFormed();
    NbspNoEntity();
    AbsentBefore(a, EntityTable, '&', "&nbsp;", " ", LineBreak + e2);
    LineBreakCondensed();
    ReplaceSkipsPrefix(LineBreak, e2, "&nbsp;", " ");
    EscapedHasNoSpaceEntity(b);
    hide Encode, Replace;
    assert e1 + LineBreak + e2 == e1 + (LineBreak + e2);
  }

  lemma LineBreakCondensed()
    ensures Condensed(LineBreak) && Avoids(LineBreak, {NonBreakingSpace, '&'})
    ensures !IsTrimmed(LineBreak[0]) && !IsTrimmed(LineBreak[|LineBreak| - 1])
  {
  }

  /** Any spelling of a break tag between two escaped texts reads as a
      newline in the text: `<br>`, `<br/>`, `< br / >` and the canonical
      `<br />` alike. */
  lemma BreakReadsAsNewline(a: string, t: string, b: string)
    requires IsBreakTag(t)
    requires Condensed(a) && Condensed(b) && '<' !in a && '<' !in b
    requires Avoids(a, {NonBreakingSpace}) && Avoids(b, {NonBreakingSpace})
    requires |a| > 0 ==> !IsTrimmed(a[0])
    requires |b| > 0 ==> !IsTrimmed(b[|b| - 1])
    ensures HtmlToText(Escape(a) + t + Escape(b)) == a + "\n" + b
  {
    var e1, e2 := Escape(a), Escape(b);
    EscapedHasNoTag(a);
    EscapedHasNoTag(b);
    NormalizeBreakBetween(e1, t, e2);
    StripBreakBetween(e1, e2);
    CondenseBreakBetween(a, b);
    UnescapeBreakBetween(a, b);
  }

  /** A paragraph break between two escaped texts also reads as a newline:
      `a</p><p>b` and `a< / p >   <   p  >b` both read `a`, newline, `b`.
      The break's two tags hold no further `<`. */
  lemma ParagraphReadsAsNewline(a: string, t: string, u: string, v: string, b: string)
    requires IsParagraphBreak(t) && t == "<" + u + "<" + v
    requires Avoids(u, {'<'}) && Avoids(v, {'<'})
    requires Condensed(a) && Condensed(b) && '<' !in a && '<' !in b
    requires Avoids(a, {NonBreakingSpace}) && Avoids(b, {NonBreakingSpace})
    requires |a| > 0 ==> !IsTrimmed(a[0])
    requires |b| > 0 ==> !IsTrimmed(b[|b| - 1])
    ensures HtmlToText(Escape(a) + t + Escape(b)) == a + "\n" + b
  {
    var e1, e2 := Escape(a), Escape(b);
    EscapedHasNoTag(a);
    EscapedHasNoTag(b);
    NormalizeParagraphBetween(e1, t, u, v, e2);
    StripBreakBetween(e1, e2);
    CondenseBreakBetween(a, b);
    UnescapeBreakBetween(a, b);
  }

  /** The text of a cell whose body is an escaped text. */
  lemma CellTextRoundTrip(n: Node, s: string)
    requires n.content == Body(Escape(s))
    requires Condensed(s) && Avoids(s, {NonBreakingSpace}) && '<' !in s
    requires |s| > 0 ==> !IsTrimmed(s[0]) && !IsTrimmed(s[|s| - 1])
    ensures Text(n) == s
  {
    TextRoundTrip(s);
  }
}
