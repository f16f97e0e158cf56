/** The nested failure of the parser's test suite: a table whose first row
    holds header cells (`th`) and no data cell (`td`). The parse enters the
    table (past `<table>`, offset 13) and its first row (past `<tr>`, offset
    17), and fails there, so the error is "Can't find tag: td" at 17.

    The text is handled as a concatenation of short pieces, each ending in
    `>`: no tag marker contains `>`, so no match can start inside one piece
    and run into the next, and each search reduces to searches of the
    pieces. */
module NestedFailure {
  import opened Wrappers
  import opened Strings
  import opened Parser

  // -------------------------------------------------------------------
  // Matches across pieces
  // -------------------------------------------------------------------

  /** No match of `pat` starts inside `x`, whatever follows it. */
  ghost predicate NoStartIn(x: string, pat: string) {
    forall y: string, p: nat :: p < |x| ==> !MatchesAt(x + y, pat, p, true)
  }

  /** `pat` holds no `>`. */
  predicate NoGt(pat: string) {
    forall t :: 0 <= t < |pat| ==> pat[t] != '>'
  }

  /** Only `>` matches `>` under ASCII case folding. */
  lemma GtOnly(c: char, d: char)
    requires d == '>' || c == '>'
    ensures Same(c, d, true) ==> c == d
  {
  }

  /** A marker starting with `<` cannot start inside text free of `<`. */
  lemma NoLtNoMatch(x: string, y: string, pat: string)
    requires |pat| > 0 && pat[0] == '<'
    requires forall k :: 0 <= k < |x| ==> x[k] != '<'
    ensures forall p :: 0 <= p < |x| ==> !MatchesAt(x + y, pat, p, true)
  {
    forall p | 0 <= p < |x| ensures !MatchesAt(x + y, pat, p, true) {
      MatchesAtMeans(x + y, pat, p, true);
      assert (x + y)[p + 0] == x[p];
      assert !Same((x + y)[p + 0], pat[0], true);
    }
  }

  /** A marker without `>` that does not occur in a piece ending in `>`
      cannot start inside that piece, whatever follows it. */
  lemma ClosedNoMatch(x: string, y: string, pat: string)
    requires |pat| > 0 && NoGt(pat)
    requires |x| > 0 && x[|x| - 1] == '>' && Find(x, pat, 0, true).None?
    ensures forall p :: 0 <= p < |x| ==> !MatchesAt(x + y, pat, p, true)
  {
    forall p | 0 <= p < |x| ensures !MatchesAt(x + y, pat, p, true) {
      if p + |pat| <= |x| {
        assert (x + y)[..|x|] == x;
        MatchesAtPrefix(x + y, pat, |x|, p, true);
      } else {
        MatchesAtMeans(x + y, pat, p, true);
        var t := |x| - 1 - p;
        assert (x + y)[p + t] == '>' && pat[t] != '>';
        GtOnly((x + y)[p + t], pat[t]);
      }
    }
  }

  /** The same, for every continuation at once. */
  lemma ClosedNoStart(x: string, pat: string)
    requires |pat| > 0 && NoGt(pat)
    requires |x| > 0 && x[|x| - 1] == '>' && Find(x, pat, 0, true).None?
    ensures NoStartIn(x, pat)
  {
    forall y: string ensures forall p: nat :: p < |x| ==> !MatchesAt(x + y, pat, p, true) {
      ClosedNoMatch(x, y, pat);
    }
  }

  /** Text free of `<` holds no start of a marker. */
  lemma PlainNoStart(x: string, pat: string)
    requires |pat| > 0 && pat[0] == '<'
    requires forall k :: 0 <= k < |x| ==> x[k] != '<'
    ensures NoStartIn(x, pat)
  {
    forall y: string ensures forall p: nat :: p < |x| ==> !MatchesAt(x + y, pat, p, true) {
      NoLtNoMatch(x, y, pat);
    }
  }

  /** Two stretches in which no match starts join into one. */
  lemma JoinNoStart(x: string, z: string, pat: string)
    requires NoStartIn(x, pat) && NoStartIn(z, pat)
    ensures NoStartIn(x + z, pat)
  {
    forall y: string, p: nat | p < |x + z| ensures !MatchesAt(x + z + y, pat, p, true) {
      var s := x + z + y;
      assert s == x + (z + y);
      if p >= |x| {
        assert s[|x|..] == z + y;
        MatchesAtSuffix(s, pat, |x|, p - |x|, true);
        assert !MatchesAt(z + y, pat, p - |x|, true);
      }
    }
  }

  /** A stretch where no match starts holds no match when nothing follows. */
  lemma NoStartNotContained(x: string, pat: string)
    requires NoStartIn(x, pat) && |pat| > 0
    ensures !Contains(x, pat, true)
  {
    assert x + "" == x;
    forall p | 0 <= p <= |x| ensures !MatchesAt(x, pat, p, true) {
      if p < |x| {
        assert !MatchesAt(x + "", pat, p, true);
      }
    }
  }

  // -------------------------------------------------------------------
  // Locating a tag laid out piece by piece
  // -------------------------------------------------------------------

  /** `pat` occurs at `i` when the text there spells it out. */
  lemma SpelledOut(s: string, pat: string, i: nat)
    requires i + |pat| <= |s| && s[i..i + |pat|] == pat
    ensures MatchesAt(s, pat, i, true)
  {
    MatchesAtMeans(s, pat, i, true);
    forall t | 0 <= t < |pat| ensures Same(s[i + t], pat[t], true) {
      assert s[i..i + |pat|][t] == s[i + t];
    }
  }

  /** `<name>` right after `pre`, in which no opening marker starts. */
  lemma OpeningLaidOut(pre: string, name: string, rest: string)
    requires NoGt(name) && NoStartIn(pre, OpenMarker(name))
    ensures var text := pre + ((OpenMarker(name) + ">") + rest);
            && MatchesAt(text, OpenMarker(name), |pre|, true)
            && (forall p: nat :: p < |pre| ==> !MatchesAt(text, OpenMarker(name), p, true))
            && FirstGtFrom(text, |pre|, |pre| + |name| + 1)
  {
    hide Locate, Find;
    var open := OpenMarker(name) + ">";
    var text := pre + (open + rest);
    forall q | 0 <= q < |open| ensures text[|pre| + q] == open[q] {
      assert text[|pre| + q] == (open + rest)[q];
    }
    assert text[|pre|..|pre| + |OpenMarker(name)|] == OpenMarker(name);
    SpelledOut(text, OpenMarker(name), |pre|);
    forall k | |pre| <= k < |pre| + |name| + 1 ensures text[k] != '>' {
      assert text[k] == open[k - |pre|];
    }
  }

  /** `</name>` right after `inner`, in which no closing marker starts. */
  lemma ClosingLaidOut(text: string, a: nat, inner: string, name: string, post: string)
    requires NoGt(name) && NoStartIn(inner, CloseMarker(name))
    requires a <= |text| && text[a..] == inner + ((CloseMarker(name) + ">") + post)
    ensures var b := a + |inner|;
            && MatchesAt(text, CloseMarker(name), b, true)
            && (forall p: nat :: a <= p < b ==> !MatchesAt(text, CloseMarker(name), p, true))
            && FirstGtFrom(text, b, b + |name| + 2)
            && text[a..b] == inner
  {
    hide Locate, Find;
    var close := CloseMarker(name) + ">";
    var b := a + |inner|;
    forall q | 0 <= q < |close| ensures text[b + q] == close[q] {
      assert text[b + q] == text[a..][|inner| + q];
    }
    assert text[b..b + |CloseMarker(name)|] == CloseMarker(name);
    SpelledOut(text, CloseMarker(name), b);
    forall p: nat | a <= p < b ensures !MatchesAt(text, CloseMarker(name), p, true) {
      assert !MatchesAt(inner + (close + post), CloseMarker(name), p - a, true);
      MatchesAtSuffix(text, CloseMarker(name), a, p - a, true);
    }
    forall k | b <= k < b + |name| + 2 ensures text[k] != '>' {
      assert text[k] == close[k - b];
    }
    forall q | 0 <= q < |inner| ensures text[a..b][q] == inner[q] {
      assert text[a..b][q] == text[a..][q];
    }
  }

  /** A tag laid out as `pre`, `<name>`, `inner`, `</name>`, `post`, with no
      opening marker starting in `pre` and no closing marker starting in
      `inner`, is located at the obvious marks. */
  lemma LocateLayout(pre: string, name: string, inner: string, post: string)
    requires NoGt(name)
    requires NoStartIn(pre, OpenMarker(name))
    requires NoStartIn(inner, CloseMarker(name))
    ensures var text := pre + (OpenMarker(name) + ">") + inner + (CloseMarker(name) + ">") + post;
            var a := |pre| + |name| + 2;
            var b := a + |inner|;
            && Locate(text, name) == Some(Marks(|pre|, a, b, b + |name| + 3))
            && text[a..b] == inner
  {
    hide Locate, Find, NoStartIn, MatchesAt;
    var open, close := OpenMarker(name) + ">", CloseMarker(name) + ">";
    var text := pre + open + inner + close + post;
    var a := |pre| + |name| + 2;
    assert text == pre + (open + (inner + close + post));
    OpeningLaidOut(pre, name, inner + close + post);
    assert text[a..] == inner + (close + post);
    ClosingLaidOut(text, a, inner, name, post);
    LocatedUnique(text, name, Marks(|pre|, a, a + |inner|, a + |inner| + |name| + 3));
  }

  // -------------------------------------------------------------------
  // The test's text, piece by piece
  // -------------------------------------------------------------------

  /** The first row's interior: three header cells. */
  const Headers: string := "<th>" + "one</th>" + "<th>" + "two</th>" + "<th>" + "three</th>"

  /** The second row, with one data cell. */
  const SecondRow: string := "<tr>" + "<td>" + "four</td>" + "</tr>"

  /** The table's interior. */
  const TableBody: string := "<tr>" + Headers + "</tr>" + SecondRow

  /** The whole text. */
  const Sample: string := "leader" + "<table>" + TableBody + "</table>" + "trailer"

  lemma HeadersNoStart(pat: string)
    requires NoStartIn("<th>", pat) && NoStartIn("one</th>", pat)
    requires NoStartIn("two</th>", pat) && NoStartIn("three</th>", pat)
    ensures NoStartIn(Headers, pat)
  {
    hide Find, MatchesAt, NoStartIn;
    JoinNoStart("<th>", "one</th>", pat);
    JoinNoStart("<th>" + "one</th>", "<th>", pat);
    JoinNoStart("<th>" + "one</th>" + "<th>", "two</th>", pat);
    JoinNoStart("<th>" + "one</th>" + "<th>" + "two</th>", "<th>", pat);
    JoinNoStart("<th>" + "one</th>" + "<th>" + "two</th>" + "<th>", "three</th>", pat);
  }

  lemma SecondRowNoStart(pat: string)
    requires NoStartIn("<tr>", pat) && NoStartIn("<td>", pat)
    requires NoStartIn("four</td>", pat) && NoStartIn("</tr>", pat)
    ensures NoStartIn(SecondRow, pat)
  {
    hide Find, MatchesAt, NoStartIn;
    JoinNoStart("<tr>", "<td>", pat);
    JoinNoStart("<tr>" + "<td>", "four</td>", pat);
    JoinNoStart("<tr>" + "<td>" + "four</td>", "</tr>", pat);
  }

  /** No `</table` starts inside the table's interior. */
  lemma BodyHasNoTableClose()
    ensures NoStartIn(TableBody, CloseMarker("table"))
  {
    var pat := CloseMarker("table");
    assert pat == "</table" && NoGt(pat);
    ClosedNoStart("<th>", pat);
    ClosedNoStart("one</th>", pat);
    ClosedNoStart("two</th>", pat);
    ClosedNoStart("three</th>", pat);
    ClosedNoStart("<tr>", pat);
    ClosedNoStart("<td>", pat);
    ClosedNoStart("four</td>", pat);
    ClosedNoStart("</tr>", pat);
    hide Find, MatchesAt, NoStartIn;
    HeadersNoStart(pat);
    SecondRowNoStart(pat);
    JoinNoStart("<tr>", Headers, pat);
    JoinNoStart("<tr>" + Headers, "</tr>", pat);
    JoinNoStart("<tr>" + Headers + "</tr>", SecondRow, pat);
  }

  /** No `</tr` starts inside the header cells. */
  lemma HeadersHaveNoRowClose()
    ensures NoStartIn(Headers, CloseMarker("tr"))
  {
    var pat := CloseMarker("tr");
    assert pat == "</tr" && NoGt(pat);
    ClosedNoStart("<th>", pat);
    ClosedNoStart("one</th>", pat);
    ClosedNoStart("two</th>", pat);
    ClosedNoStart("three</th>", pat);
    HeadersNoStart(pat);
  }

  /** No `<td` occurs in the header cells. */
  lemma HeadersHaveNoCell()
    ensures !Contains(Headers, OpenMarker("td"), true)
  {
    var pat := OpenMarker("td");
    assert pat == "<td" && NoGt(pat);
    ClosedNoStart("<th>", pat);
    ClosedNoStart("one</th>", pat);
    ClosedNoStart("two</th>", pat);
    ClosedNoStart("three</th>", pat);
    HeadersNoStart(pat);
    NoStartNotContained(Headers, pat);
  }

  /** The table's interior is one row tag, then the second row. */
  lemma BodyLaidOut()
    ensures TableBody == "" + (OpenMarker("tr") + ">") + Headers + (CloseMarker("tr") + ">") + SecondRow
    ensures |Headers| == 38
  {
    assert OpenMarker("tr") + ">" == "<tr>" && CloseMarker("tr") + ">" == "</tr>";
    hide Headers, SecondRow;
    assert "" + "<tr>" == "<tr>";
  }

  /** The whole text is one table tag between a leader and a trailer. */
  lemma SampleLaidOut()
    ensures Sample == "leader" + (OpenMarker("table") + ">") + TableBody + (CloseMarker("table") + ">") + "trailer"
    ensures |TableBody| == 69
  {
    assert OpenMarker("table") + ">" == "<table>" && CloseMarker("table") + ">" == "</table>";
    BodyLaidOut();
  }

  // -------------------------------------------------------------------
  // The failure, level by level
  // -------------------------------------------------------------------

  /** Inside the first row no `td` is found: the error is at the row's
      interior, whose offset is given. */
  lemma CellMissing(offset: int)
    ensures ParseContent(Headers, DefaultTags, 1, offset) == Err(ParseError(Missing("td"), offset))
  {
    HeadersHaveNoCell();
    assert DefaultTags[2] == "td";
    MissingOpenTagFails(Headers, DefaultTags, 2, offset);
  }

  /** The table's interior, parsed for rows at offset 13, fails in its first
      row, four characters in. */
  lemma RowFails()
    ensures ParseContent(TableBody, DefaultTags, 0, 13) == Err(ParseError(Missing("td"), 17))
  {
    assert NoGt("tr") && DefaultTags[1] == "tr";
    assert NoStartIn("", OpenMarker("tr"));
    HeadersHaveNoRowClose();
    LocateLayout("", "tr", Headers, SecondRow);
    BodyLaidOut();
    var m := Marks(0, 4, 42, 47);
    hide Locate, Find, MatchesAt, NoStartIn, Headers, SecondRow, TableBody;
    CellMissing(17);
    UnfoldLocated(TableBody, DefaultTags, 1, 13, m);
  }

  /** The whole text fails inside the table, thirteen characters in. */
  lemma TableFails()
    ensures ParseLevel(Sample, DefaultTags, 0, 0) == Err(ParseError(Missing("td"), 17))
  {
    assert NoGt("table") && DefaultTags[0] == "table";
    PlainNoStart("leader", OpenMarker("table"));
    BodyHasNoTableClose();
    LocateLayout("leader", "table", TableBody, "trailer");
    SampleLaidOut();
    var m := Marks(6, 13, 82, 90);
    hide Locate, Find, MatchesAt, NoStartIn, Headers, SecondRow, TableBody, Sample;
    RowFails();
    UnfoldLocated(Sample, DefaultTags, 0, 0, m);
  }

  // -------------------------------------------------------------------
  // The pieces as one literal
  // -------------------------------------------------------------------

  /** Regrouping concatenations to the left. */
  lemma Regroup4(p: string, a: string, b: string, c: string, d: string)
    ensures p + (a + b + c + d) == p + a + b + c + d
  {
  }

  lemma Regroup6(p: string, a: string, b: string, c: string, d: string, e: string, f: string)
    ensures p + (a + b + c + d + e + f) == p + a + b + c + d + e + f
  {
  }

  /** The text up to the end of the first row, one piece at a time. */
  lemma FirstRowText()
    ensures "leader" + "<table>" + "<tr>" + "<th>" + "one</th>" + "<th>" + "two</th>" + "<th>" + "three</th>" + "</tr>"
            == "leader<table><tr><th>one</th><th>two</th><th>three</th></tr>"
  {
    assert "leader" + "<table>" == "leader<table>";
    assert "leader<table>" + "<tr>" == "leader<table><tr>";
    assert "leader<table><tr>" + "<th>" == "leader<table><tr><th>";
    assert "leader<table><tr><th>" + "one</th>" == "leader<table><tr><th>one</th>";
    assert "leader<table><tr><th>one</th>" + "<th>" == "leader<table><tr><th>one</th><th>";
    assert "leader<table><tr><th>one</th><th>" + "two</th>" == "leader<table><tr><th>one</th><th>two</th>";
    assert "leader<table><tr><th>one</th><th>two</th>" + "<th>" == "leader<table><tr><th>one</th><th>two</th><th>";
    assert "leader<table><tr><th>one</th><th>two</th><th>" + "three</th>" == "leader<table><tr><th>one</th><th>two</th><th>three</th>";
    assert "leader<table><tr><th>one</th><th>two</th><th>three</th>" + "</tr>" == "leader<table><tr><th>one</th><th>two</th><th>three</th></tr>";
  }

  /** The rest of the text, one piece at a time. */
  lemma RestText()
    ensures "leader<table><tr><th>one</th><th>two</th><th>three</th></tr>" + "<tr>" + "<td>" + "four</td>" + "</tr>" + "</table>" + "trailer"
            == "leader<table><tr><th>one</th><th>two</th><th>three</th></tr><tr><td>four</td></tr></table>trailer"
  {
    assert "leader<table><tr><th>one</th><th>two</th><th>three</th></tr>" + "<tr>" == "leader<table><tr><th>one</th><th>two</th><th>three</th></tr><tr>";
    assert "leader<table><tr><th>one</th><th>two</th><th>three</th></tr><tr>" + "<td>" == "leader<table><tr><th>one</th><th>two</th><th>three</th></tr><tr><td>";
    assert "leader<table><tr><th>one</th><th>two</th><th>three</th></tr><tr><td>" + "four</td>" == "leader<table><tr><th>one</th><th>two</th><th>three</th></tr><tr><td>four</td>";
    assert "leader<table><tr><th>one</th><th>two</th><th>three</th></tr><tr><td>four</td>" + "</tr>" == "leader<table><tr><th>one</th><th>two</th><th>three</th></tr><tr><td>four</td></tr>";
    assert "leader<table><tr><th>one</th><th>two</th><th>three</th></tr><tr><td>four</td></tr>" + "</table>" == "leader<table><tr><th>one</th><th>two</th><th>three</th></tr><tr><td>four</td></tr></table>";
    assert "leader<table><tr><th>one</th><th>two</th><th>three</th></tr><tr><td>four</td></tr></table>" + "trailer" == "leader<table><tr><th>one</th><th>two</th><th>three</th></tr><tr><td>four</td></tr></table>trailer";
  }

  /** The pieces spell out the test's text. */
  lemma SampleIsText()
    ensures Sample == "leader<table><tr><th>one</th><th>two</th><th>three</th></tr><tr><td>four</td></tr></table>trailer"
  {
    var pre := "leader" + "<table>";
    Regroup4(pre, "<tr>", Headers, "</tr>", SecondRow);
    Regroup6(pre + "<tr>", "<th>", "one</th>", "<th>", "two</th>", "<th>", "three</th>");
    var upTo := pre + "<tr>" + "<th>" + "one</th>" + "<th>" + "two</th>" + "<th>" + "three</th>" + "</tr>";
    Regroup4(upTo, "<tr>", "<td>", "four</td>", "</tr>");
    FirstRowText();
    RestText();
  }

  /** A table whose first row holds header cells only fails with "Can't find
      tag: td" at 17, the start of that row's interior. */
  lemma HeaderRowFailsAt17()
    ensures Create("leader<table><tr><th>one</th><th>two</th><th>three</th></tr><tr><td>four</td></tr></table>trailer", [])
            == Err(ParseError(Missing("td"), 17))
  {
    SampleIsText();
    hide Locate, Find, Sample;
    TableFails();
  }
}
