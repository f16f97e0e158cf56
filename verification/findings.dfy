/** Lines 49-63 of `PhpFit_Parse::create` exactly as written, for the case
    where a `>` is missing.

    `stripos` returns `false` when it finds nothing, and `false + 1` is `1`,
    so `endTag` and `endEnd` are never `false` and the checks on line 55 for
    them never fire. A text with `<name` and `</name` but no `>` after one of
    them is cut with `substr` at position 1 and with a negative length, and
    the pieces no longer make up the text. `Parser.Locate` reports such a
    text as not found instead, which is what the checks on line 55 were
    evidently written for. */
module MissingBracket {
  import opened Wrappers
  import opened Strings
  import opened ParseTree
  import opened Parser

  /** PHP's `substr($s, $start, $length)` for a start inside or just past the
      string: a negative length leaves that many characters off the end, and
      an empty or inverted range (PHP's `false`) reads as the empty string. */
  function PhpSubstr(s: string, start: nat, length: int): (r: string)
    ensures |r| <= |s|
    ensures start <= |s| && 0 <= length && start + length <= |s| ==> r == s[start..start + length]
    ensures start <= |s| && length < 0 && start <= |s| + length ==> r == s[start..|s| + length]
  {
    if start > |s| then ""
    else
      var stop := if length < 0 then |s| + length else start + length;
      if stop <= start then ""
      else if stop > |s| then s[start..]
      else s[start..stop]
  }

  /** PHP's `substr($s, $start)`. */
  function PhpSubstrFrom(s: string, start: nat): (r: string)
    ensures start <= |s| ==> r == s[start..]
    ensures start > |s| ==> r == ""
  {
    if start > |s| then "" else s[start..]
  }

  /** The five pieces lines 59-63 cut. */
  datatype Pieces = Pieces(leader: string, tag: string, body: string, end: string, trailer: string)

  function Join(p: Pieces): string {
    p.leader + p.tag + p.body + p.end + p.trailer
  }

  /** PHP reads `false` as 0 where a number is expected. */
  function FalseAsZero(r: Option<nat>): nat {
    r.GetOr(0)
  }

  /** Lines 49-63 as written: the four searches, the `false + 1` arithmetic,
      the check of line 55, and the five `substr` calls. `None` is the
      exception. */
  function CutAsWritten(text: string, name: string): (r: Option<Pieces>)
    ensures r.Some? ==> Contains(text, OpenMarker(name), true) && Contains(text, CloseMarker(name), true)
  {
    var startTag := Find(text, OpenMarker(name), 0, true);
    var endTag := FalseAsZero(Find(text, ">", FalseAsZero(startTag), true)) + 1;
    var startEnd := Find(text, CloseMarker(name), endTag, true);
    var endEnd := FalseAsZero(Find(text, ">", FalseAsZero(startEnd), true)) + 1;
    if startTag.None? || startEnd.None? then None
    else Some(CutPieces(text, startTag.value, endTag, startEnd.value, endEnd))
  }

  /** Lines 59-63: the five `substr` calls at the four positions. */
  function CutPieces(text: string, startTag: nat, endTag: nat, startEnd: nat, endEnd: nat): Pieces {
    Pieces(PhpSubstr(text, 0, startTag), PhpSubstr(text, startTag, endTag - startTag),
           PhpSubstr(text, endTag, startEnd - endTag), PhpSubstr(text, startEnd, endEnd - startEnd),
           PhpSubstrFrom(text, endEnd))
  }

  /** Where both `>` are present, the code as written cuts exactly where the
      model does, so the two differ only on texts missing a `>`. */
  lemma AsWrittenAgreesWhenLocated(text: string, name: string)
    requires Locate(text, name).Some?
    ensures var m := Locate(text, name).value;
            CutAsWritten(text, name)
            == Some(Pieces(text[..m.startTag], text[m.startTag..m.endTag], text[m.endTag..m.startEnd],
                           text[m.startEnd..m.endEnd], text[m.endEnd..]))
  {
    LocateFinds(text, name);
    var m := Locate(text, name).value;
    hide Locate, Find, Located;
    CutsAtFound(text, name, m.startTag, m.endTag, m.startEnd, m.endEnd);
    PiecesAreSlices(text, m.startTag, m.endTag, m.startEnd, m.endEnd);
  }

  /** When all four searches succeed, the code as written cuts at the
      positions found, one past each `>`. */
  lemma CutsAtFound(text: string, name: string, a: nat, b: nat, c: nat, d: nat)
    requires 0 < b && 0 < d
    requires Find(text, OpenMarker(name), 0, true) == Some(a)
    requires Find(text, ">", a, true) == Some(b - 1)
    requires Find(text, CloseMarker(name), b, true) == Some(c)
    requires Find(text, ">", c, true) == Some(d - 1)
    ensures CutAsWritten(text, name) == Some(CutPieces(text, a, b, c, d))
  {
    hide Find, CutPieces;
  }

  /** At ordered positions the five `substr` calls are plain slices. */
  lemma PiecesAreSlices(text: string, a: nat, b: nat, c: nat, d: nat)
    requires a <= b <= c <= d <= |text|
    ensures CutPieces(text, a, b, c, d) == Pieces(text[..a], text[a..b], text[b..c], text[c..d], text[d..])
  {
  }

  /** The counterexample: `<td</td` has both markers but no `>`. The code as
      written does not throw, and its pieces spell a longer text than the one
      cut; the model reports the missing tag at offset 0. */
  lemma AsWrittenLosesText()
    ensures var t := "<td</td";
            && CutAsWritten(t, "td") == Some(Pieces("", "<", "td", "</", "td</td"))
            && |Join(CutAsWritten(t, "td").value)| > |t|
            && Create(t, ["td"]) == Err(ParseError(Missing("td"), 0))
  {
    var t := "<td</td";
    SearchesInExample();
    assert Locate(t, "td") == None;
    FailsHereIffUnlocated(t, ["td"], 0, 0);
    hide Find, Locate, Located, ParseLevel, CutPieces;
    assert CutAsWritten(t, "td") == Some(CutPieces(t, 0, 1, 3, 1));
    PiecesInExample();
  }

  lemma PiecesInExample()
    ensures CutPieces("<td</td", 0, 1, 3, 1) == Pieces("", "<", "td", "</", "td</td")
  {
    var t := "<td</td";
    assert t[0..1] == "<";
    assert t[1..3] == "td";
    assert t[3..5] == "</";
    assert t[1..] == "td</td";
  }

  /** What the four searches find in `<td</td`. */
  lemma SearchesInExample()
    ensures var t := "<td</td";
            && Find(t, OpenMarker("td"), 0, true) == Some(0)
            && Find(t, ">", 0, true) == None
            && Find(t, CloseMarker("td"), 1, true) == Some(3)
            && Find(t, ">", 3, true) == None
  {
    var t := "<td</td";
    assert OpenMarker("td") == "<td";
    assert CloseMarker("td") == "</td";
    GtMatches(t);
    assert forall k :: 0 <= k < |t| ==> t[k] != '>';
    MatchesAtMeans(t, "<td", 0, true);
    MatchesAtMeans(t, "</td", 3, true);
    forall p | 1 <= p < 3 ensures !MatchesAt(t, "</td", p, true) {
      MatchesAtMeans(t, "</td", p, true);
      assert !Same(t[p], '<', true);
    }
  }
}
