/** `unescape`, `unescapeEntities` and `unescapeSmartQuotes` of
    `PhpFit_Parse`: the canonical line break becomes a newline, five entities
    are decoded in a fixed order, and four literal smart-quote placeholders
    become plain quotes.

    Each pass is a `str_replace` (`ereg_replace` with a pattern free of
    regular-expression operators replaces the same way). The passes are
    related here to the HTML escaping they undo. */
module Unescaping {
  import opened Strings
  import opened Encoding
  import opened LineBreaks

  /** HTML escaping of `&`, `<`, `>` and `"`: the entities that
      `unescapeEntities` decodes back into characters. */
  const EntityTable: Table := map['&' := "&amp;", '<' := "&lt;", '>' := "&gt;", '"' := "&quot;"]

  function Escape(s: string): string {
    Encode(s, EntityTable)
  }

  /** The five passes of `unescapeEntities`, with the text the `&quot;` pass
      writes as a parameter. `&amp;` is decoded last, so an entity that only
      appears once `&amp;` is decoded (`&amp;lt;`) stays as it is. */
  function DecodeEntities(s: string, quote: string): string {
    var a := Replace(s, "&lt;", "<");
    var b := Replace(a, "&gt;", ">");
    var c := Replace(b, "&nbsp;", " ");
    var d := Replace(c, "&quot;", quote);
    Replace(d, "&amp;", "&")
  }

  /** `unescapeEntities` as written: `'\"'` is a single-quoted PHP string,
      so `&quot;` becomes the two characters backslash and quote. */
  function UnescapeEntitiesAsWritten(s: string): string {
    DecodeEntities(s, "\\\"")
  }

  /** `unescapeEntities` with `&quot;` decoded to a quote, the entity's
      meaning. */
  function UnescapeEntities(s: string): string {
    DecodeEntities(s, "\"")
  }

  /** The four passes of `unescapeSmartQuotes`: the placeholders `<93>` and
      `<94>` become `"`, `<91>` and `<92>` become `'`. They are four literal
      characters each, not single bytes. */
  function UnescapeSmartQuotes(s: string): string {
    var a := Replace(s, "<93>", "\"");
    var b := Replace(a, "<94>", "\"");
    var c := Replace(b, "<91>", "'");
    Replace(c, "<92>", "'")
  }

  /** `unescape`: line breaks, then entities, then smart quotes. */
  function Unescape(s: string): string {
    UnescapeSmartQuotes(UnescapeEntities(Replace(s, LineBreak, "\n")))
  }

  /** `unescape` as written, with `unescapeEntities` as written. */
  function UnescapeAsWritten(s: string): string {
    UnescapeSmartQuotes(UnescapeEntitiesAsWritten(Replace(s, LineBreak, "\n")))
  }

  // -------------------------------------------------------------------
  // Entities
  // -------------------------------------------------------------------

  lemma EntityTableWellFormed()
    ensures WellFormed(EntityTable, '&')
  {
    EntityTokensMarked();
    EntityTokensDiffer();
  }

  /** Each entity opens with `&` and has no other. */
  lemma EntityTokensMarked()
    ensures forall c | c in EntityTable ::
      |EntityTable[c]| > 0 && EntityTable[c][0] == '&' && '&' !in EntityTable[c][1..]
  {
    forall c | c in EntityTable
      ensures |EntityTable[c]| > 0 && EntityTable[c][0] == '&' && '&' !in EntityTable[c][1..]
    {
      var t := EntityTable[c];
      assert t == "&amp;" || t == "&lt;" || t == "&gt;" || t == "&quot;";
      assert forall k | 1 <= k < |t| :: t[k] != '&';
      assert forall k | 0 <= k < |t[1..]| :: t[1..][k] == t[k + 1];
    }
  }

  /** The entities tell themselves apart at their second character. */
  lemma EntityTokensDiffer()
    ensures forall c, d | c in EntityTable && d in EntityTable && c != d ::
      Differ(EntityTable[c], EntityTable[d])
  {
    forall c, d | c in EntityTable && d in EntityTable && c != d
      ensures Differ(EntityTable[c], EntityTable[d])
    {
      DifferAt(EntityTable[c], EntityTable[d], 1);
    }
  }

  /** The table left after each decoding pass of `unescapeEntities`. */
  const AfterLt: Table := EntityTable - {'<'}
  const AfterGt: Table := AfterLt - {'>'}
  const AfterQuote: Table := AfterGt - {'"'}

  /** Every table on the way is well formed. */
  lemma StagesWellFormed()
    ensures WellFormed(EntityTable, '&') && WellFormed(AfterLt, '&')
    ensures WellFormed(AfterGt, '&') && WellFormed(AfterQuote, '&')
  {
    EntityTableWellFormed();
    WellFormedWithout(EntityTable, '&', '<');
    WellFormedWithout(AfterLt, '&', '>');
    WellFormedWithout(AfterGt, '&', '"');
  }

  /** The `&lt;` pass decodes `<`. */
  lemma LtStage(s: string)
    ensures Replace(Escape(s), "&lt;", "<") == Encode(s, AfterLt)
  {
    StagesWellFormed();
    assert EntityTable['<'] == "&lt;";
    DecodeStage(s, EntityTable, '&', '<');
  }

  /** The `&gt;` pass decodes `>`. */
  lemma GtStage(s: string)
    ensures Replace(Encode(s, AfterLt), "&gt;", ">") == Encode(s, AfterGt)
  {
    StagesWellFormed();
    assert AfterLt['>'] == "&gt;" && '&' in AfterLt;
    DecodeStage(s, AfterLt, '&', '>');
  }

  /** `&nbsp;` is none of the four entities. */
  lemma NbspNoEntity()
    ensures forall c | c in EntityTable :: Differ("&nbsp;", EntityTable[c])
  {
    forall c | c in EntityTable ensures Differ("&nbsp;", EntityTable[c]) {
      DifferAt("&nbsp;", EntityTable[c], 1);
    }
  }

  /** The `&nbsp;` pass finds nothing in an escaped text. */
  lemma NbspStage(s: string)
    ensures Replace(Encode(s, AfterGt), "&nbsp;", " ") == Encode(s, AfterGt)
  {
    StagesWellFormed();
    NbspNoEntity();
    assert forall c | c in AfterGt :: c in EntityTable && AfterGt[c] == EntityTable[c];
    assert '&' in AfterGt;
    AbsentStage(s, AfterGt, '&', "&nbsp;", " ");
  }

  /** The `&quot;` pass, with a quote as the replacement, decodes `"`. */
  lemma QuoteStage(s: string)
    ensures Replace(Encode(s, AfterGt), "&quot;", "\"") == Encode(s, AfterQuote)
  {
    StagesWellFormed();
    assert AfterGt['"'] == "&quot;" && '&' in AfterGt;
    DecodeStage(s, AfterGt, '&', '"');
  }

  /** The `&amp;` pass, run last, decodes `&` and leaves the text. */
  lemma AmpStage(s: string)
    ensures Replace(Encode(s, AfterQuote), "&amp;", "&") == s
  {
    StagesWellFormed();
    assert AfterQuote['&'] == "&amp;";
    assert (AfterQuote - {'&'}).Keys == {};
    DecodeStage(s, AfterQuote, '&', '&');
    EncodeNothing(s, AfterQuote - {'&'});
  }

  /** Decoding entities undoes HTML escaping: every `&amp;`, `&lt;`, `&gt;`
      and `&quot;` of an escaped text goes back to its character and nothing
      else changes. */
  lemma EntitiesUndoEscape(s: string)
    ensures UnescapeEntities(Escape(s)) == s
  {
    LtStage(s);
    GtStage(s);
    NbspStage(s);
    QuoteStage(s);
    AmpStage(s);
  }

  /** The counterexample: the escaped form of a quote is `&quot;`, which
      the passes as written turn into backslash and quote instead of the
      quote it was. */
  lemma QuoteDecodedAsWritten()
    ensures Escape("\"") == "&quot;"
    ensures UnescapeEntitiesAsWritten(Escape("\"")) == "\\\""
    ensures UnescapeEntities(Escape("\"")) == "\""
  {
    EntitiesUndoEscape("\"");
    var q := "\"";
    LtStage(q);
    GtStage(q);
    NbspStage(q);
    QuoteEscaped();
    QuoteEntityAsWritten();
  }

  /** A quote is written `&quot;`, before and after the first two passes. */
  lemma QuoteEscaped()
    ensures Escape("\"") == "&quot;" && Encode("\"", AfterGt) == "&quot;"
  {
    assert EntityTable['"'] == "&quot;" && AfterGt['"'] == "&quot;";
  }

  /** The last two passes as written, on `&quot;`. */
  lemma QuoteEntityAsWritten()
    ensures Replace(Replace("&quot;", "&quot;", "\\\""), "&amp;", "&") == "\\\""
  {
    var e := "&quot;";
    var b := "\\\"";
    ReplaceAtFront("", e, b);
    assert e + "" == e && b + "" == b;
    ReplaceSkipsPrefix(b, "", "&amp;", "&");
  }

  /** The passes as written still undo HTML escaping of a text without
      quotes: with no `"` there is no `&quot;` for the fourth pass to
      mistranslate. */
  lemma EntitiesAsWrittenUndoEscape(s: string)
    requires '"' !in s
    ensures UnescapeEntitiesAsWritten(Escape(s)) == s
  {
    LtStage(s);
    GtStage(s);
    NbspStage(s);
    QuoteAbsentStage(s);
    AmpStage(s);
  }

  /** Without quotes in the text the `&quot;` pass as written finds nothing. */
  lemma QuoteAbsentStage(s: string)
    requires '"' !in s
    ensures Replace(Encode(s, AfterGt), "&quot;", "\\\"") == Encode(s, AfterQuote)
  {
    StagesWellFormed();
    EncodeSkipsAbsent(s, AfterGt, '"');
    assert AfterQuote.Keys == {'&'} && AfterQuote['&'] == "&amp;";
    DifferAt("&quot;", "&amp;", 1);
    AbsentStage(s, AfterQuote, '&', "&quot;", "\\\"");
  }

  /** An escaped text contains no `<`, so no line break either. */
  lemma EscapedHasNoTag(s: string)
    ensures Avoids(Escape(s), {'<'})
  {
    EncodeAvoids(s, EntityTable, {'<'});
  }

  /** `unescape` undoes HTML escaping up to the smart-quote placeholders,
      which it decodes wherever they stand. */
  lemma UnescapeUndoesEscape(s: string)
    ensures Unescape(Escape(s)) == UnescapeSmartQuotes(s)
  {
    EscapedHasNoTag(s);
    NoTagNoBreak(Escape(s), "\n");
    EntitiesUndoEscape(s);
  }

  /** The same with `unescapeEntities` as written, for a text without
      quotes. */
  lemma UnescapeAsWrittenUndoesEscape(s: string)
    requires '"' !in s
    ensures UnescapeAsWritten(Escape(s)) == UnescapeSmartQuotes(s)
  {
    EscapedHasNoTag(s);
    NoTagNoBreak(Escape(s), "\n");
    EntitiesAsWrittenUndoEscape(s);
  }

  /** A text without `<` has no line break to replace. */
  lemma NoTagNoBreak(s: string, rep: string)
    requires Avoids(s, {'<'})
    ensures Replace(s, LineBreak, rep) == s
  {
    ReplaceSkipsPrefix(s, "", LineBreak, rep);
    assert s + "" == s;
  }

  // -------------------------------------------------------------------
  // Smart quotes
  // -------------------------------------------------------------------

  /** Quotes written as the opening placeholders. */
  const QuoteTable: Table := map['"' := "<93>", '\'' := "<91>"]

  lemma QuoteTableWellFormed()
    ensures WellFormed(QuoteTable, '<')
  {
    forall c, d | c in QuoteTable && d in QuoteTable && c != d
      ensures Differ(QuoteTable[c], QuoteTable[d])
    {
      DifferAt(QuoteTable[c], QuoteTable[d], 2);
    }
  }

  /** The placeholder passes undo writing quotes as `<93>` and `<91>`, in a
      text that has no `<` of its own. */
  lemma SmartQuotesUndoQuoting(s: string)
    requires '<' !in s
    ensures UnescapeSmartQuotes(Encode(s, QuoteTable)) == s
  {
    QuoteTableWellFormed();
    var t0 := QuoteTable;
    var t1 := t0 - {'"'};
    var t2 := t1 - {'\''};
    assert t0['"'] == "<93>" && t1['\''] == "<91>";
    assert t1.Keys == {'\''} && t2.Keys == {};
    assert Differ("<94>", "<91>");
    hide QuoteTable;
    DecodeStage(s, t0, '<', '"');
    AbsentStage(s, t1, '<', "<94>", "\"");
    DecodeStage(s, t1, '<', '\'');
    EncodeNothing(s, t2);
    AbsentStage(s, t2, '<', "<92>", "'");
  }

  /** Quotes written as the closing placeholders. */
  const ClosingQuoteTable: Table := map['"' := "<94>", '\'' := "<92>"]

  lemma ClosingQuoteTableWellFormed()
    ensures WellFormed(ClosingQuoteTable, '<')
  {
    forall c, d | c in ClosingQuoteTable && d in ClosingQuoteTable && c != d
      ensures Differ(ClosingQuoteTable[c], ClosingQuoteTable[d])
    {
      DifferAt(ClosingQuoteTable[c], ClosingQuoteTable[d], 2);
    }
  }

  /** The placeholder passes likewise undo writing quotes as `<94>` and
      `<92>`: the opening passes find nothing, the closing ones decode. */
  lemma SmartQuotesUndoClosingQuoting(s: string)
    requires '<' !in s
    ensures UnescapeSmartQuotes(Encode(s, ClosingQuoteTable)) == s
  {
    ClosingQuoteTableWellFormed();
    var t0 := ClosingQuoteTable;
    var t1 := t0 - {'"'};
    var t2 := t1 - {'\''};
    assert t0['"'] == "<94>" && t0['\''] == "<92>" && t1['\''] == "<92>";
    assert t0.Keys == {'"', '\''} && t1.Keys == {'\''} && t2.Keys == {};
    DifferAt("<93>", "<94>", 2);
    DifferAt("<93>", "<92>", 2);
    DifferAt("<91>", "<92>", 2);
    hide ClosingQuoteTable;
    AbsentStage(s, t0, '<', "<93>", "\"");
    DecodeStage(s, t0, '<', '"');
    AbsentStage(s, t1, '<', "<91>", "'");
    DecodeStage(s, t1, '<', '\'');
    EncodeNothing(s, t2);
  }

  /** A text without `<` holds no placeholder. */
  lemma SmartQuotesKeepPlain(s: string)
    requires '<' !in s
    ensures UnescapeSmartQuotes(s) == s
  {
    var t: Table := map[];
    EncodeNothing(s, t);
    AbsentStage(s, t, '<', "<93>", "\"");
    AbsentStage(s, t, '<', "<94>", "\"");
    AbsentStage(s, t, '<', "<91>", "'");
    AbsentStage(s, t, '<', "<92>", "'");
  }

  /** A text without `<` is recovered from its escaped form. */
  lemma UnescapeRoundTrip(s: string)
    requires '<' !in s
    ensures Unescape(Escape(s)) == s
  {
    UnescapeUndoesEscape(s);
    SmartQuotesKeepPlain(s);
  }

  /** As written, a text without `<` and without `"` is recovered from its
      escaped form. */
  lemma UnescapeAsWrittenRoundTrip(s: string)
    requires '<' !in s && '"' !in s
    ensures UnescapeAsWritten(Escape(s)) == s
  {
    UnescapeAsWrittenUndoesEscape(s);
    SmartQuotesKeepPlain(s);
  }

  // -------------------------------------------------------------------
  // The mixed placeholders `<93><94><92>`
  // -------------------------------------------------------------------

  /** A four-character placeholder such as `<93>`. */
  predicate Placeholder(t: string) {
    |t| == 4 && t[0] == '<' && '<' !in t[1..]
  }

  /** What a placeholder pass writes for one placeholder. */
  function PassedAs(t: string, pat: string, rep: string): string {
    if t == pat then rep else t
  }

  /** One placeholder in front of the rest: the pass either decodes it or
      keeps it whole. */
  lemma PlaceholderStep(t: string, rest: string, pat: string, rep: string)
    requires Placeholder(t)
    requires |pat| > 0 && pat[0] == '<'
    requires t == pat || Differ(pat, t)
    ensures Replace(t + rest, pat, rep) == PassedAs(t, pat, rep) + Replace(rest, pat, rep)
  {
    if t == pat {
      ReplaceAtFront(rest, pat, rep);
    } else {
      PassToken(t, rest, pat, rep);
    }
  }

  /** A placeholder pass over two placeholders after an optional prefix
      without `<`. */
  lemma PlaceholderPair(w: string, b: string, c: string, pat: string, rep: string)
    requires '<' !in w && Placeholder(b) && Placeholder(c)
    requires |pat| > 0 && pat[0] == '<'
    requires b == pat || Differ(pat, b)
    requires c == pat || Differ(pat, c)
    ensures Replace(w + (b + c), pat, rep) == w + (PassedAs(b, pat, rep) + PassedAs(c, pat, rep))
  {
    assert Replace("", pat, rep) == "";
    ReplaceSkipsPrefix(w, b + c, pat, rep);
    hide Replace;
    PlaceholderStep(b, c, pat, rep);
    PlaceholderStep(c, "", pat, rep);
    assert c + "" == c;
    assert PassedAs(c, pat, rep) + "" == PassedAs(c, pat, rep);
  }

  /** The three placeholders of the example, one by one. */
  lemma MixedSplit()
    ensures "<93><94><92>" == "<93>" + ("<94>" + "<92>")
  {
  }

  /** A pass for a placeholder that is none of the three leaves them. */
  lemma MixedAbsent(pat: string, rep: string)
    requires |pat| > 1 && pat[0] == '<' && pat[1] != '9'
    ensures Replace("<93><94><92>", pat, rep) == "<93><94><92>"
  {
    var a, b, c := "<93>", "<94>", "<92>";
    assert Placeholder(a) && Placeholder(b) && Placeholder(c);
    DifferAt(pat, a, 1);
    DifferAt(pat, b, 1);
    DifferAt(pat, c, 1);
    hide Replace;
    PlaceholderStep(a, b + c, pat, rep);
    PlaceholderPair("", b, c, pat, rep);
    assert "" + (b + c) == b + c;
    MixedSplit();
  }

  /** The line break and the entity passes find nothing in the three
      placeholders. */
  lemma MixedBeforeQuotes()
    ensures UnescapeEntities(Replace("<93><94><92>", LineBreak, "\n")) == "<93><94><92>"
  {
    hide Replace, UnescapeEntities;
    MixedAbsent(LineBreak, "\n");
    MixedHasNoAmpersand();
    EntitiesKeepPlain("<93><94><92>");
  }

  lemma MixedHasNoAmpersand()
    ensures forall k | 0 <= k < |"<93><94><92>"| :: "<93><94><92>"[k] != '&'
  {
    var s := "<93><94><92>";
    assert forall k | 0 <= k < |s| :: s[k] in {'<', '9', '3', '4', '2', '>'};
  }

  /** A text without `&` holds no entity. */
  lemma EntitiesKeepPlain(s: string)
    requires forall k | 0 <= k < |s| :: s[k] != '&'
    ensures UnescapeEntities(s) == s
  {
    ReplaceSkipsPrefix(s, "", "&lt;", "<");
    ReplaceSkipsPrefix(s, "", "&gt;", ">");
    ReplaceSkipsPrefix(s, "", "&nbsp;", " ");
    ReplaceSkipsPrefix(s, "", "&quot;", "\"");
    ReplaceSkipsPrefix(s, "", "&amp;", "&");
    assert s + "" == s;
  }

  /** The two quote placeholders of the opening pair. */
  lemma MixedFirstQuotes()
    ensures Replace(Replace("<93><94><92>", "<93>", "\""), "<94>", "\"") == "\"\"<92>"
  {
    MixedOpening();
    MixedClosing();
  }

  lemma MixedOpening()
    ensures Replace("<93><94><92>", "<93>", "\"") == "\"<94><92>"
  {
    var a, b, c := "<93>", "<94>", "<92>";
    var q := "\"";
    assert Placeholder(a) && Placeholder(b) && Placeholder(c);
    DifferAt(a, b, 2);
    DifferAt(a, c, 2);
    assert PassedAs(a, a, q) == q && PassedAs(b, a, q) == b && PassedAs(c, a, q) == c;
    hide Replace, PassedAs;
    PlaceholderStep(a, b + c, a, q);
    PlaceholderPair("", b, c, a, q);
    assert "" + (b + c) == b + c;
    MixedSplit();
    OpenedSplit();
  }

  lemma OpenedSplit()
    ensures "\"<94><92>" == "\"" + ("<94>" + "<92>")
  {
  }

  lemma MixedClosing()
    ensures Replace("\"<94><92>", "<94>", "\"") == "\"\"<92>"
  {
    var b, c := "<94>", "<92>";
    var q := "\"";
    assert Placeholder(b) && Placeholder(c);
    DifferAt(b, c, 2);
    assert PassedAs(b, b, q) == q && PassedAs(c, b, q) == c;
    hide Replace, PassedAs;
    PlaceholderPair(q, b, c, b, q);
    assert "\"<94><92>" == q + (b + c);
    assert q + (q + c) == "\"\"<92>";
  }

  /** The apostrophe placeholder. */
  lemma MixedLastQuote()
    ensures Replace(Replace("\"\"<92>", "<91>", "'"), "<92>", "'") == "\"\"'"
  {
    var c := "<92>";
    var qq := "\"\"";
    ReplaceEmpty("<91>", "'");
    ReplaceEmpty(c, "'");
    hide Replace;
    assert Placeholder(c);
    DifferAt("<91>", c, 2);
    ReplaceSkipsPrefix(qq, c, "<91>", "'");
    PlaceholderStep(c, "", "<91>", "'");
    ReplaceSkipsPrefix(qq, c, c, "'");
    PlaceholderStep(c, "", c, "'");
    LastQuoteSplit();
  }

  lemma LastQuoteSplit()
    ensures "<92>" + "" == "<92>" && "'" + "" == "'"
    ensures "\"\"<92>" == "\"\"" + "<92>" && "\"\"" + "'" == "\"\"'"
  {
  }

  /** The placeholders need not pair up: `<93><94><92>` reads as two
      quotes and an apostrophe. */
  lemma MixedPlaceholders()
    ensures Unescape("<93><94><92>") == "\"\"'"
  {
    MixedBeforeQuotes();
    MixedFirstQuotes();
    MixedLastQuote();
  }
}
