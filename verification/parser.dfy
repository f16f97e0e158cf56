/** `PhpFit_Parse::create`: cut a text at the first occurrence of an ordered
    list of tag names, recursing one level deeper into each tag's interior and
    along the same level into what follows it.

    Tag names are matched ignoring ASCII case; every slice keeps the original
    text byte for byte. A failure to find a tag becomes an `Err` carrying the
    source's exception message and the offset threaded through the recursion. */
module Parser {
  import opened Wrappers
  import opened Strings
  import opened ParseTree

  /** `PHPFit_Exception_Parse`: the message and the parser offset. */
  datatype ParseError = ParseError(message: string, offset: int)

  /** A parse outcome: a value, or the exception the source would throw. */
  datatype Result<T> = Ok(value: T) | Err(error: ParseError)

  /** The static default tag list of the source, as a constant. */
  const DefaultTags: seq<string> := ["table", "tr", "td"]

  /** The exception message for a tag that cannot be found. */
  function Missing(name: string): string {
    "Can't find tag: " + name
  }

  /** The exception's `__toString`: the message, " at ", and the offset. */
  function Describe(e: ParseError): string {
    e.message + " at " + IntToDecimal(e.offset)
  }

  /** The description starts with the message and ends with the offset in
      decimal, which reads back as the offset. */
  lemma DescribeShowsOffset(e: ParseError)
    requires e.offset >= 0
    ensures var s := Describe(e);
            var k := |e.message| + 4;
            && k < |s|
            && s[..k] == e.message + " at "
            && (forall t :: k <= t < |s| ==> IsDigit(s[t]))
            && DecimalValue(s[k..]) == e.offset
  {
    var s := Describe(e);
    var k := |e.message| + 4;
    var d := NatToDecimal(e.offset);
    assert s == (e.message + " at ") + d;
    assert s[k..] == d;
    DecimalRoundTrip(e.offset);
  }

  function OpenMarker(name: string): (r: string)
    ensures |r| > 0
  {
    "<" + name
  }

  function CloseMarker(name: string): (r: string)
    ensures |r| > 0
  {
    "</" + name
  }

  // -------------------------------------------------------------------
  // Locating one tag occurrence
  // -------------------------------------------------------------------

  /** The four cut points of one tag occurrence: where `<name` starts, just
      after its `>`, where `</name` starts, and just after its `>`. */
  datatype Marks = Marks(startTag: nat, endTag: nat, startEnd: nat, endEnd: nat)

  /** `g` is the first `>` in `s` at or after `from`. */
  predicate FirstGtFrom(s: string, from: nat, g: nat) {
    from <= g < |s| && s[g] == '>' && forall k :: from <= k < g ==> s[k] != '>'
  }

  /** `m` marks the first `<name`, the first `>` from there on, the first
      `</name` after that `>`, and the first `>` from there on. */
  ghost predicate Located(text: string, name: string, m: Marks) {
    && m.startTag < m.endTag <= m.startEnd < m.endEnd <= |text|
    && MatchesAt(text, OpenMarker(name), m.startTag, true)
    && (forall p: nat :: p < m.startTag ==> !MatchesAt(text, OpenMarker(name), p, true))
    && FirstGtFrom(text, m.startTag, m.endTag - 1)
    && MatchesAt(text, CloseMarker(name), m.startEnd, true)
    && (forall p: nat :: m.endTag <= p < m.startEnd ==> !MatchesAt(text, CloseMarker(name), p, true))
    && FirstGtFrom(text, m.startEnd, m.endEnd - 1)
  }

  /** Searching for `>` finds exactly the `>` characters. */
  lemma GtMatches(s: string)
    ensures forall k: nat :: MatchesAt(s, ">", k, true) <==> k < |s| && s[k] == '>'
  {
    forall k: nat
      ensures MatchesAt(s, ">", k, true) <==> k < |s| && s[k] == '>'
    {
      MatchesAtMeans(s, ">", k, true);
    }
  }

  /** Lines 49-52 of the source: the four `stripos` searches. Where a `>` is
      missing the source computes `false + 1` and carries on; the model
      reports the tag as not found instead (see the findings in README). */
  function Locate(text: string, name: string): (r: Option<Marks>)
    ensures r.Some? ==> r.value.startTag < r.value.endTag <= r.value.startEnd < r.value.endEnd <= |text|
    ensures r.Some? ==> Located(text, name, r.value)
    ensures !Contains(text, OpenMarker(name), true) ==> r.None?
  {
    GtMatches(text);
    match Find(text, OpenMarker(name), 0, true)
    case None => None
    case Some(startTag) =>
      match Find(text, ">", startTag, true)
      case None => None
      case Some(gt) =>
        match Find(text, CloseMarker(name), gt + 1, true)
        case None => None
        case Some(startEnd) =>
          match Find(text, ">", startEnd, true)
          case None => None
          case Some(gt2) => Some(Marks(startTag, gt + 1, startEnd, gt2 + 1))
  }

  /** The four searches behind a located tag, one by one. */
  lemma LocateFinds(text: string, name: string)
    requires Locate(text, name).Some?
    ensures var m := Locate(text, name).value;
            && Find(text, OpenMarker(name), 0, true) == Some(m.startTag)
            && Find(text, ">", m.startTag, true) == Some(m.endTag - 1)
            && Find(text, CloseMarker(name), m.endTag, true) == Some(m.startEnd)
            && Find(text, ">", m.startEnd, true) == Some(m.endEnd - 1)
  {
    hide Find, Located;
  }

  /** The cut points are unique: any marks meeting `Located` are the ones
      `Locate` returns. */
  lemma LocatedUnique(text: string, name: string, m: Marks)
    requires Located(text, name, m)
    ensures Locate(text, name) == Some(m)
  {
    GtMatches(text);
    assert Find(text, OpenMarker(name), 0, true) == Some(m.startTag);
    assert Find(text, ">", m.startTag, true) == Some(m.endTag - 1);
    assert Find(text, CloseMarker(name), m.endTag, true) == Some(m.startEnd);
    assert Find(text, ">", m.startEnd, true) == Some(m.endEnd - 1);
  }

  // -------------------------------------------------------------------
  // The parser
  // -------------------------------------------------------------------

  /** `create(text, tags, level, offset)`: parse `text` at nesting `level`.
      The interior of the tag is parsed at `level + 1` with the offset moved
      past the opening tag, when a deeper level exists; the rest of the text is
      parsed at the same level with the offset moved past the closing tag,
      when another opening marker follows. An error inside the interior wins
      over one in the rest, as the source recurses into `parts` first. */
  function ParseLevel(text: string, tags: seq<string>, level: nat, offset: int): (r: Result<Node>)
    requires level < |tags|
    ensures r.Err? ==> offset <= r.error.offset <= offset + |text|
    ensures r.Err? ==> exists k :: level <= k < |tags| && r.error.message == Missing(tags[k])
    decreases |text|, 0
  {
    match Locate(text, tags[level])
    case None => Err(ParseError(Missing(tags[level]), offset))
    case Some(m) =>
      Assemble(text, m,
               ParseContent(text[m.endTag..m.startEnd], tags, level, offset + m.endTag),
               ParseContinuation(text, m.endEnd, tags, level, offset))
  }

  /** Lines 59-63 and 77: the node cut from `text` at the marks, with the
      parsed interior and rest; the interior's error comes first. */
  function Assemble(text: string, m: Marks, content: Result<Content>, cont: Result<Continuation>)
    : Result<Node>
    requires m.startTag <= m.endTag <= m.startEnd <= m.endEnd <= |text|
  {
    match content
    case Err(e) => Err(e)
    case Ok(c) =>
      match cont
      case Err(e) => Err(e)
      case Ok(k) => Ok(Node(text[..m.startTag], text[m.startTag..m.endTag], c, text[m.startEnd..m.endEnd], k))
  }

  /** Lines 66-69: the interior of a tag is parsed one level deeper when the
      tag list has one, and kept as the body otherwise. */
  function ParseContent(body: string, tags: seq<string>, level: nat, offset: int): (r: Result<Content>)
    requires level < |tags|
    ensures r.Ok? ==> (r.value.Parts? <==> level + 1 < |tags|)
    ensures r.Err? ==> level + 1 < |tags|
    ensures r.Err? ==> offset <= r.error.offset <= offset + |body|
    ensures r.Err? ==> exists k :: level < k < |tags| && r.error.message == Missing(tags[k])
    decreases |body|, 1
  {
    if level + 1 < |tags| then
      match ParseLevel(body, tags, level + 1, offset)
      case Ok(p) => Ok(Parts(p))
      case Err(e) => Err(e)
    else Ok(Body(body))
  }

  /** Lines 71-75: what follows the closing tag (which ends at `from`) is
      parsed at the same level when another opening marker occurs in it, and
      kept as the trailer otherwise. */
  function ParseContinuation(text: string, from: nat, tags: seq<string>, level: nat, offset: int)
    : (r: Result<Continuation>)
    requires level < |tags| && 0 < from <= |text|
    ensures r.Ok? ==> (r.value.More? <==> Find(text, OpenMarker(tags[level]), from, true).Some?)
    ensures r.Err? ==> offset + from <= r.error.offset <= offset + |text|
    ensures r.Err? ==> exists k :: level <= k < |tags| && r.error.message == Missing(tags[k])
    decreases |text| - from, 1
  {
    if Find(text, OpenMarker(tags[level]), from, true).Some? then
      match ParseLevel(text[from..], tags, level, offset + from)
      case Ok(x) => Ok(More(x))
      case Err(e) => Err(e)
    else Ok(Trailer(text[from..]))
  }

  /** A failure is reported at the offset the call was given exactly when the
      tag of this level cannot be located in `text`; failures further in are
      reported past it. */
  lemma FailsHereIffUnlocated(text: string, tags: seq<string>, level: nat, offset: int)
    requires level < |tags|
    ensures var r := ParseLevel(text, tags, level, offset);
            (r.Err? && r.error.offset == offset) <==> Locate(text, tags[level]).None?
    ensures Locate(text, tags[level]).None? ==>
              ParseLevel(text, tags, level, offset) == Err(ParseError(Missing(tags[level]), offset))
  {
  }

  /** When `<name` does not occur at all, the parse fails at once. */
  lemma MissingOpenTagFails(text: string, tags: seq<string>, level: nat, offset: int)
    requires level < |tags|
    requires !Contains(text, OpenMarker(tags[level]), true)
    ensures ParseLevel(text, tags, level, offset) == Err(ParseError(Missing(tags[level]), offset))
  {
    FailsHereIffUnlocated(text, tags, level, offset);
  }

  /** `create(text, tags)`: an empty (or absent) tag list means the default
      one, since PHP's `array() == null` holds. An error is the failure of
      one call the parse makes (see `Visits`), reported where that call's
      text starts in `text`; of the calls that fail, it is the one that
      starts first. */
  function Create(text: string, tags: seq<string>): (r: Result<Node>)
    ensures r.Err? ==> 0 <= r.error.offset <= |text|
    ensures r.Err? ==> ErrorFromCall(text, if |tags| == 0 then DefaultTags else tags, 0, r.error, 0)
    ensures ReportedFirst(text, if |tags| == 0 then DefaultTags else tags, 0, r, 0)
  {
    var used := if |tags| == 0 then DefaultTags else tags;
    ErrorAtFailedCall(text, used, 0, 0);
    FirstFailedCall(text, used, 0, 0);
    ParseLevel(text, used, 0, 0)
  }

  // -------------------------------------------------------------------
  // Round trip
  // -------------------------------------------------------------------

  lemma SliceFive(s: string, a: nat, b: nat, c: nat, d: nat)
    requires a <= b <= c <= d <= |s|
    ensures s[..a] + s[a..b] + s[b..c] + s[c..d] + s[d..] == s
  {
    assert s[..a] + s[a..b] == s[..b];
    assert s[..b] + s[b..c] == s[..c];
    assert s[..c] + s[c..d] == s[..d];
    assert s[..d] + s[d..] == s;
  }

  /** A successful parse is the five slices of `text` cut at the marks, with
      the interior and the rest replaced by their own parses. */
  lemma ParseLevelSlices(text: string, tags: seq<string>, level: nat, offset: int)
    requires level < |tags|
    requires ParseLevel(text, tags, level, offset).Ok?
    ensures Locate(text, tags[level]).Some?
    ensures var m := Locate(text, tags[level]).value;
            var c := ParseContent(text[m.endTag..m.startEnd], tags, level, offset + m.endTag);
            var k := ParseContinuation(text, m.endEnd, tags, level, offset);
            && c.Ok? && k.Ok?
            && ParseLevel(text, tags, level, offset).value
               == Node(text[..m.startTag], text[m.startTag..m.endTag], c.value, text[m.startEnd..m.endEnd], k.value)
  {
  }

  /** Once the tag is located, the parse is the assembly of the slices with
      the interior and the rest parsed in turn. */
  lemma UnfoldLocated(text: string, tags: seq<string>, level: nat, offset: int, m: Marks)
    requires level < |tags|
    requires Locate(text, tags[level]) == Some(m)
    ensures ParseLevel(text, tags, level, offset)
            == Assemble(text, m, ParseContent(text[m.endTag..m.startEnd], tags, level, offset + m.endTag),
                        ParseContinuation(text, m.endEnd, tags, level, offset))
  {
    hide Locate, Find, Located;
  }

  /** Serialising a parsed tree gives back the text it was parsed from. */
  lemma {:induction false} ParseRoundTrip(text: string, tags: seq<string>, level: nat, offset: int)
    requires level < |tags|
    requires ParseLevel(text, tags, level, offset).Ok?
    ensures ToString(ParseLevel(text, tags, level, offset).value) == text
    decreases |text|, 0
  {
    hide Locate, Find, Located;
    ParseLevelSlices(text, tags, level, offset);
    var m := Locate(text, tags[level]).value;
    var n := ParseLevel(text, tags, level, offset).value;
    var body := text[m.endTag..m.startEnd];
    ContentRoundTrip(body, tags, level, offset + m.endTag);
    ContinuationRoundTrip(text, m.endEnd, tags, level, offset);
    assert ToString(n) == n.leader + n.tag + ContentText(n.content) + n.end + ContinuationText(n.cont);
    SliceFive(text, m.startTag, m.endTag, m.startEnd, m.endEnd);
  }

  lemma {:induction false} ContentRoundTrip(body: string, tags: seq<string>, level: nat, offset: int)
    requires level < |tags|
    requires ParseContent(body, tags, level, offset).Ok?
    ensures ContentText(ParseContent(body, tags, level, offset).value) == body
    decreases |body|, 1
  {
    if level + 1 < |tags| {
      ParseRoundTrip(body, tags, level + 1, offset);
    }
  }

  lemma {:induction false} ContinuationRoundTrip(text: string, from: nat, tags: seq<string>, level: nat, offset: int)
    requires level < |tags| && 0 < from <= |text|
    requires ParseContinuation(text, from, tags, level, offset).Ok?
    ensures ContinuationText(ParseContinuation(text, from, tags, level, offset).value) == text[from..]
    decreases |text| - from, 1
  {
    hide Locate, Find, Located;
    if Find(text, OpenMarker(tags[level]), from, true).Some? {
      ParseRoundTrip(text[from..], tags, level, offset + from);
    }
  }

  /** `create(toString(create(text)))` gives back the same tree. */
  lemma ReparseIsIdentity(text: string, tags: seq<string>, level: nat, offset: int)
    requires level < |tags|
    requires ParseLevel(text, tags, level, offset).Ok?
    ensures ParseLevel(ToString(ParseLevel(text, tags, level, offset).value), tags, level, offset)
            == ParseLevel(text, tags, level, offset)
  {
    ParseRoundTrip(text, tags, level, offset);
  }

  // -------------------------------------------------------------------
  // Offsets
  // -------------------------------------------------------------------

  /** Moves an error's offset by `d`; a value is left as it is. */
  function Shifted<T>(r: Result<T>, d: int): Result<T> {
    match r
    case Ok(_) => r
    case Err(e) => Err(e.(offset := e.offset + d))
  }

  /** The offset argument only translates error positions: the tree does not
      depend on it, and an error is reported at the offset plus its position
      relative to the start of `text`. */
  lemma ParseOffsetIsRelative(text: string, tags: seq<string>, level: nat, offset: int)
    requires level < |tags|
    ensures ParseLevel(text, tags, level, offset) == Shifted(ParseLevel(text, tags, level, 0), offset)
  {
    ParseOffsetsAgree(text, tags, level, 0, offset);
  }

  lemma {:induction false} ParseOffsetsAgree(text: string, tags: seq<string>, level: nat, o: int, d: int)
    requires level < |tags|
    ensures ParseLevel(text, tags, level, o + d) == Shifted(ParseLevel(text, tags, level, o), d)
    decreases |text|, 0
  {
    hide Locate, Find, Located;
    match Locate(text, tags[level])
    case None =>
      NotLocated(text, tags, level, o);
      NotLocated(text, tags, level, o + d);
    case Some(m) =>
      var body := text[m.endTag..m.startEnd];
      UnfoldLocated(text, tags, level, o, m);
      UnfoldLocated(text, tags, level, o + d, m);
      hide ParseLevel, ParseContent, ParseContinuation, Assemble;
      assert o + d + m.endTag == o + m.endTag + d;
      ContentOffsetsAgree(body, tags, level, o + m.endTag, d);
      ContinuationOffsetsAgree(text, m.endEnd, tags, level, o, d);
      AssembleShifted(text, m, ParseContent(body, tags, level, o + m.endTag),
                      ParseContinuation(text, m.endEnd, tags, level, o), d);
  }

  /** Without the tag, the parse fails at the offset. */
  lemma NotLocated(text: string, tags: seq<string>, level: nat, o: int)
    requires level < |tags| && Locate(text, tags[level]).None?
    ensures ParseLevel(text, tags, level, o) == Err(ParseError(Missing(tags[level]), o))
  {
    hide Locate, Find, Located;
  }

  lemma AssembleShifted(text: string, m: Marks, content: Result<Content>, cont: Result<Continuation>, d: int)
    requires m.startTag <= m.endTag <= m.startEnd <= m.endEnd <= |text|
    ensures Assemble(text, m, Shifted(content, d), Shifted(cont, d)) == Shifted(Assemble(text, m, content, cont), d)
  {
  }

  lemma {:induction false} ContentOffsetsAgree(body: string, tags: seq<string>, level: nat, o: int, d: int)
    requires level < |tags|
    ensures ParseContent(body, tags, level, o + d) == Shifted(ParseContent(body, tags, level, o), d)
    decreases |body|, 1
  {
    if level + 1 < |tags| {
      ParseOffsetsAgree(body, tags, level + 1, o, d);
    }
  }

  lemma {:induction false} ContinuationOffsetsAgree(text: string, from: nat, tags: seq<string>, level: nat, o: int, d: int)
    requires level < |tags| && 0 < from <= |text|
    ensures ParseContinuation(text, from, tags, level, o + d)
            == Shifted(ParseContinuation(text, from, tags, level, o), d)
    decreases |text| - from, 1
  {
    hide Locate, Find, Located;
    if Find(text, OpenMarker(tags[level]), from, true).Some? {
      ParseOffsetsAgree(text[from..], tags, level, o + from, d);
    }
  }

  // -------------------------------------------------------------------
  // Where an error points
  // -------------------------------------------------------------------

  /** The parse of `text` at `level` makes a call at level `k` on the slice
      `text[i..j]`: the call on the whole text itself, or, once the tag of
      this level is located, one of the calls the interior's parse makes
      (one level deeper, moved past the opening tag) or the rest's parse
      makes (the same level, moved past the closing tag). */
  predicate Visits(text: string, tags: seq<string>, level: nat, i: nat, j: nat, k: nat)
    decreases |text|
  {
    && level < |tags| && i <= j
    && ((i == 0 && j == |text| && k == level)
        || match Locate(text, tags[level])
           case None => false
           case Some(m) =>
             || (&& level + 1 < |tags| && m.endTag <= i
                 && Visits(text[m.endTag..m.startEnd], tags, level + 1, i - m.endTag, j - m.endTag, k))
             || (&& Find(text, OpenMarker(tags[level]), m.endEnd, true).Some? && m.endEnd <= i
                 && Visits(text[m.endEnd..], tags, level, i - m.endEnd, j - m.endEnd, k)))
  }

  /** One of those calls fails: the tag of its level cannot be located in
      its slice. */
  predicate Unlocated(text: string, tags: seq<string>, level: nat, i: nat, j: nat, k: nat) {
    && i <= j <= |text| && level <= k < |tags|
    && Visits(text, tags, level, i, j, k)
    && Locate(text[i..j], tags[k]).None?
  }

  /** `e` is the failure of one of those calls, reported where its slice
      starts. */
  predicate FailedCall(text: string, tags: seq<string>, level: nat, e: ParseError, offset: int,
                       i: nat, j: nat, k: nat)
  {
    && Unlocated(text, tags, level, i, j, k)
    && e == ParseError(Missing(tags[k]), offset + i)
  }

  /** `r` fails no later than the start of every call that fails, so with
      `ErrorFromCall` it is the failure of the first failing call. */
  ghost predicate ReportedFirst<T>(text: string, tags: seq<string>, level: nat, r: Result<T>, offset: int) {
    forall i: nat, j: nat, k: nat :: Unlocated(text, tags, level, i, j, k) ==> r.Err? && r.error.offset <= offset + i
  }

  /** `e` is the failure of some call the parse of `text` at `level` makes. */
  ghost predicate ErrorFromCall(text: string, tags: seq<string>, level: nat, e: ParseError, offset: int) {
    exists i: nat, j: nat, k: nat :: FailedCall(text, tags, level, e, offset, i, j, k)
  }

  /** A failed call of the interior's parse is a failed call of the text's,
      moved past the opening tag. */
  lemma InteriorCall(text: string, tags: seq<string>, level: nat, m: Marks, e: ParseError, offset: int,
                     i: nat, j: nat, k: nat)
    requires level + 1 < |tags| && Locate(text, tags[level]) == Some(m)
    requires FailedCall(text[m.endTag..m.startEnd], tags, level + 1, e, offset + m.endTag, i, j, k)
    ensures FailedCall(text, tags, level, e, offset, m.endTag + i, m.endTag + j, k)
  {
    hide Locate, Find, Located;
    var body := text[m.endTag..m.startEnd];
    forall q | 0 <= q < j - i
      ensures body[i..j][q] == text[m.endTag + i..m.endTag + j][q]
    {
      assert body[i..j][q] == body[i + q] == text[m.endTag + i + q];
    }
    assert body[i..j] == text[m.endTag + i..m.endTag + j];
  }

  /** A failed call of the rest's parse is a failed call of the text's,
      moved past the closing tag. */
  lemma RestCall(text: string, tags: seq<string>, level: nat, m: Marks, e: ParseError, offset: int,
                 i: nat, j: nat, k: nat)
    requires level < |tags| && Locate(text, tags[level]) == Some(m)
    requires Find(text, OpenMarker(tags[level]), m.endEnd, true).Some?
    requires FailedCall(text[m.endEnd..], tags, level, e, offset + m.endEnd, i, j, k)
    ensures FailedCall(text, tags, level, e, offset, m.endEnd + i, m.endEnd + j, k)
  {
    hide Locate, Find, Located;
    var rest := text[m.endEnd..];
    forall q | 0 <= q < j - i
      ensures rest[i..j][q] == text[m.endEnd + i..m.endEnd + j][q]
    {
      assert rest[i..j][q] == rest[i + q] == text[m.endEnd + i + q];
    }
    assert rest[i..j] == text[m.endEnd + i..m.endEnd + j];
  }

  /** Every error the parser reports is the failure of a call it makes:
      some slice it recurses on, at the level it recurses with, holds no
      occurrence of that level's tag, and the offset is the given offset
      plus where the slice starts, so `+ endTag` is added going into an
      interior and `+ endEnd` going along to the rest. That call is the
      first failing one (`FirstFailedCall`). */
  lemma {:induction false} ErrorAtFailedCall(text: string, tags: seq<string>, level: nat, offset: int)
    requires level < |tags|
    ensures var r := ParseLevel(text, tags, level, offset);
            r.Err? ==> ErrorFromCall(text, tags, level, r.error, offset)
    decreases |text|, 0
  {
    hide Locate, Find, Located, Visits, FailedCall, ErrorFromCall;
    hide ParseLevel, ParseContent, ParseContinuation, Assemble;
    match Locate(text, tags[level])
    case None =>
      NotLocated(text, tags, level, offset);
      WholeTextCall(text, tags, level, offset);
    case Some(m) =>
      var body := text[m.endTag..m.startEnd];
      var c := ParseContent(body, tags, level, offset + m.endTag);
      var k := ParseContinuation(text, m.endEnd, tags, level, offset);
      UnfoldLocated(text, tags, level, offset, m);
      ContentErrorAtFailedCall(body, tags, level, offset + m.endTag);
      ContinuationErrorAtFailedCall(text, m.endEnd, tags, level, offset);
      AssembledErrorAtFailedCall(text, tags, level, offset, m, body, offset + m.endTag, c, k);
  }

  /** The call on the whole text fails when its tag cannot be located. */
  lemma WholeTextCall(text: string, tags: seq<string>, level: nat, offset: int)
    requires level < |tags| && Locate(text, tags[level]).None?
    ensures ErrorFromCall(text, tags, level, ParseError(Missing(tags[level]), offset), offset)
  {
    assert text[0..|text|] == text;
    assert FailedCall(text, tags, level, ParseError(Missing(tags[level]), offset), offset, 0, |text|, level);
  }

  /** An error of the assembled node is the interior's or the rest's, each
      lifted to a failed call of the whole text. */
  lemma AssembledErrorAtFailedCall(text: string, tags: seq<string>, level: nat, offset: int, m: Marks,
                                   body: string, inner: int, c: Result<Content>, k: Result<Continuation>)
    requires level < |tags| && Locate(text, tags[level]) == Some(m)
    requires body == text[m.endTag..m.startEnd] && inner == offset + m.endTag
    requires c.Err? ==> level + 1 < |tags|
    requires c.Err? ==> ErrorFromCall(body, tags, level + 1, c.error, inner)
    requires k.Err? ==> Find(text, OpenMarker(tags[level]), m.endEnd, true).Some?
    requires k.Err? ==> ErrorFromCall(text[m.endEnd..], tags, level, k.error, offset + m.endEnd)
    ensures var r := Assemble(text, m, c, k);
            r.Err? ==> ErrorFromCall(text, tags, level, r.error, offset)
  {
    if c.Err? {
      var i: nat, j: nat, t: nat :| FailedCall(body, tags, level + 1, c.error, inner, i, j, t);
      InteriorCall(text, tags, level, m, c.error, offset, i, j, t);
    } else if k.Err? {
      var i: nat, j: nat, t: nat :| FailedCall(text[m.endEnd..], tags, level, k.error, offset + m.endEnd, i, j, t);
      RestCall(text, tags, level, m, k.error, offset, i, j, t);
    }
  }

  lemma {:induction false} ContentErrorAtFailedCall(body: string, tags: seq<string>, level: nat, offset: int)
    requires level < |tags|
    ensures var r := ParseContent(body, tags, level, offset);
            r.Err? ==> ErrorFromCall(body, tags, level + 1, r.error, offset)
    decreases |body|, 1
  {
    if level + 1 < |tags| {
      ErrorAtFailedCall(body, tags, level + 1, offset);
    }
  }

  lemma {:induction false} ContinuationErrorAtFailedCall(text: string, from: nat, tags: seq<string>, level: nat, offset: int)
    requires level < |tags| && 0 < from <= |text|
    ensures var r := ParseContinuation(text, from, tags, level, offset);
            r.Err? ==> Find(text, OpenMarker(tags[level]), from, true).Some?
    ensures var r := ParseContinuation(text, from, tags, level, offset);
            r.Err? ==> ErrorFromCall(text[from..], tags, level, r.error, offset + from)
    decreases |text| - from, 1
  {
    hide Locate, Find, Located;
    if Find(text, OpenMarker(tags[level]), from, true).Some? {
      ErrorAtFailedCall(text[from..], tags, level, offset + from);
    }
  }

  /** A call never reaches past the end of its text, nor above the tag list. */
  lemma {:induction false} VisitsWithin(text: string, tags: seq<string>, level: nat, i: nat, j: nat, k: nat)
    requires Visits(text, tags, level, i, j, k)
    ensures j <= |text| && level <= k < |tags|
    decreases |text|
  {
    hide Locate, Find, Located;
    if !(i == 0 && j == |text| && k == level) {
      var m := Locate(text, tags[level]).value;
      if level + 1 < |tags| && m.endTag <= i
         && Visits(text[m.endTag..m.startEnd], tags, level + 1, i - m.endTag, j - m.endTag, k) {
        VisitsWithin(text[m.endTag..m.startEnd], tags, level + 1, i - m.endTag, j - m.endTag, k);
      } else {
        VisitsWithin(text[m.endEnd..], tags, level, i - m.endEnd, j - m.endEnd, k);
      }
    }
  }

  /** A failing call of a text whose tag is located is a call of the
      interior's parse or of the rest's. */
  lemma SplitUnlocated(text: string, tags: seq<string>, level: nat, m: Marks, i: nat, j: nat, k: nat)
    requires level < |tags| && Locate(text, tags[level]) == Some(m)
    requires Unlocated(text, tags, level, i, j, k)
    ensures i <= j <= |text|
    ensures || (level + 1 < |tags| && m.endTag <= i
                && Visits(text[m.endTag..m.startEnd], tags, level + 1, i - m.endTag, j - m.endTag, k))
            || (Find(text, OpenMarker(tags[level]), m.endEnd, true).Some? && m.endEnd <= i
                && Visits(text[m.endEnd..], tags, level, i - m.endEnd, j - m.endEnd, k))
  {
    hide Locate, Find, Located;
    assert text[0..|text|] == text;
  }

  /** ... and then it fails in the interior's parse. */
  lemma InteriorUnlocated(text: string, tags: seq<string>, level: nat, m: Marks, i: nat, j: nat, k: nat)
    requires level + 1 < |tags| && Locate(text, tags[level]) == Some(m)
    requires Unlocated(text, tags, level, i, j, k) && m.endTag <= i
    requires Visits(text[m.endTag..m.startEnd], tags, level + 1, i - m.endTag, j - m.endTag, k)
    ensures Unlocated(text[m.endTag..m.startEnd], tags, level + 1, i - m.endTag, j - m.endTag, k)
  {
    hide Locate, Find, Located, Visits;
    var body := text[m.endTag..m.startEnd];
    VisitsWithin(body, tags, level + 1, i - m.endTag, j - m.endTag, k);
    forall q | 0 <= q < j - i ensures body[i - m.endTag..j - m.endTag][q] == text[i..j][q] {
      assert body[i - m.endTag..j - m.endTag][q] == body[i - m.endTag + q] == text[i + q];
    }
    assert body[i - m.endTag..j - m.endTag] == text[i..j];
  }

  /** ... or in the rest's parse. */
  lemma RestUnlocated(text: string, tags: seq<string>, level: nat, m: Marks, i: nat, j: nat, k: nat)
    requires level < |tags| && Locate(text, tags[level]) == Some(m)
    requires Unlocated(text, tags, level, i, j, k) && m.endEnd <= i
    requires Visits(text[m.endEnd..], tags, level, i - m.endEnd, j - m.endEnd, k)
    ensures Unlocated(text[m.endEnd..], tags, level, i - m.endEnd, j - m.endEnd, k)
  {
    hide Locate, Find, Located, Visits;
    var rest := text[m.endEnd..];
    VisitsWithin(rest, tags, level, i - m.endEnd, j - m.endEnd, k);
    forall q | 0 <= q < j - i ensures rest[i - m.endEnd..j - m.endEnd][q] == text[i..j][q] {
      assert rest[i - m.endEnd..j - m.endEnd][q] == rest[i - m.endEnd + q] == text[i + q];
    }
    assert rest[i - m.endEnd..j - m.endEnd] == text[i..j];
  }

  /** The parser reports the failing call that starts first: every call
      that fails makes the parse fail, at or before that call's start. The
      interior is parsed before the rest, and everything in the interior
      starts before the rest does. */
  lemma {:induction false} FirstFailedCall(text: string, tags: seq<string>, level: nat, offset: int)
    requires level < |tags|
    ensures ReportedFirst(text, tags, level, ParseLevel(text, tags, level, offset), offset)
    decreases |text|, 0
  {
    hide Locate, Find, Located, Visits, Unlocated;
    hide ParseLevel, ParseContent, ParseContinuation;
    var r := ParseLevel(text, tags, level, offset);
    match Locate(text, tags[level])
    case None =>
      NotLocated(text, tags, level, offset);
    case Some(m) =>
      var body := text[m.endTag..m.startEnd];
      var c := ParseContent(body, tags, level, offset + m.endTag);
      var k := ParseContinuation(text, m.endEnd, tags, level, offset);
      UnfoldLocated(text, tags, level, offset, m);
      ContentFirstFailedCall(body, tags, level, offset + m.endTag);
      ContinuationFirstFailedCall(text, m.endEnd, tags, level, offset);
      forall i: nat, j: nat, t: nat | Unlocated(text, tags, level, i, j, t)
        ensures r.Err? && r.error.offset <= offset + i
      {
        SplitUnlocated(text, tags, level, m, i, j, t);
        if level + 1 < |tags| && m.endTag <= i && Visits(body, tags, level + 1, i - m.endTag, j - m.endTag, t) {
          InteriorUnlocated(text, tags, level, m, i, j, t);
          assert c.Err? && c.error.offset <= offset + m.endTag + (i - m.endTag);
        } else {
          RestUnlocated(text, tags, level, m, i, j, t);
          assert k.Err? && k.error.offset <= offset + m.endEnd + (i - m.endEnd);
        }
      }
  }

  lemma {:induction false} ContentFirstFailedCall(body: string, tags: seq<string>, level: nat, offset: int)
    requires level < |tags|
    ensures level + 1 < |tags| ==> ReportedFirst(body, tags, level + 1, ParseContent(body, tags, level, offset), offset)
    decreases |body|, 1
  {
    if level + 1 < |tags| {
      FirstFailedCall(body, tags, level + 1, offset);
    }
  }

  lemma {:induction false} ContinuationFirstFailedCall(text: string, from: nat, tags: seq<string>, level: nat, offset: int)
    requires level < |tags| && 0 < from <= |text|
    ensures Find(text, OpenMarker(tags[level]), from, true).Some? ==>
              ReportedFirst(text[from..], tags, level, ParseContinuation(text, from, tags, level, offset), offset + from)
    decreases |text| - from, 1
  {
    hide Locate, Find, Located;
    if Find(text, OpenMarker(tags[level]), from, true).Some? {
      FirstFailedCall(text[from..], tags, level, offset + from);
    }
  }
}
