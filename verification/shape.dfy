/** The shape of the trees `create` builds, stated without reference to the
    search algorithm: every node's opening marker is the first one in its
    text, its tag runs to the first `>`, its closing marker is the first one
    after the tag, and the node has `parts` and `more` exactly when the source
    would recurse. Parsing and serialising are inverse to each other between
    the texts that parse and the trees of this shape. */
module ParseShape {
  import opened Wrappers
  import opened Strings
  import opened ParseTree
  import opened Parser

  /** Where the cut points of a node lie in its own serialisation. */
  function NodeMarks(n: Node): (r: Marks)
    ensures r.startTag == |n.leader| && r.endTag == r.startTag + |n.tag|
    ensures r.startEnd == r.endTag + |ContentText(n.content)| && r.endEnd == r.startEnd + |n.end|
    ensures r.endEnd <= |ToString(n)|
  {
    var a := |n.leader|;
    var b := a + |n.tag|;
    var c := b + |ContentText(n.content)|;
    Marks(a, b, c, c + |n.end|)
  }

  /** `n` is a tree that `create(_, tags, level)` can produce: its cut points
      are the first matches in its own text, it has `parts` exactly below the
      last level, and it has `more` exactly when another opening marker of
      the level follows its closing tag; and so on all the way down and
      along. */
  ghost predicate Shaped(n: Node, tags: seq<string>, level: nat)
    decreases n
  {
    && level < |tags|
    && Located(ToString(n), tags[level], NodeMarks(n))
    && (n.content.Parts? <==> level + 1 < |tags|)
    && (n.cont.More? <==> Contains(ContinuationText(n.cont), OpenMarker(tags[level]), true))
    && (n.content.Parts? ==> Shaped(n.content.parts, tags, level + 1))
    && (n.cont.More? ==> Shaped(n.cont.more, tags, level))
  }

  /** Cutting a concatenation of five pieces at their boundaries gives the
      pieces back. */
  lemma CutFive(s: string, p1: string, p2: string, p3: string, p4: string, p5: string)
    requires s == p1 + p2 + p3 + p4 + p5
    ensures var a := |p1|;
            var b := a + |p2|;
            var c := b + |p3|;
            var d := c + |p4|;
            && d <= |s|
            && s[..a] == p1 && s[a..b] == p2 && s[b..c] == p3 && s[c..d] == p4 && s[d..] == p5
  {
    var a := |p1|;
    var b := a + |p2|;
    var c := b + |p3|;
    var d := c + |p4|;
    assert s == (((p1 + p2) + p3) + p4) + p5;
    assert s[..d] == ((p1 + p2) + p3) + p4;
    assert s[..c] == (p1 + p2) + p3;
    assert s[..b] == p1 + p2;
    assert s[a..b] == s[..b][a..];
    assert s[b..c] == s[..c][b..];
    assert s[c..d] == s[..d][c..];
  }

  // -------------------------------------------------------------------
  // Every parse is shaped
  // -------------------------------------------------------------------

  /** A tree produced by a successful parse is shaped. */
  lemma {:induction false} ParseShaped(text: string, tags: seq<string>, level: nat, offset: int)
    requires level < |tags|
    requires ParseLevel(text, tags, level, offset).Ok?
    ensures Shaped(ParseLevel(text, tags, level, offset).value, tags, level)
    decreases |text|, 0
  {
    hide Locate, Find, Located, Shaped, ToString;
    ParseLevelSlices(text, tags, level, offset);
    ParseRoundTrip(text, tags, level, offset);
    var m := Locate(text, tags[level]).value;
    var n := ParseLevel(text, tags, level, offset).value;
    var body := text[m.endTag..m.startEnd];
    ContentRoundTrip(body, tags, level, offset + m.endTag);
    ContinuationRoundTrip(text, m.endEnd, tags, level, offset);
    FindFromMeansContainsSuffix(text, OpenMarker(tags[level]), m.endEnd, true);
    ContentShaped(body, tags, level, offset + m.endTag);
    ContinuationShaped(text, m.endEnd, tags, level, offset);
    hide ParseLevel, ParseContent, ParseContinuation;
    assert NodeMarks(n) == m;
    ShapedFrom(n, tags, level);
  }

  /** One level of `Shaped`, from its parts. */
  lemma ShapedFrom(n: Node, tags: seq<string>, level: nat)
    requires level < |tags|
    requires Located(ToString(n), tags[level], NodeMarks(n))
    requires n.content.Parts? <==> level + 1 < |tags|
    requires n.cont.More? <==> Contains(ContinuationText(n.cont), OpenMarker(tags[level]), true)
    requires n.content.Parts? ==> Shaped(n.content.parts, tags, level + 1)
    requires n.cont.More? ==> Shaped(n.cont.more, tags, level)
    ensures Shaped(n, tags, level)
  {
  }

  lemma {:induction false} ContentShaped(body: string, tags: seq<string>, level: nat, offset: int)
    requires level < |tags|
    requires ParseContent(body, tags, level, offset).Ok?
    ensures var c := ParseContent(body, tags, level, offset).value;
            c.Parts? ==> Shaped(c.parts, tags, level + 1)
    decreases |body|, 1
  {
    if level + 1 < |tags| {
      ParseShaped(body, tags, level + 1, offset);
    }
  }

  lemma {:induction false} ContinuationShaped(text: string, from: nat, tags: seq<string>, level: nat, offset: int)
    requires level < |tags| && 0 < from <= |text|
    requires ParseContinuation(text, from, tags, level, offset).Ok?
    ensures var k := ParseContinuation(text, from, tags, level, offset).value;
            k.More? ==> Shaped(k.more, tags, level)
    decreases |text| - from, 1
  {
    hide Locate, Find, Located;
    if Find(text, OpenMarker(tags[level]), from, true).Some? {
      ParseShaped(text[from..], tags, level, offset + from);
    }
  }

  // -------------------------------------------------------------------
  // Every shaped tree is the parse of its serialisation
  // -------------------------------------------------------------------

  /** The cut points of a node are where its own serialisation puts the
      pieces. */
  lemma NodeCut(n: Node)
    ensures var s := ToString(n);
            var m := NodeMarks(n);
            && s[..m.startTag] == n.leader
            && s[m.startTag..m.endTag] == n.tag
            && s[m.endTag..m.startEnd] == ContentText(n.content)
            && s[m.startEnd..m.endEnd] == n.end
            && s[m.endEnd..] == ContinuationText(n.cont)
  {
    CutFive(ToString(n), n.leader, n.tag, ContentText(n.content), n.end, ContinuationText(n.cont));
  }

  /** The search finds a shaped node's tag where the node says it is. */
  lemma ShapedLocates(n: Node, tags: seq<string>, level: nat)
    requires Shaped(n, tags, level)
    ensures Locate(ToString(n), tags[level]) == Some(NodeMarks(n))
  {
    LocatedUnique(ToString(n), tags[level], NodeMarks(n));
  }

  /** Parsing the serialisation of a shaped tree gives the tree back. */
  lemma {:induction false} ReparseShaped(n: Node, tags: seq<string>, level: nat, offset: int)
    requires Shaped(n, tags, level)
    ensures ParseLevel(ToString(n), tags, level, offset) == Ok(n)
    decreases n, 2
  {
    hide Locate, Find, Located;
    var m := NodeMarks(n);
    ShapedLocates(n, tags, level);
    NodeCut(n);
    ContentReparses(n.content, tags, level, offset + m.endTag);
    ContinuationReparses(ToString(n), m.endEnd, n.cont, tags, level, offset);
    ReparseStep(n, tags, level, offset);
  }

  /** One level of `ReparseShaped`: when the tag is where the node says and
      the interior and the rest parse back to the node's own, so does the
      whole. */
  lemma ReparseStep(n: Node, tags: seq<string>, level: nat, offset: int)
    requires level < |tags|
    requires Locate(ToString(n), tags[level]) == Some(NodeMarks(n))
    requires ParseContent(ContentText(n.content), tags, level, offset + NodeMarks(n).endTag) == Ok(n.content)
    requires ParseContinuation(ToString(n), NodeMarks(n).endEnd, tags, level, offset) == Ok(n.cont)
    ensures ParseLevel(ToString(n), tags, level, offset) == Ok(n)
  {
    hide Locate, Find, Located, ToString, ParseLevel, ParseContent, ParseContinuation, Assemble;
    var s, m := ToString(n), NodeMarks(n);
    NodeCut(n);
    UnfoldLocated(s, tags, level, offset, m);
    AssembleCut(n);
  }

  /** The node cut from its own serialisation at its own marks, with its
      own interior and rest, is the node. */
  lemma AssembleCut(n: Node)
    ensures Assemble(ToString(n), NodeMarks(n), Ok(n.content), Ok(n.cont)) == Ok(n)
  {
    NodeCut(n);
  }

  lemma {:induction false} ContentReparses(c: Content, tags: seq<string>, level: nat, offset: int)
    requires level < |tags|
    requires c.Parts? <==> level + 1 < |tags|
    requires c.Parts? ==> Shaped(c.parts, tags, level + 1)
    ensures ParseContent(ContentText(c), tags, level, offset) == Ok(c)
    decreases c, 1
  {
    if c.Parts? {
      ReparseShaped(c.parts, tags, level + 1, offset);
    }
  }

  lemma {:induction false} ContinuationReparses(text: string, from: nat, k: Continuation, tags: seq<string>,
                                                level: nat, offset: int)
    requires level < |tags| && 0 < from <= |text|
    requires text[from..] == ContinuationText(k)
    requires k.More? <==> Contains(ContinuationText(k), OpenMarker(tags[level]), true)
    requires k.More? ==> Shaped(k.more, tags, level)
    ensures ParseContinuation(text, from, tags, level, offset) == Ok(k)
    decreases k, 1
  {
    hide Locate, Find, Located;
    FindFromMeansContainsSuffix(text, OpenMarker(tags[level]), from, true);
    if k.More? {
      ReparseShaped(k.more, tags, level, offset + from);
    }
  }

  /** The trees `create` builds are exactly the shaped ones: a text parses to
      a tree only if that tree is shaped and serialises to the text, and
      every shaped tree is what its serialisation parses to. */
  lemma ParsesToIffShaped(text: string, n: Node, tags: seq<string>, level: nat, offset: int)
    requires level < |tags|
    ensures ParseLevel(text, tags, level, offset) == Ok(n) <==> Shaped(n, tags, level) && ToString(n) == text
  {
    if ParseLevel(text, tags, level, offset) == Ok(n) {
      ParseShaped(text, tags, level, offset);
      ParseRoundTrip(text, tags, level, offset);
    }
    if Shaped(n, tags, level) && ToString(n) == text {
      ReparseShaped(n, tags, level, offset);
    }
  }

  // -------------------------------------------------------------------
  // `createSimple` builds what `create` reads
  // -------------------------------------------------------------------

  /** Only `<` itself matches `<` under ASCII case folding. */
  lemma SameAsLt(c: char)
    ensures Same(c, '<', true) <==> c == '<'
  {
  }

  /** A leaf node built by `createSimple`, with a tag name free of `>` and a
      body free of `<`, is what `create` makes of its serialisation with that
      one tag name. */
  lemma CreateSimpleParses(name: string, body: string)
    requires forall k :: 0 <= k < |name| ==> name[k] != '>'
    requires forall k :: 0 <= k < |body| ==> body[k] != '<'
    ensures var n := CreateSimple(name, Body(body), None);
            Create(ToString(n), [name]) == Ok(n)
  {
    var n := CreateSimple(name, Body(body), None);
    SimpleShaped(name, body);
    ReparseShaped(n, [name], 0, 0);
  }

  /** Where the pieces of a `createSimple` leaf lie in its serialisation. */
  lemma SimpleLayout(name: string, body: string)
    ensures var n := CreateSimple(name, Body(body), None);
            var s := ToString(n);
            var w := |name|;
            && NodeMarks(n) == Marks(1, w + 3, w + 3 + |body|, 2 * w + |body| + 6)
            && |s| == 2 * w + |body| + 6
            && s[0] == '\n' && s[1] == '<' && s[w + 2] == '>'
            && (forall k :: 0 <= k < w ==> s[k + 2] == name[k])
            && (forall k :: 0 <= k < |body| ==> s[w + 3 + k] == body[k])
            && s[w + 3 + |body|] == '<' && s[w + 4 + |body|] == '/'
            && (forall k :: 0 <= k < w ==> s[w + 5 + |body| + k] == name[k])
            && s[2 * w + |body| + 5] == '>'
  {
    var n := CreateSimple(name, Body(body), None);
    assert ContentText(n.content) == body;
    assert ContinuationText(n.cont) == "";
    var s := ToString(n);
    assert s == ("\n" + ("<" + name + ">")) + (body + ("</" + name + ">"));
    hide ToString, NodeMarks;
    LaidOut(s, name, body);
  }

  /** Where the pieces of `\n<name>body</name>` lie. */
  lemma LaidOut(s: string, name: string, body: string)
    requires s == ("\n" + ("<" + name + ">")) + (body + ("</" + name + ">"))
    ensures var w := |name|;
            && |s| == 2 * w + |body| + 6
            && s[0] == '\n' && s[1] == '<' && s[w + 2] == '>'
            && (forall k :: 0 <= k < w ==> s[k + 2] == name[k])
            && (forall k :: 0 <= k < |body| ==> s[w + 3 + k] == body[k])
            && s[w + 3 + |body|] == '<' && s[w + 4 + |body|] == '/'
            && (forall k :: 0 <= k < w ==> s[w + 5 + |body| + k] == name[k])
            && s[2 * w + |body| + 5] == '>'
  {
  }

  lemma SimpleShaped(name: string, body: string)
    requires forall k :: 0 <= k < |name| ==> name[k] != '>'
    requires forall k :: 0 <= k < |body| ==> body[k] != '<'
    ensures Shaped(CreateSimple(name, Body(body), None), [name], 0)
  {
    var n := CreateSimple(name, Body(body), None);
    SimpleLocated(name, body);
    assert ContinuationText(n.cont) == "";
    assert !Contains("", OpenMarker(name), true);
    hide ToString, NodeMarks, Located, Contains, Shaped;
    ShapedFrom(n, [name], 0);
  }

  /** The cut points of a `createSimple` leaf are where the search finds
      them. */
  lemma SimpleLocated(name: string, body: string)
    requires forall k :: 0 <= k < |name| ==> name[k] != '>'
    requires forall k :: 0 <= k < |body| ==> body[k] != '<'
    ensures var n := CreateSimple(name, Body(body), None);
            Located(ToString(n), name, NodeMarks(n))
  {
    var n := CreateSimple(name, Body(body), None);
    SimpleLayout(name, body);
    var w := |name|;
    var s := ToString(n);
    hide ToString, NodeMarks, CreateSimple;
    forall k | w + 3 <= k < w + 3 + |body| ensures s[k] != '<' {
      assert s[w + 3 + (k - w - 3)] == body[k - w - 3];
    }
    LayoutLocated(s, name, |body|);
  }

  /** A text laid out as a newline, `<name>`, an interior free of `<`, and
      `</name>` has its cut points at the boundaries of those pieces. */
  lemma LayoutLocated(s: string, name: string, len: nat)
    requires forall k :: 0 <= k < |name| ==> name[k] != '>'
    requires |s| == 2 * |name| + len + 6
    requires s[0] == '\n' && s[1] == '<' && s[|name| + 2] == '>'
    requires forall k :: 0 <= k < |name| ==> s[k + 2] == name[k]
    requires forall k :: |name| + 3 <= k < |name| + 3 + len ==> s[k] != '<'
    requires s[|name| + 3 + len] == '<' && s[|name| + 4 + len] == '/'
    requires forall k :: 0 <= k < |name| ==> s[|name| + 5 + len + k] == name[k]
    requires s[2 * |name| + len + 5] == '>'
    ensures var w := |name|;
            Located(s, name, Marks(1, w + 3, w + 3 + len, 2 * w + len + 6))
  {
    var w := |name|;
    var m := Marks(1, w + 3, w + 3 + len, 2 * w + len + 6);
    var open := OpenMarker(name);
    var close := CloseMarker(name);
    // The opening marker is at 1, and not at 0, where the newline is.
    assert MatchesAt(s, open, 1, true) by {
      MatchesAtMeans(s, open, 1, true);
      forall t | 0 <= t < |open| ensures s[1 + t] == open[t] {
        if t > 0 { assert s[1 + t] == s[(t - 1) + 2]; }
      }
    }
    assert forall p: nat :: p < 1 ==> !MatchesAt(s, open, p, true) by {
      MatchesAtMeans(s, open, 0, true);
      SameAsLt(s[0]);
    }
    // The tag runs to the first `>`.
    assert FirstGtFrom(s, 1, w + 2) by {
      forall k | 1 <= k < w + 2 ensures s[k] != '>' {
        if k >= 2 { assert s[(k - 2) + 2] == name[k - 2]; }
      }
    }
    // The closing marker follows the interior, which holds no `<`.
    assert MatchesAt(s, close, m.startEnd, true) by {
      MatchesAtMeans(s, close, m.startEnd, true);
      forall t | 0 <= t < |close| ensures s[m.startEnd + t] == close[t] {
        if t > 1 { assert s[m.startEnd + t] == s[w + 5 + len + (t - 2)]; }
      }
    }
    assert forall p: nat :: m.endTag <= p < m.startEnd ==> !MatchesAt(s, close, p, true) by {
      forall p: nat | m.endTag <= p < m.startEnd ensures !MatchesAt(s, close, p, true) {
        MatchesAtMeans(s, close, p, true);
        SameAsLt(s[p]);
      }
    }
    // The closing tag runs to the first `>`.
    assert FirstGtFrom(s, m.startEnd, m.endEnd - 1) by {
      forall k | m.startEnd <= k < m.endEnd - 1 ensures s[k] != '>' {
        if k >= m.startEnd + 2 { assert s[w + 5 + len + (k - m.startEnd - 2)] == name[k - m.startEnd - 2]; }
      }
    }
  }
}
