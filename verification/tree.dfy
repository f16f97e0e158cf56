/** The parse tree of `PhpFit_Parse`: one node per matched tag occurrence,
    holding the verbatim text around it, and its navigation and mutation
    operations.

    The source keeps two nullable pairs per node, `body`/`parts` and
    `trailer`/`more`, exactly one of each set. Here each pair is a two-case
    sum type, so a node with both or neither cannot be built. */
module ParseTree {
  import opened Wrappers

  /** One matched occurrence of a tag: the text before it, the opening tag,
      what lies inside, the closing tag, and what follows. */
  datatype Node = Node(leader: string, tag: string, content: Content, end: string, cont: Continuation)

  /** Inside a tag: raw text at the last nesting level, otherwise the chain
      of nodes of the next level. */
  datatype Content = Body(body: string) | Parts(parts: Node)

  /** After a tag: raw text when it is the last of its chain, otherwise the
      next sibling. */
  datatype Continuation = Trailer(trailer: string) | More(more: Node)

  // -------------------------------------------------------------------
  // Serialisation (`toString`)
  // -------------------------------------------------------------------

  /** Concatenation of leader, tag, content, end and continuation. */
  function ToString(n: Node): string
    decreases n, 2
  {
    n.leader + n.tag + ContentText(n.content) + n.end + ContinuationText(n.cont)
  }

  /** The body, or the serialised `parts` chain standing in for it. */
  function ContentText(c: Content): string
    decreases c, 1
  {
    match c
    case Body(b) => b
    case Parts(p) => ToString(p)
  }

  /** The trailer, or the serialised `more` chain standing in for it. */
  function ContinuationText(c: Continuation): string
    decreases c, 1
  {
    match c
    case Trailer(t) => t
    case More(m) => ToString(m)
  }

  // -------------------------------------------------------------------
  // Navigation (`size`, `last`, `leaf`, `at`)
  // -------------------------------------------------------------------

  /** The sibling chain that starts at `n`, as a sequence: `n` itself, then
      every node reached through `more`. */
  function Siblings(n: Node): (r: seq<Node>)
    ensures |r| >= 1 && r[0] == n
    ensures forall k :: 0 <= k < |r| - 1 ==> r[k].cont.More? && r[k].cont.more == r[k + 1]
    ensures r[|r| - 1].cont.Trailer?
  {
    match n.cont
    case Trailer(_) => [n]
    case More(m) => [n] + Siblings(m)
  }

  /** `size()`: the number of nodes in the chain starting here. */
  function Size(n: Node): (r: nat)
    ensures r == |Siblings(n)|
    ensures r >= 1
    ensures n.cont.More? ==> r == 1 + Size(n.cont.more)
  {
    match n.cont
    case Trailer(_) => 1
    case More(m) => Size(m) + 1
  }

  /** `last()`: the end of the chain. */
  function Last(n: Node): (r: Node)
    ensures r.cont.Trailer?
    ensures r == Siblings(n)[Size(n) - 1]
  {
    match n.cont
    case Trailer(_) => n
    case More(m) => Last(m)
  }

  /** `leaf()`: descend through `parts` until a node holds a body. */
  function Leaf(n: Node): (r: Node)
    ensures r.content.Body?
    ensures n.content.Body? ==> r == n
    ensures n.content.Parts? ==> r == Leaf(n.content.parts)
  {
    match n.content
    case Body(_) => n
    case Parts(p) => Leaf(p)
  }

  /** `at(i)`: the `i`-th node of the chain; an index past the end, or a
      negative one (the source tests only `i == 0` before stepping on), gives
      the last node. */
  function At(n: Node, i: int): (r: Node)
    ensures r == Siblings(n)[if 0 <= i < Size(n) then i else Size(n) - 1]
    decreases n
  {
    if i == 0 then n
    else match n.cont
      case Trailer(_) => n
      case More(m) => SiblingsShift(n, i); At(m, i - 1)
  }

  /** Past the first node, the chain's `i`-th node is the next node's
      `(i - 1)`-th, the clamping to the last node included. */
  lemma SiblingsShift(n: Node, i: int)
    requires n.cont.More? && i != 0
    ensures var m := n.cont.more;
            Siblings(n)[if 0 <= i < Size(n) then i else Size(n) - 1]
            == Siblings(m)[if 0 <= i - 1 < Size(m) then i - 1 else Size(m) - 1]
  {
    var m := n.cont.more;
    assert Siblings(n) == [n] + Siblings(m);
  }

  /** `at(i, j)`: the `j`-th node one level below the `i`-th node. The source
      dereferences `parts` without a check, so the `i`-th node must have one. */
  function At2(n: Node, i: int, j: int): Node
    requires At(n, i).content.Parts?
  {
    At(At(n, i).content.parts, j)
  }

  /** `at(i, j, k)`: the `k`-th node below `at(i, j)`. */
  function At3(n: Node, i: int, j: int, k: int): Node
    requires At(n, i).content.Parts?
    requires At2(n, i, j).content.Parts?
  {
    At(At2(n, i, j).content.parts, k)
  }

  // -------------------------------------------------------------------
  // Mutation (`addToTag`, `addToBody`) and construction (`createSimple`)
  // -------------------------------------------------------------------

  /** `addToTag(t)`: `t` goes in front of the tag's final character, and the
      tag is closed with `>`. On an empty tag PHP's `substr` yields `false`,
      which reads as the empty string. */
  function AddToTag(n: Node, t: string): (r: Node)
    ensures r.leader == n.leader && r.content == n.content && r.end == n.end && r.cont == n.cont
    ensures |r.tag| == |t| + if |n.tag| > 0 then |n.tag| else 1
    ensures r.tag[|r.tag| - 1] == '>'
    ensures |n.tag| > 0 ==> r.tag[..|n.tag| - 1] == n.tag[..|n.tag| - 1]
    ensures r.tag[|r.tag| - 1 - |t|..|r.tag| - 1] == t
  {
    var kept := if |n.tag| > 0 then n.tag[..|n.tag| - 1] else "";
    n.(tag := kept + t + ">")
  }

  /** Appending to the opening tag of a tag that ends in `>` inserts the text
      into the serialisation just before that `>`. */
  lemma AddToTagInserts(n: Node, t: string)
    requires |n.tag| > 0 && n.tag[|n.tag| - 1] == '>'
    ensures var s := ToString(n);
            var k := |n.leader| + |n.tag| - 1;
            k <= |s| && ToString(AddToTag(n, t)) == s[..k] + t + s[k..]
  {
    hide ToString, ContentText, ContinuationText, AddToTag;
    var kept := n.tag[..|n.tag| - 1];
    var m := AddToTag(n, t);
    var rest := ContentText(n.content) + n.end + ContinuationText(n.cont);
    TagSpelled(n, t);
    ToStringSplit(n);
    AddedTagText(n, t);
    var k := |n.leader| + |n.tag| - 1;
    assert |kept| == |n.tag| - 1;
    InsertBefore(ToString(n), ToString(m), n.leader, kept, t, rest, k);
  }

  /** The tag before and after appending, spelled out. */
  lemma TagSpelled(n: Node, t: string)
    requires |n.tag| > 0 && n.tag[|n.tag| - 1] == '>'
    ensures var kept := n.tag[..|n.tag| - 1];
            n.tag == kept + ">" && AddToTag(n, t).tag == kept + t + ">"
  {
    var kept := n.tag[..|n.tag| - 1];
    assert n.tag == kept + [n.tag[|n.tag| - 1]];
  }

  /** The serialisation after appending to the tag. */
  lemma AddedTagText(n: Node, t: string)
    requires |n.tag| > 0
    ensures ToString(AddToTag(n, t))
            == n.leader + (n.tag[..|n.tag| - 1] + t + ">") + (ContentText(n.content) + n.end + ContinuationText(n.cont))
  {
    ToStringSplit(AddToTag(n, t));
  }

  /** The serialisation as leader, tag and the rest. */
  lemma ToStringSplit(n: Node)
    ensures ToString(n) == n.leader + n.tag + (ContentText(n.content) + n.end + ContinuationText(n.cont))
  {
  }

  /** Text inserted before the last character of the middle piece. */
  lemma InsertBefore(s: string, s': string, a: string, kept: string, t: string, rest: string, k: nat)
    requires s == a + (kept + ">") + rest && s' == a + (kept + t + ">") + rest
    requires k == |a| + |kept|
    ensures k <= |s| && s' == s[..k] + t + s[k..]
  {
    assert s == (a + kept) + (">" + rest);
    assert s[..k] == a + kept && s[k..] == ">" + rest;
  }

  /** `addToBody(t)`: append to the body of a leaf node. On a node with
      `parts` the source writes a body that serialisation never shows; the
      model admits leaf nodes only. */
  function AddToBody(n: Node, t: string): (r: Node)
    requires n.content.Body?
    ensures r.leader == n.leader && r.tag == n.tag && r.end == n.end && r.cont == n.cont
    ensures r.content.Body? && |r.content.body| == |n.content.body| + |t|
    ensures r.content.body[..|n.content.body|] == n.content.body
    ensures r.content.body[|n.content.body|..] == t
  {
    n.(content := Body(n.content.body + t))
  }

  /** Appending to a leaf's body inserts the text into the serialisation just
      before the closing tag. */
  lemma AddToBodyInserts(n: Node, t: string)
    requires n.content.Body?
    ensures var s := ToString(n);
            var k := |n.leader| + |n.tag| + |n.content.body|;
            k <= |s| && ToString(AddToBody(n, t)) == s[..k] + t + s[k..]
  {
    var s := ToString(n);
    var a, b := n.leader + n.tag, n.content.body;
    var back := n.end + ContinuationText(n.cont);
    var m := AddToBody(n, t);
    assert ContentText(n.content) == b && ContentText(m.content) == b + t;
    assert s == a + b + n.end + ContinuationText(n.cont);
    assert ToString(m) == a + (b + t) + n.end + ContinuationText(n.cont);
    hide ToString, AddToBody;
    InsertAfter(a, b, t, n.end, ContinuationText(n.cont));
  }

  /** Text inserted after the second of four pieces. */
  lemma InsertAfter(a: string, b: string, t: string, c: string, d: string)
    ensures var s := a + b + c + d;
            var k := |a| + |b|;
            k <= |s| && s[..k] + t + s[k..] == a + (b + t) + c + d
  {
    var s := a + b + c + d;
    var k := |a| + |b|;
    assert s == (a + b) + (c + d);
    assert s[..k] == a + b && s[k..] == c + d;
  }

  /** `createSimple(tag, body, parts, more)`: a node with a newline leader,
      `<tag>`/`</tag>` around the content, and an empty trailer when no
      sibling follows. */
  function CreateSimple(name: string, content: Content, more: Option<Node>): Node {
    Node("\n", "<" + name + ">", content, "</" + name + ">",
         match more
         case None => Trailer("")
         case Some(m) => More(m))
  }
}
