// `normalizeLineBreaks` (Parse.php lines 202-207): two `preg_replace`
// passes that turn every HTML line break into the canonical `<br />`.
//
// The first pass rewrites `<\s*br\s*/?\s*>`, the second
// `<\s*/\s*p\s*>\s*<\s*p( .*?)?>` (a closing paragraph followed by an
// opening one). Both patterns are case-sensitive. Each is modelled as a
// deterministic scanner, and each scanner is proved to match exactly the
// texts a declarative description of its pattern admits.
module LineBreaks {
  import opened Wrappers
  import opened Strings
  import opened Whitespace

  // -------------------------------------------------------------------
  // Skipping whitespace between the literal characters of a pattern
  // -------------------------------------------------------------------

  /** The first index at or after `i` that does not hold whitespace. */
  function SkipFrom(s: string, i: nat): (j: nat)
    requires i <= |s|
    ensures i <= j <= |s|
    ensures forall k :: i <= k < j ==> IsSpace(s[k])
    ensures j < |s| ==> !IsSpace(s[j])
    decreases |s| - i
  {
    if i < |s| && IsSpace(s[i]) then SkipFrom(s, i + 1) else i
  }

  /** `\s*c1\s*c2…\s*cn` from index `i`: the characters of `cs` in turn,
      each after optional whitespace; the index just past the last one. */
  function Walk(s: string, i: nat, cs: string): (r: Option<nat>)
    requires i <= |s|
    ensures r.Some? ==> i + |cs| <= r.value <= |s|
    decreases |cs|
  {
    if |cs| == 0 then Some(i)
    else
      var j := SkipFrom(s, i);
      if j < |s| && s[j] == cs[0] then Walk(s, j + 1, cs[1..]) else None
  }

  predicate NoSpace(cs: string) {
    forall k :: 0 <= k < |cs| ==> !IsSpace(cs[k])
  }

  /** A walk over `cs` ends at `j` exactly when `s[i..j]` is `cs` with
      whitespace mixed in and ends with the last character of `cs`. */
  lemma {:induction false} WalkMeans(s: string, i: nat, cs: string, j: nat)
    requires i <= j <= |s| && |cs| > 0 && NoSpace(cs)
    ensures Walk(s, i, cs) == Some(j) <==> i < j && NonSpace(s[i..j]) == cs && s[j - 1] == cs[|cs| - 1]
    decreases |cs|, 1
  {
    var k := SkipFrom(s, i);
    if j <= k {
      NonSpaceEmpty(s[i..j]);
      WalkPastSpace(s, i, cs);
    } else {
      SplitAtFirst(s, i, k, j);
      WalkUnfold(s, i, cs);
      WalkTail(s, k, cs, j);
      var n := NonSpace(s[k + 1..j]);
      hide Walk, NonSpace;
      ConsEq(s[k], n, cs);
    }
  }

  /** After its first character, a walk ends at `j` exactly when the rest
      of the pattern, with whitespace mixed in, ends there. */
  lemma {:induction false} WalkTail(s: string, k: nat, cs: string, j: nat)
    requires k < j <= |s| && |cs| > 0 && NoSpace(cs)
    ensures s[k] == cs[0] ==>
      (Walk(s, k + 1, cs[1..]) == Some(j) <==> NonSpace(s[k + 1..j]) == cs[1..] && s[j - 1] == cs[|cs| - 1])
    decreases |cs|, 0
  {
    var rest := cs[1..];
    if s[k] != cs[0] {
    } else if |cs| == 1 {
      WalkLast(s, k, cs[0], j);
    } else {
      assert NoSpace(rest) by {
        forall t | 0 <= t < |rest| ensures !IsSpace(rest[t]) {
          assert rest[t] == cs[t + 1];
        }
      }
      WalkMeans(s, k + 1, rest, j);
      assert rest[|rest| - 1] == cs[|cs| - 1];
      if k + 1 == j {
        NonSpaceEmpty(s[k + 1..j]);
      }
    }
  }

  /** One step of a walk: skip whitespace, match the first character, walk
      the rest. */
  lemma WalkUnfold(s: string, i: nat, cs: string)
    requires i <= |s| && |cs| > 0
    ensures var k := SkipFrom(s, i);
      Walk(s, i, cs) == if k < |s| && s[k] == cs[0] then Walk(s, k + 1, cs[1..]) else None
  {
  }

  /** A walk ends beyond the whitespace it skips first. */
  lemma WalkPastSpace(s: string, i: nat, cs: string)
    requires i <= |s| && |cs| > 0
    ensures Walk(s, i, cs).Some? ==> Walk(s, i, cs).value > SkipFrom(s, i)
  {
  }

  /** The last step of a walk, at a character `c` that is not whitespace:
      the walk ends at `j` exactly when only whitespace follows `c` up to
      `j` and `s[j - 1]` is `c`. */
  lemma WalkLast(s: string, k: nat, c: char, j: nat)
    requires k < j <= |s| && !IsSpace(c) && s[k] == c
    ensures Walk(s, k + 1, "") == Some(j) <==> NonSpace(s[k + 1..j]) == "" && s[j - 1] == c
  {
    if j > k + 1 && NonSpace(s[k + 1..j]) == "" {
      NonSpaceEmpty(s[k + 1..j]);
      assert IsSpace(s[k + 1..j][j - 1 - (k + 1)]);
    }
  }

  /** A text opens with `c` and continues with `x` exactly when its head
      is `c` and its tail `x`. */
  lemma ConsEq(c: char, x: string, cs: string)
    requires |cs| > 0
    ensures [c] + x == cs <==> c == cs[0] && x == cs[1..]
  {
    if c == cs[0] && x == cs[1..] {
      assert [cs[0]] + cs[1..] == cs;
    }
  }

  /** Splitting off the leading whitespace and the first other character. */
  lemma SplitAtFirst(s: string, i: nat, k: nat, j: nat)
    requires i <= k < j <= |s|
    requires forall t :: i <= t < k ==> IsSpace(s[t])
    requires !IsSpace(s[k])
    ensures NonSpace(s[i..j]) == [s[k]] + NonSpace(s[k + 1..j])
  {
    NonSpaceEmpty(s[i..k]);
    assert s[i..j] == s[i..k] + ([s[k]] + s[k + 1..j]);
    NonSpaceAppend(s[i..k], [s[k]] + s[k + 1..j]);
    NonSpaceAppend([s[k]], s[k + 1..j]);
    assert NonSpace([s[k]]) == [s[k]];
  }

  /** A walk that succeeds starts with the first character of `cs`. */
  lemma WalkStartsWith(s: string, i: nat, cs: string)
    requires i <= |s| && |cs| > 0 && Walk(s, i, cs).Some?
    ensures SkipFrom(s, i) < |s| && s[SkipFrom(s, i)] == cs[0]
  {
  }

  // -------------------------------------------------------------------
  // The two patterns
  // -------------------------------------------------------------------

  // `<\s*br\s*/?\s*>` at the start of `s`: the length of the match. An
  // optional slash is tried first, as the greedy `/?` does.
  function BreakTagAt(s: string): (r: Option<nat>)
    ensures r.Some? ==> 0 < r.value <= |s|
  {
    if |s| == 0 || s[0] != '<' then None
    else match Walk(s, 1, "b")
      case None => None
      case Some(j) =>
        if j < |s| && s[j] == 'r' then
          match Walk(s, j + 1, "/>")
          case Some(e) => Some(e)
          case None => Walk(s, j + 1, ">")
        else None
  }

  // What `<\s*br\s*/?\s*>` matches, described without scanning: a text
  // from `<` to `>` whose non-whitespace characters spell `<br>` or
  // `<br/>`, with `b` and `r` adjacent.
  ghost predicate IsBreakTag(t: string) {
    && |t| > 0 && t[0] == '<' && t[|t| - 1] == '>'
    && (NonSpace(t) == "<br>" || NonSpace(t) == "<br/>")
    && exists p :: 0 <= p < |t| - 1 && t[p] == 'b' && t[p + 1] == 'r'
  }

  /** The scanner matches exactly the break tags. */
  lemma BreakTagAtMeans(s: string, n: nat)
    ensures BreakTagAt(s) == Some(n) <==> 0 < n <= |s| && IsBreakTag(s[..n])
  {
    if BreakTagAt(s) == Some(n) {
      BreakTagFound(s, n);
    }
    if 0 < n <= |s| && IsBreakTag(s[..n]) {
      BreakTagScanned(s, n);
    }
  }

  lemma BreakTagFound(s: string, n: nat)
    requires BreakTagAt(s) == Some(n)
    ensures 0 < n <= |s| && IsBreakTag(s[..n])
  {
    var j, y := BreakTagSteps(s, n);
    hide Walk, BreakTagAt;
    WalkMeans(s, 1, "b", j);
    WalkMeans(s, j + 1, y, n);
    var t := s[..n];
    assert t[1..j] == s[1..j] && t[j + 1..] == s[j + 1..n];
    BreakTagSpelled(t, j, y);
  }

  /** The walks a successful scan makes. */
  lemma BreakTagSteps(s: string, n: nat) returns (j: nat, y: string)
    requires BreakTagAt(s) == Some(n)
    ensures 0 < |s| && s[0] == '<' && 1 <= j < n <= |s| && s[j] == 'r'
    ensures Walk(s, 1, "b") == Some(j) && Walk(s, j + 1, y) == Some(n)
    ensures (y == ">" || y == "/>") && NoSpace(y)
  {
    j := Walk(s, 1, "b").value;
    y := if Walk(s, j + 1, "/>").Some? then "/>" else ">";
  }

  /** The pieces a successful scan walks over spell a break tag. */
  lemma BreakTagSpelled(t: string, j: nat, y: string)
    requires 1 < j < |t| && t[0] == '<' && t[j] == 'r' && t[j - 1] == 'b'
    requires NonSpace(t[1..j]) == "b" && NonSpace(t[j + 1..]) == y
    requires t[|t| - 1] == '>' && (y == ">" || y == "/>")
    ensures IsBreakTag(t)
  {
    assert t == [t[0]] + t[1..j] + [t[j]] + t[j + 1..];
    NonSpaceAppend([t[0]] + t[1..j] + [t[j]], t[j + 1..]);
    NonSpaceAppend([t[0]] + t[1..j], [t[j]]);
    NonSpaceAppend([t[0]], t[1..j]);
    assert NonSpace([t[0]]) == "<";
    assert NonSpace([t[j]]) == "r";
    assert NonSpace(t) == "<br" + y;
  }

  lemma BreakTagScanned(s: string, n: nat)
    requires 0 < n <= |s| && IsBreakTag(s[..n])
    ensures BreakTagAt(s) == Some(n)
  {
    var p, y := BreakTagParts(s, n);
    hide NonSpace, IsBreakTag, Walk, BreakTagAt;
    WalkMeans(s, 1, "b", p + 1);
    WalkMeans(s, p + 2, y, n);
    if y == ">" && Walk(s, p + 2, "/>").Some? {
      WalkStartsWith(s, p + 2, "/>");
      WalkStartsWith(s, p + 2, ">");
    }
    BreakTagAtWalks(s, p + 1, y, n);
  }

  /** The scan, step by step: `<`, a walk to `b`, an adjacent `r`, and a
      walk over the tail. */
  lemma BreakTagAtWalks(s: string, j: nat, y: string, n: nat)
    requires 0 < |s| && s[0] == '<' && j < |s| && s[j] == 'r'
    requires Walk(s, 1, "b") == Some(j) && Walk(s, j + 1, y) == Some(n)
    requires y == "/>" || (y == ">" && Walk(s, j + 1, "/>").None?)
    ensures BreakTagAt(s) == Some(n)
  {
    hide Walk;
  }

  /** Where the `b` of a break tag is, and what its tail spells. */
  lemma BreakTagParts(s: string, n: nat) returns (p: nat, y: string)
    requires 0 < n <= |s| && IsBreakTag(s[..n])
    ensures 0 < p && p + 1 < n && s[0] == '<' && s[p] == 'b' && s[p + 1] == 'r'
    ensures NonSpace(s[1..p + 1]) == "b" && NonSpace(s[p + 2..n]) == y
    ensures (y == ">" || y == "/>") && NoSpace(y) && s[n - 1] == '>'
  {
    var t := s[..n];
    p :| 0 <= p < |t| - 1 && t[p] == 'b' && t[p + 1] == 'r';
    assert t[0] == '<' && t[|t| - 1] == '>';
    y := BreakTagSpelling(t, p);
    hide IsBreakTag, NonSpace;
    assert s[1..p + 1] == t[1..p + 1];
    assert s[p + 2..n] == t[p + 2..];
    ClosingNoSpace(y);
  }

  /** What follows the `r` of a break tag holds no whitespace. */
  lemma ClosingNoSpace(y: string)
    requires y == ">" || y == "/>"
    ensures NoSpace(y)
  {
  }

  /** In a break tag the `b` comes right after `<` and whitespace, and what
      follows the `r` spells `>` or `/>`. */
  lemma BreakTagSpelling(t: string, p: nat) returns (y: string)
    requires IsBreakTag(t) && p + 1 < |t| && t[p] == 'b' && t[p + 1] == 'r'
    ensures 0 < p && NonSpace(t[1..p + 1]) == "b"
    ensures (y == ">" || y == "/>") && NonSpace(t[p + 2..]) == y
  {
    assert p > 0;
    assert NonSpace(t) == "<br>" || NonSpace(t) == "<br/>";
    BreakTagPieces(t, p);
    BeforeB(t, p);
    var z := NonSpace(t[1..p]);
    y := NonSpace(t[p + 2..]);
    hide NonSpace, IsBreakTag;
    BreakSpelling(z, y);
  }

  /** The non-whitespace of a text opening with `<` and holding `br` at
      `p`, piece by piece. */
  lemma BreakTagPieces(t: string, p: nat)
    requires 0 < p && p + 1 < |t| && t[0] == '<' && t[p] == 'b' && t[p + 1] == 'r'
    ensures NonSpace(t) == "<" + NonSpace(t[1..p]) + "br" + NonSpace(t[p + 2..])
  {
    var h, m, z := [t[0]], t[1..p], t[p + 2..];
    assert NonSpace(h) == "<";
    assert NonSpace("br") == "br";
    SplitFour(t, p);
    assert t[p..p + 2] == "br";
    hide NonSpace;
    NonSpaceAppend(h + m + "br", z);
    NonSpaceAppend(h + m, "br");
    NonSpaceAppend(h, m);
  }

  lemma SplitFour(t: string, p: nat)
    requires 0 < p && p + 2 <= |t|
    ensures t == [t[0]] + t[1..p] + t[p..p + 2] + t[p + 2..]
  {
  }

  /** The non-whitespace up to and including the `b` at `p`. */
  lemma BeforeB(t: string, p: nat)
    requires 0 < p < |t| && t[p] == 'b'
    ensures NonSpace(t[1..p + 1]) == NonSpace(t[1..p]) + "b"
  {
    assert t[1..p + 1] == t[1..p] + [t[p]];
    NonSpaceAppend(t[1..p], [t[p]]);
    assert NonSpace([t[p]]) == "b";
  }

  /** Of the spellings `<` + z + `br` + y, only an empty z with y `>` or
      `/>` gives `<br>` or `<br/>`. */
  lemma BreakSpelling(z: string, y: string)
    requires "<" + z + "br" + y == "<br>" || "<" + z + "br" + y == "<br/>"
    ensures |z| == 0 && (y == ">" || y == "/>")
  {
    var w := "<" + z + "br" + y;
    assert w[1 + |z|] == 'b';
    assert forall k :: 1 < k < |w| ==> w[k] != 'b';
    assert y == w[3..];
  }

  // `<\s*/\s*p\s*>\s*<\s*p( .*?)?>` at the start of `s`: after the second
  // `p` either `>` closes the match at once, or a space opens an attribute
  // list that the lazy `.*?` ends at the first `>`.
  function ParagraphBreakAt(s: string): (r: Option<nat>)
    ensures r.Some? ==> 0 < r.value <= |s|
  {
    if |s| == 0 || s[0] != '<' then None
    else match Walk(s, 1, "/p><p")
      case None => None
      case Some(k) =>
        if k < |s| && s[k] == '>' then Some(k + 1)
        else if k < |s| && s[k] == ' ' then
          match Find(s, ">", k + 1, false)
          case Some(g) => Some(g + 1)
          case None => None
        else None
  }

  /** What may follow the second `p`: `>` alone, or a space, anything but
      `>`, and then `>`. */
  predicate AttributeTail(u: string) {
    && |u| > 0 && u[|u| - 1] == '>'
    && (|u| == 1 || (u[0] == ' ' && forall j :: 0 <= j < |u| - 1 ==> u[j] != '>'))
  }

  /** What the paragraph pattern matches, described without scanning: `<`,
      then up to a `p` the non-whitespace characters `/p><p`, then an
      attribute tail. */
  ghost predicate IsParagraphBreak(t: string) {
    && |t| > 0 && t[0] == '<'
    && exists k :: 1 < k < |t| && t[k - 1] == 'p' && NonSpace(t[1..k]) == "/p><p" && AttributeTail(t[k..])
  }

  /** The scanner matches exactly the paragraph breaks. */
  lemma ParagraphBreakAtMeans(s: string, n: nat)
    ensures ParagraphBreakAt(s) == Some(n) <==> 0 < n <= |s| && IsParagraphBreak(s[..n])
  {
    if ParagraphBreakAt(s) == Some(n) {
      ParagraphBreakFound(s, n);
    }
    if 0 < n <= |s| && IsParagraphBreak(s[..n]) {
      ParagraphBreakScanned(s, n);
    }
  }

  lemma ParagraphBreakFound(s: string, n: nat)
    requires ParagraphBreakAt(s) == Some(n)
    ensures 0 < n <= |s| && IsParagraphBreak(s[..n])
  {
    var k := ParagraphSteps(s, n);
    hide Walk, ParagraphBreakAt, Find;
    WalkMeans(s, 1, "/p><p", k);
    TailFound(s, k, n);
    ParagraphAssembled(s, k, n);
  }

  /** The walk a successful paragraph scan makes, and what it then reads. */
  lemma ParagraphSteps(s: string, n: nat) returns (k: nat)
    requires ParagraphBreakAt(s) == Some(n)
    ensures 0 < |s| && s[0] == '<' && 1 <= k < n <= |s| && Walk(s, 1, "/p><p") == Some(k)
    ensures (s[k] == '>' && n == k + 1) || (s[k] == ' ' && Find(s, ">", k + 1, false) == Some(n - 1))
  {
    k := Walk(s, 1, "/p><p").value;
  }

  /** The pieces a successful paragraph scan reads make up a paragraph
      break. */
  lemma ParagraphAssembled(s: string, k: nat, n: nat)
    requires 1 < k < n <= |s| && s[0] == '<' && s[k - 1] == 'p'
    requires NonSpace(s[1..k]) == "/p><p" && AttributeTail(s[k..n])
    ensures IsParagraphBreak(s[..n])
  {
    var t := s[..n];
    assert t[1..k] == s[1..k] && t[k..] == s[k..n];
    assert t[k - 1] == 'p';
  }

  /** What the scan accepts after the second `p` is an attribute tail. */
  lemma TailFound(s: string, k: nat, n: nat)
    requires k < n <= |s|
    requires (s[k] == '>' && n == k + 1) || (s[k] == ' ' && Find(s, ">", k + 1, false) == Some(n - 1))
    ensures AttributeTail(s[k..n])
  {
    var u := s[k..n];
    if s[k] != '>' {
      CharMatches(s, '>');
      assert s[n - 1] == '>';
      forall j | 0 <= j < |u| - 1 ensures u[j] != '>' {
        assert u[j] == s[k + j];
        if j > 0 {
          assert !MatchesAt(s, ">", k + j, false);
        }
      }
    }
  }

  lemma ParagraphBreakScanned(s: string, n: nat)
    requires 0 < n <= |s| && IsParagraphBreak(s[..n])
    ensures ParagraphBreakAt(s) == Some(n)
  {
    var k := ParagraphParts(s, n);
    hide NonSpace, IsParagraphBreak, Walk, ParagraphBreakAt;
    WalkMeans(s, 1, "/p><p", k);
    TailScanned(s, k, n);
    ParagraphBreakAtWalks(s, k, n);
  }

  /** Where the second `p` of a paragraph break ends. */
  lemma ParagraphParts(s: string, n: nat) returns (k: nat)
    requires 0 < n <= |s| && IsParagraphBreak(s[..n])
    ensures 1 < k < n && s[0] == '<' && s[k - 1] == 'p'
    ensures NonSpace(s[1..k]) == "/p><p" && AttributeTail(s[k..n])
  {
    var t := s[..n];
    k :| 1 < k < |t| && t[k - 1] == 'p' && NonSpace(t[1..k]) == "/p><p" && AttributeTail(t[k..]);
    hide NonSpace, AttributeTail;
    assert forall q | 0 <= q < k - 1 :: s[1..k][q] == t[1..k][q];
    assert s[1..k] == t[1..k];
    assert forall q | 0 <= q < n - k :: s[k..n][q] == t[k..][q];
    assert s[k..n] == t[k..];
  }

  /** An attribute tail is what the scan accepts after the second `p`. */
  lemma TailScanned(s: string, k: nat, n: nat)
    requires k < n <= |s| && AttributeTail(s[k..n])
    ensures (s[k] == '>' && n == k + 1) || (s[k] == ' ' && Find(s, ">", k + 1, false) == Some(n - 1))
  {
    var u := s[k..n];
    if |u| > 1 {
      CharMatches(s, '>');
      assert s[k] == u[0] == ' ';
      assert MatchesAt(s, ">", n - 1, false);
      forall q | k + 1 <= q < n - 1 ensures !MatchesAt(s, ">", q, false) {
        assert s[q] == u[q - k];
      }
    } else {
      assert s[k] == u[0];
    }
  }

  /** The paragraph scan, step by step. */
  lemma ParagraphBreakAtWalks(s: string, k: nat, n: nat)
    requires 0 < |s| && s[0] == '<' && Walk(s, 1, "/p><p") == Some(k) && k < |s|
    requires (s[k] == '>' && n == k + 1) || (s[k] == ' ' && Find(s, ">", k + 1, false) == Some(n - 1))
    ensures ParagraphBreakAt(s) == Some(n)
  {
    hide Walk, Find;
  }

  // -------------------------------------------------------------------
  // The two `preg_replace` passes
  // -------------------------------------------------------------------

  datatype Pattern = BreakTag | ParagraphBreak

  /** The canonical line break both passes write. */
  const LineBreak: string := "<br />"

  function MatchAt(p: Pattern, s: string): (r: Option<nat>)
    ensures r.Some? ==> 0 < r.value <= |s| && s[0] == '<'
  {
    match p
    case BreakTag => BreakTagAt(s)
    case ParagraphBreak => ParagraphBreakAt(s)
  }

  /** `preg_replace($pattern, '<br />', $s)`: the pattern is tried at each
      position from the left; a match is replaced and scanning resumes after
      it, otherwise the character is kept. Text without `<` is left as it
      is. */
  function ReplaceMatches(p: Pattern, s: string): (r: string)
    decreases |s|
  {
    if |s| == 0 then ""
    else match MatchAt(p, s)
      case Some(n) => LineBreak + ReplaceMatches(p, s[n..])
      case None => [s[0]] + ReplaceMatches(p, s[1..])
  }

  /** Lines 202-207: the break-tag pass, then the paragraph pass. */
  function NormalizeLineBreaks(s: string): string {
    ReplaceMatches(ParagraphBreak, ReplaceMatches(BreakTag, s))
  }

  /** Text without `<` holds no line break and is left as it is. */
  lemma NormalizeKeepsPlainText(s: string)
    requires Avoids(s, {'<'})
    ensures NormalizeLineBreaks(s) == s
  {
    ReplaceMatchesNoTag(BreakTag, s);
    ReplaceMatchesNoTag(ParagraphBreak, s);
  }

  /** Text without `<` is left as it is by either pass. */
  lemma ReplaceMatchesNoTag(p: Pattern, s: string)
    requires Avoids(s, {'<'})
    ensures ReplaceMatches(p, s) == s
  {
    ReplaceMatchesKeeps(p, s, "");
    assert s + "" == s;
  }

  /** A stretch without `<` passes through either pass untouched. */
  lemma {:induction false} ReplaceMatchesKeeps(p: Pattern, w: string, rest: string)
    requires Avoids(w, {'<'})
    ensures ReplaceMatches(p, w + rest) == w + ReplaceMatches(p, rest)
    decreases |w|
  {
    hide MatchAt;
    if |w| > 0 {
      assert (w + rest)[1..] == w[1..] + rest;
      ReplaceMatchesKeeps(p, w[1..], rest);
      assert [w[0]] + w[1..] == w;
    } else {
      assert w + rest == rest;
    }
  }

  /** A match at the front is replaced by one `<br />`, and the scan goes on
      after it. */
  lemma ReplaceMatchesReplaces(p: Pattern, t: string, rest: string)
    requires MatchAt(p, t + rest) == Some(|t|)
    ensures ReplaceMatches(p, t + rest) == LineBreak + ReplaceMatches(p, rest)
  {
    assert (t + rest)[|t|..] == rest;
  }

  /** Every break tag becomes `<br />` in the first pass, whatever follows
      it. */
  lemma BreakTagReplaced(t: string, rest: string)
    requires IsBreakTag(t)
    ensures ReplaceMatches(BreakTag, t + rest) == LineBreak + ReplaceMatches(BreakTag, rest)
  {
    assert (t + rest)[..|t|] == t;
    BreakTagAtMeans(t + rest, |t|);
    ReplaceMatchesReplaces(BreakTag, t, rest);
  }

  /** Every paragraph break becomes `<br />` in the second pass, whatever
      follows it. */
  lemma ParagraphBreakReplaced(t: string, rest: string)
    requires IsParagraphBreak(t)
    ensures ReplaceMatches(ParagraphBreak, t + rest) == LineBreak + ReplaceMatches(ParagraphBreak, rest)
  {
    assert (t + rest)[..|t|] == t;
    ParagraphBreakAtMeans(t + rest, |t|);
    ReplaceMatchesReplaces(ParagraphBreak, t, rest);
  }

  /** The canonical `<br />` is left in place by both passes, so
      normalising never disturbs breaks already normalised. */
  lemma LineBreakSurvives(rest: string)
    ensures NormalizeLineBreaks(LineBreak + rest) == LineBreak + NormalizeLineBreaks(rest)
  {
    hide ParagraphBreakAt, BreakTagAt, ReplaceMatches;
    LineBreakIsBreakTag();
    BreakTagReplaced(LineBreak, rest);
    var x := ReplaceMatches(BreakTag, rest);
    LineBreakStartsNoParagraph(x);
    assert Avoids(LineBreak[1..], {'<'});
    ReplaceMatchesKeepsUnmatched(ParagraphBreak, LineBreak, x);
  }

  /** A tag the pattern does not match at the front, with no further `<`,
      passes through untouched. */
  lemma ReplaceMatchesKeepsUnmatched(p: Pattern, w: string, x: string)
    requires |w| > 0 && MatchAt(p, w + x) == None && Avoids(w[1..], {'<'})
    ensures ReplaceMatches(p, w + x) == w + ReplaceMatches(p, x)
  {
    hide MatchAt, ReplaceMatches;
    var s := w + x;
    assert s[1..] == w[1..] + x && s[0] == w[0];
    ReplaceMatchesUnmatched(p, s);
    ReplaceMatchesKeeps(p, w[1..], x);
    HeadTail(w, ReplaceMatches(p, x));
  }

  /** Where the pattern does not match, the first character is kept. */
  lemma ReplaceMatchesUnmatched(p: Pattern, s: string)
    requires |s| > 0 && MatchAt(p, s) == None
    ensures ReplaceMatches(p, s) == [s[0]] + ReplaceMatches(p, s[1..])
  {
    hide MatchAt;
  }

  /** A break tag between two stretches of text without `<` becomes the
      canonical `<br />`, and nothing else changes. */
  lemma NormalizeBreakBetween(x: string, t: string, y: string)
    requires IsBreakTag(t) && Avoids(x, {'<'}) && Avoids(y, {'<'})
    ensures NormalizeLineBreaks(x + t + y) == x + LineBreak + y
  {
    BreakPassBetween(x, t, y);
    ParagraphPassKeepsBreak(x, y);
  }

  lemma BreakPassBetween(x: string, t: string, y: string)
    requires IsBreakTag(t) && Avoids(x, {'<'}) && Avoids(y, {'<'})
    ensures ReplaceMatches(BreakTag, x + t + y) == x + LineBreak + y
  {
    BreakTagReplaced(t, y);
    ReplaceMatchesNoTag(BreakTag, y);
    hide BreakTagAt, IsBreakTag, MatchAt;
    assert x + t + y == x + (t + y);
    ReplaceMatchesKeeps(BreakTag, x, t + y);
    assert x + (LineBreak + y) == x + LineBreak + y;
  }

  lemma ParagraphPassKeepsBreak(x: string, y: string)
    requires Avoids(x, {'<'}) && Avoids(y, {'<'})
    ensures ReplaceMatches(ParagraphBreak, x + LineBreak + y) == x + LineBreak + y
  {
    LineBreakStartsNoParagraph(y);
    BreakTail(LineBreak);
    hide ParagraphBreakAt, BreakTagAt, ReplaceMatches;
    ReplaceMatchesKeepsUnmatched(ParagraphBreak, LineBreak, y);
    ReplaceMatchesNoTag(ParagraphBreak, y);
    ReplaceMatchesKeeps(ParagraphBreak, x, LineBreak + y);
    assert x + (LineBreak + y) == x + LineBreak + y;
  }

  /** The line break holds a single `<`, at its start. */
  lemma BreakTail(b: string)
    requires b == LineBreak
    ensures Avoids(b[1..], {'<'})
  {
  }

  /** `<br />` is itself a break tag. */
  lemma LineBreakIsBreakTag()
    ensures IsBreakTag(LineBreak)
  {
    assert LineBreak == "<" + "br" + " />";
    NonSpaceAppend("<" + "br", " />");
    NonSpaceAppend("<", "br");
    assert NonSpace(" />") == "/>";
    assert LineBreak[1] == 'b' && LineBreak[2] == 'r';
  }

  /** No paragraph break starts at a `<br />`. */
  lemma LineBreakStartsNoParagraph(x: string)
    ensures ParagraphBreakAt(LineBreak + x) == None
  {
    var y := LineBreak + x;
    if Walk(y, 1, "/p><p").Some? {
      WalkStartsWith(y, 1, "/p><p");
    }
  }

  // -------------------------------------------------------------------
  // A paragraph break is left to the second pass
  // -------------------------------------------------------------------

  /** The first character `NonSpace` keeps is the one `SkipFrom` stops at. */
  lemma NonSpaceHead(s: string, i: nat, j: nat)
    requires i <= j <= |s| && |NonSpace(s[i..j])| > 0
    ensures SkipFrom(s, i) < j && s[SkipFrom(s, i)] == NonSpace(s[i..j])[0]
  {
    var k := SkipFrom(s, i);
    if k >= j {
      assert forall t :: 0 <= t < j - i ==> s[i..j][t] == s[i + t];
      NonSpaceEmpty(s[i..j]);
    } else {
      SplitAtFirst(s, i, k, j);
    }
  }

  /** A `<` whose next non-whitespace character is not `b` opens no break
      tag. */
  lemma NoBreakTagAt(s: string, j: nat)
    requires 0 < |s| && s[0] == '<' && 1 <= j <= |s|
    requires |NonSpace(s[1..j])| > 0 && NonSpace(s[1..j])[0] != 'b'
    ensures BreakTagAt(s) == None
  {
    NonSpaceHead(s, 1, j);
    if Walk(s, 1, "b").Some? {
      WalkStartsWith(s, 1, "b");
    }
  }

  /** `NonSpace` keeps only characters of its argument. */
  lemma {:induction false} NonSpaceKeepsOut(a: string, c: char)
    requires Avoids(a, {c})
    ensures Avoids(NonSpace(a), {c})
    decreases |a|
  {
    if |a| > 0 {
      assert Avoids(a[1..], {c}) by {
        assert forall k :: 0 <= k < |a[1..]| ==> a[1..][k] == a[k + 1];
      }
      NonSpaceKeepsOut(a[1..], c);
      var h: string := if IsSpace(a[0]) then "" else [a[0]];
      AvoidsJoin(h, NonSpace(a[1..]), {c});
    }
  }

  /** In a paragraph break whose two tags hold no further `<`, the second
      `<` is followed, past whitespace, by `p`. */
  lemma SecondTagOpensWithP(t: string, u: string, v: string) returns (j: nat)
    requires IsParagraphBreak(t) && t == "<" + u + "<" + v && Avoids(u, {'<'})
    ensures |u| + 2 <= j <= |t| && |NonSpace(t[|u| + 2..j])| > 0 && NonSpace(t[|u| + 2..j])[0] == 'p'
  {
    var m := |u| + 1;
    var k :| 1 < k < |t| && t[k - 1] == 'p' && NonSpace(t[1..k]) == "/p><p" && AttributeTail(t[k..]);
    assert t[m] == '<';
    NonSpaceKeepsOut(u, '<');
    FirstTagKeepsOut(t, u, v, k);
    assert NonSpace(t[1..k])[3] == '<';
    j := k;
    assert t[1..k] == u + ([t[m]] + t[m + 1..k]);
    NonSpaceAppend(u, [t[m]] + t[m + 1..k]);
    NonSpaceAppend([t[m]], t[m + 1..k]);
    assert NonSpace([t[m]]) == "<";
    var n1, n2 := NonSpace(u), NonSpace(t[m + 1..k]);
    hide NonSpace;
    ParagraphSpelling(n1, n2);
  }

  /** Up to the second `<`, the squeezed text holds no `<`. */
  lemma FirstTagKeepsOut(t: string, u: string, v: string, k: nat)
    requires t == "<" + u + "<" + v && Avoids(u, {'<'}) && 1 <= k <= |t|
    ensures k <= |u| + 1 ==> Avoids(NonSpace(t[1..k]), {'<'})
  {
    if k <= |u| + 1 {
      assert t[1..k] == u[..k - 1];
      assert Avoids(t[1..k], {'<'}) by {
        assert forall q :: 0 <= q < k - 1 ==> t[1..k][q] == u[q];
      }
      NonSpaceKeepsOut(t[1..k], '<');
    }
  }

  /** `/p><p` holds a single `<`, so it splits there only as `/p>` and `p`. */
  lemma ParagraphSpelling(n1: string, n2: string)
    requires n1 + "<" + n2 == "/p><p" && Avoids(n1, {'<'})
    ensures n1 == "/p>" && n2 == "p"
  {
    var w := n1 + "<" + n2;
    assert w[|n1|] == '<';
    assert forall q :: 0 <= q < |w| && q != 3 ==> w[q] != '<';
    assert |n1| == 3;
    assert n1 == w[..3];
    assert n2 == w[4..];
  }

  /** The break-tag pass leaves such a paragraph break as it is. */
  lemma BreakPassKeepsParagraph(x: string, t: string, u: string, v: string, y: string)
    requires IsParagraphBreak(t) && t == "<" + u + "<" + v
    requires Avoids(u, {'<'}) && Avoids(v, {'<'})
    requires Avoids(x, {'<'}) && Avoids(y, {'<'})
    ensures ReplaceMatches(BreakTag, x + t + y) == x + t + y
  {
    hide BreakTagAt, ParagraphBreakAt, IsParagraphBreak, MatchAt, ReplaceMatches, NonSpace;
    var head, tail := "<" + u, "<" + v + y;
    FirstTagNoBreak(t, u, v, y);
    SecondTagNoBreak(t, u, v, y);
    TagTails(u, v);
    assert t + y == head + tail;
    assert tail == ("<" + v) + y;
    ReplaceMatchesKeepsUnmatched(BreakTag, head, tail);
    ReplaceMatchesKeepsUnmatched(BreakTag, "<" + v, y);
    ReplaceMatchesNoTag(BreakTag, y);
    ReplaceMatchesKeeps(BreakTag, x, t + y);
    assert x + t + y == x + (t + y);
  }

  lemma TagTails(u: string, v: string)
    requires Avoids(u, {'<'}) && Avoids(v, {'<'})
    ensures Avoids(("<" + u)[1..], {'<'}) && Avoids(("<" + v)[1..], {'<'})
  {
    assert ("<" + u)[1..] == u && ("<" + v)[1..] == v;
  }

  /** No break tag starts at the first `<` of a paragraph break. */
  lemma FirstTagNoBreak(t: string, u: string, v: string, y: string)
    requires IsParagraphBreak(t) && t == "<" + u + "<" + v
    ensures MatchAt(BreakTag, t + y) == None
  {
    var k :| 1 < k < |t| && t[k - 1] == 'p' && NonSpace(t[1..k]) == "/p><p" && AttributeTail(t[k..]);
    var s1 := t + y;
    assert s1[1..k] == t[1..k];
    NoBreakTagAt(s1, k);
  }

  /** Nor at its second `<`. */
  lemma SecondTagNoBreak(t: string, u: string, v: string, y: string)
    requires IsParagraphBreak(t) && t == "<" + u + "<" + v && Avoids(u, {'<'})
    ensures MatchAt(BreakTag, "<" + v + y) == None
  {
    var j := SecondTagOpensWithP(t, u, v);
    var m := |u| + 1;
    var tail := "<" + v + y;
    assert tail[1..j - m] == t[m + 1..j];
    NoBreakTagAt(tail, j - m);
  }

  /** A paragraph break between two stretches of text without `<` becomes
      the canonical `<br />`, and nothing else changes. */
  lemma NormalizeParagraphBetween(x: string, t: string, u: string, v: string, y: string)
    requires IsParagraphBreak(t) && t == "<" + u + "<" + v
    requires Avoids(u, {'<'}) && Avoids(v, {'<'})
    requires Avoids(x, {'<'}) && Avoids(y, {'<'})
    ensures NormalizeLineBreaks(x + t + y) == x + LineBreak + y
  {
    hide ParagraphBreakAt, BreakTagAt, IsParagraphBreak, MatchAt, ReplaceMatches, NonSpace;
    BreakPassKeepsParagraph(x, t, u, v, y);
    ParagraphBreakReplaced(t, y);
    ReplaceMatchesNoTag(ParagraphBreak, y);
    ReplaceMatchesKeeps(ParagraphBreak, x, t + y);
    assert x + t + y == x + (t + y);
    assert x + (LineBreak + y) == x + LineBreak + y;
  }
}
