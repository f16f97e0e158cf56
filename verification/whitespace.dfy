/** `condenseWhitespace` (Parse.php lines 213-223): every run of PCRE
    whitespace becomes one space, then the non-breaking space byte 160 and
    the entity `&nbsp;` become spaces, and finally `trim` strips tabs, line
    feeds, carriage returns, backslashes and spaces from both ends.

    The non-breaking spaces are turned into spaces only after the runs were
    collapsed, so they are not themselves collapsed: `1 &nbsp; &nbsp; 2`
    keeps five spaces. */
module Whitespace {
  import opened Strings

  const FormFeed: char := 12 as char
  const NonBreakingSpace: char := 160 as char

  /** PCRE's `\s` outside UTF mode: space, tab, line feed, form feed and
      carriage return (the vertical tab joined the class only in later PCRE
      releases). */
  predicate IsSpace(c: char) {
    c == ' ' || c == '\t' || c == '\n' || c == FormFeed || c == '\r'
  }

  /** The character list `"\t\n\r\ "` handed to `trim`: in a double-quoted
      PHP string `\ ` is a backslash followed by a space. */
  predicate IsTrimmed(c: char) {
    c == '\t' || c == '\n' || c == '\r' || c == '\\' || c == ' '
  }

  /** Whitespace that survives `Collapse` is a lone plain space. */
  predicate Condensed(s: string) {
    forall k :: 0 <= k < |s| && IsSpace(s[k]) ==> s[k] == ' ' && (k + 1 == |s| || !IsSpace(s[k + 1]))
  }

  /** The text with every whitespace character removed. */
  function NonSpace(s: string): string
    decreases |s|
  {
    if |s| == 0 then ""
    else (if IsSpace(s[0]) then "" else [s[0]]) + NonSpace(s[1..])
  }

  /** Removing whitespace distributes over concatenation. */
  lemma {:induction false} NonSpaceAppend(a: string, b: string)
    ensures NonSpace(a + b) == NonSpace(a) + NonSpace(b)
    decreases |a|
  {
    if |a| > 0 {
      assert (a + b)[1..] == a[1..] + b;
      NonSpaceAppend(a[1..], b);
    } else {
      assert a + b == b;
    }
  }

  /** A text keeps no character under `NonSpace` exactly when it is all
      whitespace. */
  lemma {:induction false} NonSpaceEmpty(a: string)
    ensures NonSpace(a) == "" <==> forall k :: 0 <= k < |a| ==> IsSpace(a[k])
    decreases |a|
  {
    if |a| > 0 {
      NonSpaceEmpty(a[1..]);
      assert forall k :: 1 <= k < |a| ==> a[k] == a[1..][k - 1];
    }
  }

  /** The text after its leading run of whitespace. */
  function SkipSpaces(s: string): (r: string)
    ensures |r| <= |s| && r == s[|s| - |r|..]
    ensures forall k :: 0 <= k < |s| - |r| ==> IsSpace(s[k])
    ensures |r| > 0 ==> !IsSpace(r[0])
    decreases |s|
  {
    if |s| > 0 && IsSpace(s[0]) then SkipSpaces(s[1..]) else s
  }

  /** `preg_replace('|\s+|s', ' ', $s)`: the leftmost-longest run of
      whitespace is replaced by a single space, and scanning resumes after
      it. */
  function Collapse(s: string): (r: string)
    ensures |r| == 0 <==> |s| == 0
    ensures |s| > 0 ==> (IsSpace(r[0]) <==> IsSpace(s[0]))
    ensures |s| > 0 ==> (IsSpace(r[|r| - 1]) <==> IsSpace(s[|s| - 1]))
    ensures Condensed(r)
    decreases |s|
  {
    if |s| == 0 then ""
    else if IsSpace(s[0]) then
      var rest := Collapse(SkipSpaces(s[1..]));
      CondensedCons(' ', rest);
      " " + rest
    else
      var rest := Collapse(s[1..]);
      CondensedCons(s[0], rest);
      [s[0]] + rest
  }

  /** A character in front of a condensed text keeps it condensed when it
      is not whitespace, or is a space before something that is not. */
  lemma CondensedCons(c: char, x: string)
    requires Condensed(x)
    requires IsSpace(c) ==> c == ' ' && (|x| == 0 || !IsSpace(x[0]))
    ensures Condensed([c] + x)
  {
    var s := [c] + x;
    forall k | 0 < k < |s| ensures s[k] == x[k - 1] {
    }
  }

  /** Skipping leading whitespace loses no other character. */
  lemma {:induction false} SkipSpacesKeepsNonSpace(s: string)
    ensures NonSpace(SkipSpaces(s)) == NonSpace(s)
    decreases |s|
  {
    if |s| > 0 && IsSpace(s[0]) {
      SkipSpacesKeepsNonSpace(s[1..]);
    }
  }

  /** Collapsing changes only whitespace: every other character survives,
      in order. */
  lemma {:induction false} CollapseKeepsNonSpace(s: string)
    ensures NonSpace(Collapse(s)) == NonSpace(s)
    decreases |s|
  {
    if |s| > 0 {
      var r := Collapse(s);
      if IsSpace(s[0]) {
        var t := SkipSpaces(s[1..]);
        CollapseKeepsNonSpace(t);
        SkipSpacesKeepsNonSpace(s[1..]);
        assert r[1..] == Collapse(t);
      } else {
        CollapseKeepsNonSpace(s[1..]);
        assert r[1..] == Collapse(s[1..]);
      }
    }
  }

  /** One step of `Collapse`. */
  lemma CollapseUnfold(s: string)
    requires |s| > 0
    ensures Collapse(s) == if IsSpace(s[0]) then " " + Collapse(SkipSpaces(s[1..])) else [s[0]] + Collapse(s[1..])
  {
  }

  /** A condensed text is left as it is. */
  lemma {:induction false} CollapseFixed(s: string)
    requires Condensed(s)
    ensures Collapse(s) == s
    decreases |s|
  {
    if |s| > 0 {
      CondensedTail(s);
      CollapseFixed(s[1..]);
      CollapseUnfold(s);
      hide Collapse;
      if IsSpace(s[0]) {
        assert |s| == 1 || !IsSpace(s[1]);
        assert SkipSpaces(s[1..]) == s[1..];
      }
      assert [s[0]] + s[1..] == s;
    }
  }

  /** Two condensed texts join into one unless a space meets a space. */
  lemma CondensedJoin(x: string, y: string)
    requires Condensed(x) && Condensed(y)
    requires |x| > 0 && |y| > 0 && IsSpace(x[|x| - 1]) ==> !IsSpace(y[0])
    ensures Condensed(x + y)
  {
    var u := x + y;
    forall k | 0 <= k < |u| && IsSpace(u[k])
      ensures u[k] == ' ' && (k + 1 == |u| || !IsSpace(u[k + 1]))
    {
      if k < |x| {
        assert u[k] == x[k];
        if k + 1 < |x| {
          assert u[k + 1] == x[k + 1];
        } else if k + 1 < |u| {
          assert u[k + 1] == y[0];
        }
      } else {
        assert u[k] == y[k - |x|];
        if k + 1 < |u| {
          assert u[k + 1] == y[k + 1 - |x|];
        }
      }
    }
  }

  lemma CondensedTail(s: string)
    requires |s| > 0 && Condensed(s)
    ensures Condensed(s[1..])
  {
    forall k | 0 <= k < |s| - 1 && IsSpace(s[1..][k])
      ensures s[1..][k] == ' ' && (k + 1 == |s| - 1 || !IsSpace(s[1..][k + 1]))
    {
      assert s[1..][k] == s[k + 1];
    }
  }

  /** Collapsing twice is collapsing once. */
  lemma CollapseIdempotent(s: string)
    ensures Collapse(Collapse(s)) == Collapse(s)
  {
    CollapseFixed(Collapse(s));
  }

  /** Every character is whitespace. */
  predicate AllSpace(w: string) {
    forall k :: 0 <= k < |w| ==> IsSpace(w[k])
  }

  /** A run of whitespace in front of a text that does not open with
      whitespace is skipped whole. */
  lemma {:induction false} SkipSpacesRun(w: string, y: string)
    requires AllSpace(w) && (|y| == 0 || !IsSpace(y[0]))
    ensures SkipSpaces(w + y) == y
    decreases |w|
  {
    if |w| > 0 {
      assert (w + y)[1..] == w[1..] + y;
      SkipSpacesRun(w[1..], y);
    } else {
      assert w + y == y;
    }
  }

  /** Skipping whitespace stops inside a text that ends in something else,
      whatever follows it. */
  lemma {:induction false} SkipSpacesAppend(y: string, z: string)
    requires |y| > 0 && !IsSpace(y[|y| - 1])
    ensures SkipSpaces(y + z) == SkipSpaces(y) + z
    decreases |y|
  {
    assert (y + z)[0] == y[0];
    if IsSpace(y[0]) {
      assert (y + z)[1..] == y[1..] + z;
      SkipSpacesAppend(y[1..], z);
    }
  }

  /** A run of whitespace becomes one space. */
  lemma CollapseRun(w: string, y: string)
    requires |w| > 0 && AllSpace(w) && (|y| == 0 || !IsSpace(y[0]))
    ensures Collapse(w + y) == " " + Collapse(y)
  {
    var s := w + y;
    assert s[0] == w[0] && s[1..] == w[1..] + y;
    SkipSpacesRun(w[1..], y);
    CollapseUnfold(s);
  }

  /** Collapsing a text that ends in something other than whitespace
      handles it and what follows separately: no run straddles the join. */
  lemma {:induction false} CollapseAppend(x: string, z: string)
    requires |x| == 0 || !IsSpace(x[|x| - 1])
    ensures Collapse(x + z) == Collapse(x) + Collapse(z)
    decreases |x|
  {
    if |x| == 0 {
      assert x + z == z;
    } else if IsSpace(x[0]) {
      var t := SkipSpaces(x[1..]);
      SpaceHeadFacts(x, z);
      CollapseAppend(t, z);
      SpaceHeadStep(x, z, t);
    } else {
      PlainHeadFacts(x, z);
      CollapseAppend(x[1..], z);
      PlainHeadStep(x, z);
    }
  }

  /** The run opening `x` is skipped the same way whether or not `z`
      follows, and what remains still ends in a non-space. */
  lemma SpaceHeadFacts(x: string, z: string)
    requires |x| > 0 && IsSpace(x[0]) && !IsSpace(x[|x| - 1])
    ensures var t := SkipSpaces(x[1..]);
      SkipSpaces((x + z)[1..]) == t + z && (|t| == 0 || !IsSpace(t[|t| - 1]))
  {
    assert (x + z)[1..] == x[1..] + z;
    assert x[1..][|x| - 2] == x[|x| - 1];
    SkipSpacesAppend(x[1..], z);
  }

  lemma SpaceHeadStep(x: string, z: string, t: string)
    requires |x| > 0 && IsSpace(x[0]) && t == SkipSpaces(x[1..])
    requires SkipSpaces((x + z)[1..]) == t + z
    requires Collapse(t + z) == Collapse(t) + Collapse(z)
    ensures Collapse(x + z) == Collapse(x) + Collapse(z)
  {
    assert (x + z)[0] == x[0];
    CollapseUnfold(x + z);
    CollapseUnfold(x);
    hide Collapse, Condensed;
    Regroup(" ", Collapse(t), Collapse(z));
  }

  lemma PlainHeadFacts(x: string, z: string)
    requires |x| > 0 && !IsSpace(x[0]) && !IsSpace(x[|x| - 1])
    ensures |x[1..]| == 0 || !IsSpace(x[1..][|x| - 2])
  {
    assert |x| > 1 ==> x[1..][|x| - 2] == x[|x| - 1];
  }

  lemma PlainHeadStep(x: string, z: string)
    requires |x| > 0 && !IsSpace(x[0])
    requires Collapse(x[1..] + z) == Collapse(x[1..]) + Collapse(z)
    ensures Collapse(x + z) == Collapse(x) + Collapse(z)
  {
    hide Collapse, Condensed;
    var s := x + z;
    assert s[0] == x[0] && s[1..] == x[1..] + z;
    CollapseUnfold(s);
    CollapseUnfold(x);
    Regroup([x[0]], Collapse(x[1..]), Collapse(z));
  }

  lemma Regroup(a: string, b: string, c: string)
    ensures a + (b + c) == (a + b) + c
  {
  }

  /** Each run of whitespace between two stretches becomes exactly one
      space, and the stretches are collapsed on their own. */
  lemma CollapseBetween(x: string, w: string, y: string)
    requires |w| > 0 && AllSpace(w)
    requires |x| == 0 || !IsSpace(x[|x| - 1])
    requires |y| == 0 || !IsSpace(y[0])
    ensures Collapse(x + w + y) == Collapse(x) + " " + Collapse(y)
  {
    var r := w + y;
    assert x + w + y == x + r;
    CollapseAppend(x, r);
    CollapseRun(w, y);
    hide Collapse;
    Regroup(Collapse(x), " ", Collapse(y));
  }


  /** The first index at or after `i` whose character is not on the
      line-221 character list. */
  function FirstKept(s: string, i: nat): (j: nat)
    requires i <= |s|
    ensures i <= j <= |s|
    ensures forall k :: i <= k < j ==> IsTrimmed(s[k])
    ensures j < |s| ==> !IsTrimmed(s[j])
    decreases |s| - i
  {
    if i < |s| && IsTrimmed(s[i]) then FirstKept(s, i + 1) else i
  }

  /** The end of the text before `j` once trailing list characters are
      dropped. */
  function LastKept(s: string, j: nat): (e: nat)
    requires j <= |s|
    ensures e <= j
    ensures forall k :: e <= k < j ==> IsTrimmed(s[k])
    ensures e > 0 ==> !IsTrimmed(s[e - 1])
    decreases j
  {
    if j > 0 && IsTrimmed(s[j - 1]) then LastKept(s, j - 1) else j
  }

  /** `trim($s, "\t\n\r\ ")`: the leading run of list characters goes,
      then the trailing one. */
  function Trim(s: string): (r: string)
    ensures |r| > 0 ==> !IsTrimmed(r[0]) && !IsTrimmed(r[|r| - 1])
  {
    var left := s[FirstKept(s, 0)..];
    left[..LastKept(left, |left|)]
  }

  /** The trimmed text is the infix of `s` between a leading and a
      trailing run of list characters. */
  lemma TrimIsInfix(s: string)
    ensures exists i, e :: (0 <= i <= e <= |s| && Trim(s) == s[i..e]
                            && (forall k :: 0 <= k < i ==> IsTrimmed(s[k]))
                            && (forall k :: e <= k < |s| ==> IsTrimmed(s[k])))
  {
    var i := FirstKept(s, 0);
    var left := s[i..];
    var e := LastKept(left, |left|);
    assert forall k :: e <= k < |left| ==> left[k] == s[i + k];
    assert Trim(s) == s[i..i + e];
  }

  /** A text with nothing to trim at either end is its own trim. */
  lemma TrimKeeps(s: string)
    requires |s| > 0 ==> !IsTrimmed(s[0]) && !IsTrimmed(s[|s| - 1])
    ensures Trim(s) == s
  {
  }

  /** Trimming leaves nothing exactly when every character is on the
      list. */
  lemma TrimEmpty(s: string)
    ensures Trim(s) == "" <==> forall k :: 0 <= k < |s| ==> IsTrimmed(s[k])
  {
    var i := FirstKept(s, 0);
    var left := s[i..];
    if i < |s| {
      assert left[0] == s[i];
      assert LastKept(left, |left|) > 0;
    }
  }

  /** Lines 213-223. */
  function CondenseWhitespace(s: string): (r: string)
    ensures |r| > 0 ==> !IsTrimmed(r[0]) && !IsTrimmed(r[|r| - 1])
    ensures Avoids(r, {'\t', '\n', FormFeed, '\r', NonBreakingSpace})
  {
    var collapsed := Collapse(s);
    var spaced := Replace(collapsed, [NonBreakingSpace], " ");
    var unentity := Replace(spaced, "&nbsp;", " ");
    CondensedAvoids(collapsed);
    ReplaceCharAvoids(collapsed, NonBreakingSpace, " ", {'\t', '\n', FormFeed, '\r'});
    assert {'\t', '\n', FormFeed, '\r'} + {NonBreakingSpace} == {'\t', '\n', FormFeed, '\r', NonBreakingSpace};
    ReplaceAvoids(spaced, "&nbsp;", " ", {'\t', '\n', FormFeed, '\r', NonBreakingSpace});
    Trim(unentity)
  }

  /** The only whitespace in a condensed text is the plain space. */
  lemma CondensedAvoids(s: string)
    requires Condensed(s)
    ensures Avoids(s, {'\t', '\n', FormFeed, '\r'} - {NonBreakingSpace})
  {
    forall k | 0 <= k < |s| ensures s[k] !in {'\t', '\n', FormFeed, '\r'} {
      if s[k] in {'\t', '\n', FormFeed, '\r'} {
        assert IsSpace(s[k]);
      }
    }
  }

  /** Whitespace or a non-breaking space. */
  predicate IsBlank(c: char) {
    IsSpace(c) || c == NonBreakingSpace
  }

  /** Text made only of whitespace and non-breaking spaces condenses to
      nothing. */
  lemma CondenseBlank(s: string)
    requires forall k :: 0 <= k < |s| ==> IsBlank(s[k])
    ensures CondenseWhitespace(s) == ""
  {
    var collapsed := Collapse(s);
    CollapseBlank(s);
    assert OnlyFrom(collapsed, {' ', NonBreakingSpace});
    var spaced := Replace(collapsed, [NonBreakingSpace], " ");
    SpacedBlank(collapsed);
    var unentity := Replace(spaced, "&nbsp;", " ");
    ReplaceOnlyFrom(spaced, "&nbsp;", " ", {' '});
    assert forall k :: 0 <= k < |unentity| ==> IsTrimmed(unentity[k]) by {
      forall k | 0 <= k < |unentity| ensures IsTrimmed(unentity[k]) {
        assert unentity[k] in {' '};
      }
    }
    TrimEmpty(unentity);
  }

  /** Collapsing blank text leaves plain and non-breaking spaces. */
  lemma {:induction false} CollapseBlank(s: string)
    requires forall k :: 0 <= k < |s| ==> IsBlank(s[k])
    ensures forall k :: 0 <= k < |Collapse(s)| ==> Collapse(s)[k] == ' ' || Collapse(s)[k] == NonBreakingSpace
    decreases |s|
  {
    if |s| > 0 {
      if IsSpace(s[0]) {
        var t := SkipSpaces(s[1..]);
        assert forall k :: 0 <= k < |t| ==> t[k] == s[|s| - |t| + k];
        CollapseBlank(t);
      } else {
        CollapseBlank(s[1..]);
      }
    }
  }

  /** Turning non-breaking spaces into spaces leaves only spaces. */
  lemma {:induction false} SpacedBlank(s: string)
    requires OnlyFrom(s, {' ', NonBreakingSpace})
    ensures OnlyFrom(Replace(s, [NonBreakingSpace], " "), {' '})
    decreases |s|
  {
    if |s| > 0 {
      SpacedBlank(s[1..]);
      if s[..1] != [NonBreakingSpace] {
        assert s[0] != NonBreakingSpace;
      }
    }
  }

  /** Text that is already condensed, has no non-breaking space and no
      `&nbsp;` to replace, and nothing to trim at either end comes through
      unchanged. */
  lemma CondenseKeeps(s: string)
    requires Condensed(s) && Avoids(s, {NonBreakingSpace})
    requires Replace(s, "&nbsp;", " ") == s
    requires |s| > 0 ==> !IsTrimmed(s[0]) && !IsTrimmed(s[|s| - 1])
    ensures CondenseWhitespace(s) == s
  {
    CollapseFixed(s);
    ReplaceAbsentChar(s, NonBreakingSpace, " ");
    TrimKeeps(s);
  }

  /** In particular text without `&` or non-breaking space that is
      condensed and has untrimmed ends. */
  lemma CondensePlain(s: string)
    requires Condensed(s)
    requires Avoids(s, {'&', NonBreakingSpace})
    requires |s| > 0 ==> !IsTrimmed(s[0]) && !IsTrimmed(s[|s| - 1])
    ensures CondenseWhitespace(s) == s
  {
    ReplaceSkipsPrefix(s, "", "&nbsp;", " ");
    assert s + "" == s;
    CondenseKeeps(s);
  }

  /** A character that does not occur is not replaced. */
  lemma ReplaceAbsentChar(s: string, c: char, rep: string)
    requires Avoids(s, {c})
    ensures Replace(s, [c], rep) == s
  {
    assert !Contains(s, [c], false) by {
      forall p | 0 <= p <= |s| ensures !MatchesAt(s, [c], p, false) {
        MatchesAtMeans(s, [c], p, false);
        if p + 1 <= |s| {
          assert s[p + 0] != c;
        }
      }
    }
    ReplaceAbsent(s, [c], rep);
  }

  // -------------------------------------------------------------------
  // Texts that change
  // -------------------------------------------------------------------

  /** A stretch that condensing leaves alone on its own: condensed, no `&`
      and no non-breaking space, and nothing to trim at either end. */
  predicate Plain(a: string) {
    && |a| > 0 && Condensed(a) && Avoids(a, {'&', NonBreakingSpace})
    && !IsTrimmed(a[0]) && !IsTrimmed(a[|a| - 1])
  }

  /** Trimming drops exactly the listed characters around a text with
      unlisted ends. */
  lemma TrimAround(p: string, m: string, q: string)
    requires forall k :: 0 <= k < |p| ==> IsTrimmed(p[k])
    requires forall k :: 0 <= k < |q| ==> IsTrimmed(q[k])
    requires |m| > 0 && !IsTrimmed(m[0]) && !IsTrimmed(m[|m| - 1])
    ensures Trim(p + m + q) == m
  {
    var s := p + m + q;
    var i := FirstKept(s, 0);
    assert forall k :: 0 <= k < |p| ==> s[k] == p[k];
    assert s[|p|] == m[0];
    assert i == |p|;
    var left := s[i..];
    assert left == m + q;
    var e := LastKept(left, |left|);
    assert forall k :: |m| <= k < |left| ==> left[k] == q[k - |m|];
    assert left[|m| - 1] == m[|m| - 1];
    assert e == |m|;
    assert left[..|m|] == m;
  }

  /** The four steps of `condenseWhitespace`. */
  lemma CondenseUnfold(s: string)
    ensures CondenseWhitespace(s) == Trim(Replace(Replace(Collapse(s), [NonBreakingSpace], " "), "&nbsp;", " "))
  {
  }

  /** The plain stretches neither open nor close with whitespace. */
  lemma PlainEnds(a: string)
    requires Plain(a)
    ensures |a| > 0 && Condensed(a) && !IsSpace(a[0]) && !IsSpace(a[|a| - 1])
  {
  }

  /** A run of whitespace between two plain stretches becomes one space, and
      whitespace around them goes: `" a  \n\tb  "` condenses to `"a b"`. */
  lemma CondenseRunBetween(u: string, a: string, w: string, b: string, v: string)
    requires AllSpace(u) && AllSpace(v) && |w| > 0 && AllSpace(w)
    requires Plain(a) && Plain(b)
    ensures CondenseWhitespace(u + a + w + b + v) == a + " " + b
  {
    var p: string := if |u| == 0 then "" else " ";
    var q: string := if |v| == 0 then "" else " ";
    var m := a + " " + b;
    assert Plain(a) && Plain(b);
    assert m[0] == a[0] && m[|m| - 1] == b[|b| - 1];
    CondenseUnfold(u + a + w + b + v);
    CollapseAround(u, a, w, b, v);
    PlainSpacedAvoids(p, a, b, q);
    hide CondenseWhitespace, Collapse, Trim, Replace, Plain;
    FinishSpaced(p, m, q);
  }

  /** The passes after collapsing leave a collapsed text without entities
      or non-breaking spaces alone, apart from trimming its ends. */
  lemma FinishSpaced(p: string, m: string, q: string)
    requires p == "" || p == " "
    requires q == "" || q == " "
    requires Avoids(p + m + q, {'&', NonBreakingSpace})
    requires |m| > 0 && !IsTrimmed(m[0]) && !IsTrimmed(m[|m| - 1])
    ensures Trim(Replace(Replace(p + m + q, [NonBreakingSpace], " "), "&nbsp;", " ")) == m
  {
    var c := p + m + q;
    hide Trim;
    ReplaceSkipsPrefix(c, "", [NonBreakingSpace], " ");
    ReplaceSkipsPrefix(c, "", "&nbsp;", " ");
    assert c + "" == c;
    TrimAround(p, m, q);
  }

  /** Collapsing a plain stretch, a run and a plain stretch, with optional
      runs around them: every run becomes one space. */
  lemma CollapseAround(u: string, a: string, w: string, b: string, v: string)
    requires AllSpace(u) && AllSpace(v) && |w| > 0 && AllSpace(w)
    requires Plain(a) && Plain(b)
    ensures Collapse(u + a + w + b + v)
            == (if |u| == 0 then "" else " ") + (a + " " + b) + (if |v| == 0 then "" else " ")
  {
    var p: string := if |u| == 0 then "" else " ";
    var q: string := if |v| == 0 then "" else " ";
    var mid := a + w + (b + v);
    CollapseMiddle(a, w, b, v);
    JoinFive(u, a, w, b, v);
    var r := a + " " + (b + q);
    hide Collapse, Plain;
    if |u| > 0 {
      CollapseRun(u, mid);
    } else {
      assert u + mid == mid;
      assert p + r == r;
    }
    JoinSpaced(p, a, b, q);
  }

  /** Once the leading run is gone, the middle run becomes one space and the trailing run at most one. */
  lemma CollapseMiddle(a: string, w: string, b: string, v: string)
    requires AllSpace(v) && |w| > 0 && AllSpace(w)
    requires Plain(a) && Plain(b)
    ensures |a + w + (b + v)| > 0 && !IsSpace((a + w + (b + v))[0])
    ensures Collapse(a + w + (b + v)) == a + " " + (b + (if |v| == 0 then "" else " "))
  {
    var q: string := if |v| == 0 then "" else " ";
    PlainEnds(a);
    PlainEnds(b);
    hide Plain, Condensed;
    CollapseFixed(a);
    CollapseFixed(b);
    assert (a + w + (b + v))[0] == a[0];
    assert (b + v)[0] == b[0];
    hide Collapse;
    CollapseAppend(b, v);
    if |v| > 0 {
      CollapseRun(v, "");
      assert v + "" == v;
    }
    assert Collapse(v) == q;
    CollapseBetween(a, w, b + v);
  }

  lemma JoinFive(u: string, a: string, w: string, b: string, v: string)
    ensures u + a + w + b + v == u + (a + w + (b + v))
  {
  }

  lemma JoinSpaced(p: string, a: string, b: string, q: string)
    ensures p + (a + " " + (b + q)) == p + (a + " " + b) + q
  {
  }

  /** The collapsed text holds neither `&` nor a non-breaking space. */
  lemma PlainSpacedAvoids(p: string, a: string, b: string, q: string)
    requires Plain(a) && Plain(b)
    requires p == "" || p == " "
    requires q == "" || q == " "
    ensures Avoids(p + (a + " " + b) + q, {'&', NonBreakingSpace})
  {
    var banned := {'&', NonBreakingSpace};
    assert Avoids(" ", banned) && Avoids(p, banned) && Avoids(q, banned);
    AvoidsJoin(a, " ", banned);
    AvoidsJoin(a + " ", b, banned);
    AvoidsJoin(p, a + " " + b, banned);
    AvoidsJoin(p + (a + " " + b), q, banned);
  }

  /** A space, then `middle` (which holds no whitespace), then a space,
      between two plain stretches is condensed text. */
  lemma SpacedCondensed(a: string, middle: string, b: string)
    requires Plain(a) && Plain(b)
    requires |middle| > 0 && forall k :: 0 <= k < |middle| ==> !IsSpace(middle[k])
    ensures Condensed(a + " " + middle + " " + b)
  {
    PlainEnds(a);
    PlainEnds(b);
    var z1 := " " + b;
    CondensedCons(' ', b);
    assert Condensed(middle);
    CondensedJoin(middle, z1);
    var z2 := middle + z1;
    assert z2[0] == middle[0];
    CondensedCons(' ', z2);
    CondensedJoin(a, " " + z2);
    assert a + (" " + z2) == a + " " + middle + " " + b;
  }

  /** A non-breaking space between two spaces becomes a third space after
      the runs were collapsed, so it is not merged with them. */
  lemma CondenseSpacedNbsp(a: string, b: string)
    requires Plain(a) && Plain(b)
    ensures CondenseWhitespace(a + " " + [NonBreakingSpace] + " " + b) == a + "   " + b
  {
    var nb: string := [NonBreakingSpace];
    var x := a + " " + nb + " " + b;
    var spaced := a + "   " + b;
    CondenseUnfold(x);
    SpacedCondensed(a, nb, b);
    CollapseFixed(x);
    ReplaceBetweenSpaces(a, nb, b);
    SpacedAvoids(a, b);
    hide CondenseWhitespace, Collapse, Plain;
    ReplaceSkipsPrefix(spaced, "", "&nbsp;", " ");
    assert spaced + "" == spaced;
    TrimKeeps(spaced);
  }

  /** The entity `&nbsp;` between two spaces likewise becomes a third space:
      `1 &nbsp; 2` condenses to `1   2`. */
  lemma CondenseSpacedEntity(a: string, b: string)
    requires Plain(a) && Plain(b)
    ensures CondenseWhitespace(a + " &nbsp; " + b) == a + "   " + b
  {
    assert Replace("", [NonBreakingSpace], " ") == "";
    hide CondenseWhitespace, Collapse, Plain, Condensed, Replace, Trim;
    var e := "&nbsp;";
    var x := a + " " + e + " " + b;
    var spaced := a + "   " + b;
    assert a + " &nbsp; " + b == x;
    CondenseUnfold(x);
    SpacedCondensed(a, e, b);
    CollapseFixed(x);
    EntitySpacedAvoids(a, b);
    SpacedAvoids(a, b);
    PlainAvoidsAmp(a);
    PlainAvoidsAmp(b);
    ReplaceSkipsPrefix(x, "", [NonBreakingSpace], " ");
    assert x + "" == x;
    ReplaceBetweenSpaces(a, e, b);
    TrimKeeps(spaced);
  }

  lemma PlainAvoidsAmp(a: string)
    requires Plain(a)
    ensures forall k :: 0 <= k < |a| ==> a[k] != "&nbsp;"[0]
  {
  }

  /** Replacing a pattern that stands alone between two spaces. */
  lemma ReplaceBetweenSpaces(a: string, pat: string, b: string)
    requires |pat| > 0 && pat[0] != ' '
    requires forall k :: 0 <= k < |a| ==> a[k] != pat[0]
    requires forall k :: 0 <= k < |b| ==> b[k] != pat[0]
    ensures Replace(a + " " + pat + " " + b, pat, " ") == a + "   " + b
  {
    hide Replace;
    var head := a + " ";
    var tail := " " + b;
    SpaceAfterAvoids(a, pat[0]);
    SpaceBeforeAvoids(b, pat[0]);
    PatternBetweenSpaces(a, pat, b);
    ReplaceSkipsPrefix(head, pat + tail, pat, " ");
    ReplaceAtFront(tail, pat, " ");
    ReplaceSkipsPrefix(tail, "", pat, " ");
    ReplaceEmpty(pat, " ");
    assert tail + "" == tail;
    ThreeSpaces(a, b);
  }

  lemma SpaceAfterAvoids(a: string, c: char)
    requires c != ' ' && forall k :: 0 <= k < |a| ==> a[k] != c
    ensures forall k :: 0 <= k < |a + " "| ==> (a + " ")[k] != c
  {
    assert forall k :: 0 <= k < |a| ==> (a + " ")[k] == a[k];
  }

  lemma SpaceBeforeAvoids(b: string, c: char)
    requires c != ' ' && forall k :: 0 <= k < |b| ==> b[k] != c
    ensures forall k :: 0 <= k < |" " + b| ==> (" " + b)[k] != c
  {
    assert forall k :: 1 <= k < |" " + b| ==> (" " + b)[k] == b[k - 1];
  }

  lemma PatternBetweenSpaces(a: string, pat: string, b: string)
    ensures a + " " + pat + " " + b == (a + " ") + (pat + (" " + b))
  {
  }

  lemma ThreeSpaces(a: string, b: string)
    ensures (a + " ") + (" " + (" " + b)) == a + "   " + b
  {
    assert "   " == " " + " " + " ";
  }

  /** Three spaces between plain stretches: no entity, no non-breaking
      space, and untrimmed ends. */
  lemma SpacedAvoids(a: string, b: string)
    requires Plain(a) && Plain(b)
    ensures forall k :: 0 <= k < |a + "   " + b| ==> (a + "   " + b)[k] != '&'
    ensures |a + "   " + b| > 0 && !IsTrimmed((a + "   " + b)[0])
    ensures !IsTrimmed((a + "   " + b)[|a + "   " + b| - 1])
  {
    var s := a + "   " + b;
    assert forall k :: 0 <= k < |a| ==> s[k] == a[k];
    assert forall k :: 0 <= k < |b| ==> s[|a| + 3 + k] == b[k];
  }

  /** The entity between two plain stretches is the only `&` and there is
      no non-breaking space. */
  lemma EntitySpacedAvoids(a: string, b: string)
    requires Plain(a) && Plain(b)
    ensures forall k :: 0 <= k < |a + " &nbsp; " + b| ==> (a + " &nbsp; " + b)[k] != NonBreakingSpace
  {
    var s := a + " &nbsp; " + b;
    assert forall k :: 0 <= k < |a| ==> s[k] == a[k];
    assert forall k :: 0 <= k < |b| ==> s[|a| + 8 + k] == b[k];
  }
}
