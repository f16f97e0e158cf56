/** `removeNonBreakTags` of `PhpFit_Parse`: every tag other than the
    canonical line break `<br />` is cut out of the text.

    A tag runs from a `<` to the first `>` after it. A `<` with no `>`
    after it ends the scan, and it and everything after it stay. */
module TagStripping {
  import opened Wrappers
  import opened Strings
  import opened LineBreaks

  /** The result of the scan, read left to right: text before a `<` stays,
      a tag that spells the line break stays, any other tag goes, and an
      unclosed `<` keeps the rest as it is. */
  function Strip(s: string): (r: string)
    ensures |r| <= |s|
    decreases |s|
  {
    if |s| == 0 then ""
    else if s[0] != '<' then [s[0]] + Strip(s[1..])
    else match Find(s, ">", 1, false)
      case None => s
      case Some(j) =>
        if s[..j + 1] == LineBreak then LineBreak + Strip(s[j + 1..])
        else Strip(s[j + 1..])
  }

  /** The loop of lines 229-248 as written: it edits the text in place,
      searching for the next `<` from where the last tag was cut, or from
      just after a kept line break. A `>` is searched from after the `<`,
      so the test `$j > 0` holds exactly when one is found. */
  method RemoveNonBreakTags(s: string) returns (r: string)
    ensures r == Strip(s)
  {
    hide Strip;
    r := s;
    ghost var from: nat := 0;
    var i := Find(r, "<", 0, false);
    assert r[..0] + Strip(r[0..]) == Strip(s) by {
      assert r[0..] == s;
    }
    while i.Some?
      invariant from <= |r|
      invariant i == Find(r, "<", from, false)
      invariant Strip(s) == r[..from] + Strip(r[from..])
      decreases |r|, |r| - from
    {
      var x := i.value;
      var j := Find(r, ">", x + 1, false);
      if j.Some? {
        if r[x..j.value + 1] != LineBreak {
          CutStep(r, from, x, j.value);
          CutInvariant(s, r, from, x, j.value);
          r := r[..x] + r[j.value + 1..];
        } else {
          KeepStep(r, from, x, j.value);
          KeepInvariant(s, r, from, x);
          x := x + 1;
        }
      } else {
        UnclosedStep(r, from, x);
        break;
      }
      from := x;
      i := Find(r, "<", x, false);
    }
    if i.None? {
      NoTagLeft(r, from);
    }
  }

  // -------------------------------------------------------------------
  // The loop against the reference reading
  // -------------------------------------------------------------------

  /** Text without `<` passes through whole. */
  lemma {:induction false} StripSkipsText(w: string, rest: string)
    requires Avoids(w, {'<'})
    ensures Strip(w + rest) == w + Strip(rest)
    decreases |w|
  {
    if |w| > 0 {
      var s := w + rest;
      assert s[0] == w[0] && s[1..] == w[1..] + rest;
      StripText(s);
      StripSkipsText(w[1..], rest);
      hide Strip;
      var c := Strip(rest);
      assert [w[0]] + (w[1..] + c) == ([w[0]] + w[1..]) + c;
      assert [w[0]] + w[1..] == w;
    } else {
      assert w + rest == rest;
    }
  }

  /** A character other than `<` is read as itself. */
  lemma StripText(s: string)
    requires |s| > 0 && s[0] != '<'
    ensures Strip(s) == [s[0]] + Strip(s[1..])
  {
  }

  /** The text between the search start and the `<` found holds no `<`. */
  lemma BeforeTag(r: string, from: nat, x: nat)
    requires from <= |r| && Find(r, "<", from, false) == Some(x)
    ensures r[x] == '<' && Avoids(r[from..x], {'<'})
    ensures Strip(r[from..]) == r[from..x] + Strip(r[x..])
  {
    CharMatches(r, '<');
    assert forall k | 0 <= k < x - from :: r[from..x][k] == r[from + k];
    assert r[from..] == r[from..x] + r[x..];
    StripSkipsText(r[from..x], r[x..]);
  }

  /** The `>` that closes the tag at `x`, seen from the tag itself. */
  lemma CloseInTag(r: string, x: nat)
    requires x < |r|
    ensures Find(r[x..], ">", 1, false).Some? <==> Find(r, ">", x + 1, false).Some?
    ensures Find(r, ">", x + 1, false).Some? ==>
              Find(r, ">", x + 1, false).value == x + Find(r[x..], ">", 1, false).value
  {
    FindInSuffix(r, ">", x, 1, false);
  }

  /** The loop invariant survives cutting `r[x..j + 1]`. */
  lemma CutInvariant(s: string, r: string, from: nat, x: nat, j: nat)
    requires from <= x <= j < |r|
    requires Strip(s) == r[..from] + Strip(r[from..])
    requires Strip(r[from..]) == r[from..x] + Strip(r[j + 1..])
    ensures var cut := r[..x] + r[j + 1..];
            x <= |cut| && Strip(s) == cut[..x] + Strip(cut[x..])
  {
    hide Strip;
    var cut := r[..x] + r[j + 1..];
    var a, b, c := r[..from], r[from..x], Strip(r[j + 1..]);
    assert cut[..x] == r[..x] && cut[x..] == r[j + 1..];
    SliceJoin(r, from, x);
    assert a + (b + c) == (a + b) + c;
  }

  /** The loop invariant survives moving the search start past `r[x]`. */
  lemma KeepInvariant(s: string, r: string, from: nat, x: nat)
    requires from <= x < |r|
    requires Strip(s) == r[..from] + Strip(r[from..])
    requires Strip(r[from..]) == r[from..x + 1] + Strip(r[x + 1..])
    ensures Strip(s) == r[..x + 1] + Strip(r[x + 1..])
  {
    hide Strip;
    var a, b, c := r[..from], r[from..x + 1], Strip(r[x + 1..]);
    SliceJoin(r, from, x + 1);
    assert a + (b + c) == (a + b) + c;
  }

  /** The text up to `x` and then `r[x]` is the text up to `x + 1`. */
  lemma SliceCons(r: string, from: nat, x: nat, c: string)
    requires from <= x < |r|
    ensures r[from..x] + ([r[x]] + c) == r[from..x + 1] + c
  {
    var a := r[from..x];
    assert r[from..x + 1] == a + [r[x]];
    assert a + ([r[x]] + c) == (a + [r[x]]) + c;
  }

  lemma SliceJoin(r: string, i: nat, k: nat)
    requires i <= k <= |r|
    ensures r[..i] + r[i..k] == r[..k]
  {
  }

  /** Cutting a tag that is not the line break. */
  lemma CutStep(r: string, from: nat, x: nat, j: nat)
    requires from <= |r| && Find(r, "<", from, false) == Some(x)
    requires Find(r, ">", x + 1, false) == Some(j)
    requires r[x..j + 1] != LineBreak
    ensures Strip(r[from..]) == r[from..x] + Strip(r[j + 1..])
  {
    BeforeTag(r, from, x);
    CutAtTag(r, x, j);
  }

  /** At any other tag, the reference reading drops the tag. */
  lemma CutAtTag(r: string, x: nat, j: nat)
    requires x < |r| && r[x] == '<' && Find(r, ">", x + 1, false) == Some(j)
    requires r[x..j + 1] != LineBreak
    ensures Strip(r[x..]) == Strip(r[j + 1..])
  {
    hide Strip;
    CloseInTag(r, x);
    var t := r[x..];
    assert t[..j - x + 1] == r[x..j + 1] && t[j - x + 1..] == r[j + 1..];
    OpenTagStep(t, j - x);
  }

  /** Keeping a line break and resuming the search just after its `<`. */
  lemma KeepStep(r: string, from: nat, x: nat, j: nat)
    requires from <= |r| && Find(r, "<", from, false) == Some(x)
    requires Find(r, ">", x + 1, false) == Some(j)
    requires r[x..j + 1] == LineBreak
    ensures Strip(r[from..]) == r[from..x + 1] + Strip(r[x + 1..])
  {
    BeforeTag(r, from, x);
    KeepAtTag(r, x, j);
    var c := Strip(r[x + 1..]);
    hide Strip, Find;
    SliceCons(r, from, x, c);
  }

  /** At a line break, the reference reading keeps the `<` and reads on
      from the character after it. */
  lemma KeepAtTag(r: string, x: nat, j: nat)
    requires x < |r| && Find(r, ">", x + 1, false) == Some(j)
    requires r[x..j + 1] == LineBreak
    ensures Strip(r[x..]) == [r[x]] + Strip(r[x + 1..])
  {
    hide Strip;
    CloseInTag(r, x);
    var t := r[x..];
    assert t[..j - x + 1] == r[x..j + 1] && t[j - x + 1..] == r[j + 1..];
    OpenTagStep(t, j - x);
    var b := r[x..j + 1];
    assert r[x + 1..] == b[1..] + r[j + 1..];
    hide Find;
    BreakTail(b);
    BreakPasses(b, r[j + 1..]);
  }

  /** A tag with no `<` after its first character passes the reference
      reading after that character, so reading it whole is reading its
      first character and then the rest. */
  lemma BreakPasses(b: string, rest: string)
    requires |b| > 0 && Avoids(b[1..], {'<'})
    ensures b + Strip(rest) == [b[0]] + Strip(b[1..] + rest)
  {
    hide Strip;
    StripSkipsText(b[1..], rest);
    HeadTail(b, Strip(rest));
  }

  /** One step of the reference reading at a `<` whose tag is closed. */
  lemma OpenTagStep(t: string, k: nat)
    requires |t| > 0 && t[0] == '<' && Find(t, ">", 1, false) == Some(k)
    ensures t[..k + 1] == LineBreak ==> Strip(t) == LineBreak + Strip(t[k + 1..])
    ensures t[..k + 1] != LineBreak ==> Strip(t) == Strip(t[k + 1..])
  {
  }

  /** A `<` with nothing closing it ends the scan. */
  lemma UnclosedStep(r: string, from: nat, x: nat)
    requires from <= |r| && Find(r, "<", from, false) == Some(x)
    requires Find(r, ">", x + 1, false).None?
    ensures Strip(r[from..]) == r[from..]
  {
    BeforeTag(r, from, x);
    UnclosedAtTag(r, x);
    hide Strip, Find;
    assert r[from..] == r[from..x] + r[x..];
  }

  /** From a `<` with nothing closing it, the reference reading keeps
      everything. */
  lemma UnclosedAtTag(r: string, x: nat)
    requires x < |r| && r[x] == '<' && Find(r, ">", x + 1, false).None?
    ensures Strip(r[x..]) == r[x..]
  {
    CloseInTag(r, x);
  }

  /** With no `<` left after the search start, the scan is over. */
  lemma NoTagLeft(r: string, from: nat)
    requires from <= |r| && Find(r, "<", from, false).None?
    ensures Strip(r[from..]) == r[from..]
  {
    CharMatches(r, '<');
    assert Avoids(r[from..], {'<'}) by {
      forall k | 0 <= k < |r[from..]| ensures r[from..][k] != '<' {
        assert r[from..][k] == r[from + k];
      }
    }
    StripSkipsText(r[from..], "");
    assert r[from..] + "" == r[from..];
  }

  // -------------------------------------------------------------------
  // What the result looks like
  // -------------------------------------------------------------------

  /** Every `<` left in the text opens the line break, or has no `>` after
      it. */
  predicate OnlyBreakTags(s: string) {
    forall k | 0 <= k < |s| && s[k] == '<' :: LineBreak <= s[k..] || '>' !in s[k..]
  }

  /** The tags left after stripping are line breaks and unclosed `<`s. */
  lemma {:induction false} StripLeavesOnlyBreaks(s: string)
    ensures OnlyBreakTags(Strip(s))
    decreases |s|
  {
    if |s| > 0 {
      if s[0] != '<' {
        StripLeavesOnlyBreaks(s[1..]);
        PrependOnlyBreaks([s[0]], Strip(s[1..]));
      } else {
        match Find(s, ">", 1, false)
        case None =>
          CharMatches(s, '>');
          forall k | 0 <= k < |s| ensures '>' !in s[k..] {
            forall q | 0 <= q < |s[k..]| ensures s[k..][q] != '>' {
              assert s[k..][q] == s[k + q];
            }
          }
        case Some(j) =>
          StripLeavesOnlyBreaks(s[j + 1..]);
          if s[..j + 1] == LineBreak {
            PrependOnlyBreaks(LineBreak, Strip(s[j + 1..]));
          }
      }
    }
  }

  /** A plain character or a line break in front keeps the property. */
  lemma PrependOnlyBreaks(p: string, t: string)
    requires OnlyBreakTags(t)
    requires p == LineBreak || (|p| == 1 && p[0] != '<')
    ensures OnlyBreakTags(p + t)
  {
    var u := p + t;
    forall k | 0 <= k < |u| && u[k] == '<'
      ensures LineBreak <= u[k..] || '>' !in u[k..]
    {
      if k >= |p| {
        assert u[k..] == t[k - |p|..];
      } else {
        assert k == 0 && p == LineBreak;
        assert u[..|LineBreak|] == LineBreak;
      }
    }
  }

  /** The property holds for every suffix. */
  lemma OnlyBreaksSuffix(s: string, d: nat)
    requires OnlyBreakTags(s) && d <= |s|
    ensures OnlyBreakTags(s[d..])
  {
    forall k | 0 <= k < |s[d..]| && s[d..][k] == '<'
      ensures LineBreak <= s[d..][k..] || '>' !in s[d..][k..]
    {
      assert s[d..][k..] == s[d + k..];
    }
  }

  /** Text whose tags are all line breaks or unclosed is left unchanged. */
  lemma {:induction false} StripFixed(s: string)
    requires OnlyBreakTags(s)
    ensures Strip(s) == s
    decreases |s|
  {
    if |s| > 0 {
      if s[0] != '<' {
        OnlyBreaksSuffix(s, 1);
        StripFixed(s[1..]);
        assert [s[0]] + s[1..] == s;
      } else if '>' in s[0..] {
        assert LineBreak <= s;
        BreakCloses(s);
        OnlyBreaksSuffix(s, 6);
        StripFixed(s[6..]);
        assert s[..6] + s[6..] == s;
      } else {
        CharMatches(s, '>');
        forall p: nat | 1 <= p ensures !MatchesAt(s, ">", p, false) {
          if p < |s| {
            assert s[p] in s[0..];
          }
        }
      }
    }
  }

  /** In a text that opens with the line break, the first `>` after the
      `<` is the line break's own. */
  lemma BreakCloses(s: string)
    requires LineBreak <= s
    ensures Find(s, ">", 1, false) == Some(5) && s[..6] == LineBreak
  {
    CharMatches(s, '>');
    assert s[..6] == LineBreak;
    assert s[1] == 'b' && s[2] == 'r' && s[3] == ' ' && s[4] == '/' && s[5] == '>';
  }

  /** Stripping twice strips nothing more. */
  lemma StripIdempotent(s: string)
    ensures Strip(Strip(s)) == Strip(s)
  {
    StripLeavesOnlyBreaks(s);
    StripFixed(Strip(s));
  }

  /** A line break between two stretches of text without `<` stays. */
  lemma StripBreakBetween(x: string, y: string)
    requires Avoids(x, {'<'}) && Avoids(y, {'<'})
    ensures Strip(x + LineBreak + y) == x + LineBreak + y
  {
    var t := LineBreak + y;
    assert t[..|LineBreak|] == LineBreak;
    BreakCloses(t);
    OpenTagStep(t, 5);
    assert t[6..] == y;
    StripKeepsPlainText(y);
    hide Strip, Find;
    StripSkipsText(x, t);
    assert x + LineBreak + y == x + t;
  }

  /** Text without `<` holds no tag. */
  lemma StripKeepsPlainText(s: string)
    requires Avoids(s, {'<'})
    ensures Strip(s) == s
  {
    StripSkipsText(s, "");
    assert s + "" == s;
  }
}
