/** Byte-string primitives that the parser and the text normaliser are built
    on: PHP's `strpos`/`stripos` (first occurrence at or after an offset, with
    or without ASCII case folding) and `str_replace` (left-to-right,
    non-overlapping replacement of every occurrence).

    A PHP string is a sequence of bytes; here a `string` is a `seq<char>` in
    which every character stands for one byte. */
module Strings {
  import opened Wrappers

  /** ASCII lower-casing, as `tolower` does in the C locale. */
  function Lower(c: char): (r: char)
    ensures 'A' <= c <= 'Z' ==> 'a' <= r <= 'z' && r as int - c as int == 32
    ensures !('A' <= c <= 'Z') ==> r == c
  {
    if 'A' <= c <= 'Z' then (c as int + 32) as char else c
  }

  /** Character equality, folding ASCII case when `ignoreCase` holds. */
  predicate Same(a: char, b: char, ignoreCase: bool) {
    if ignoreCase then Lower(a) == Lower(b) else a == b
  }

  /** Whether `pat[k..]` occurs in `s` at `i + k`: a recursive formulation
      that the verifier can evaluate on literal strings. */
  predicate MatchFrom(s: string, pat: string, i: nat, k: nat, ignoreCase: bool)
    requires i + |pat| <= |s| && k <= |pat|
    decreases |pat| - k
  {
    k == |pat| || (Same(s[i + k], pat[k], ignoreCase) && MatchFrom(s, pat, i, k + 1, ignoreCase))
  }

  /** `pat` occurs in `s` starting at index `i`. */
  predicate MatchesAt(s: string, pat: string, i: nat, ignoreCase: bool) {
    i + |pat| <= |s| && MatchFrom(s, pat, i, 0, ignoreCase)
  }

  /** The recursive matcher agrees with character-by-character comparison. */
  lemma {:induction false} MatchFromMeans(s: string, pat: string, i: nat, k: nat, ignoreCase: bool)
    requires i + |pat| <= |s| && k <= |pat|
    ensures MatchFrom(s, pat, i, k, ignoreCase) <==>
              forall t :: k <= t < |pat| ==> Same(s[i + t], pat[t], ignoreCase)
    decreases |pat| - k
  {
    if k < |pat| {
      MatchFromMeans(s, pat, i, k + 1, ignoreCase);
    }
  }

  /** `MatchesAt` as a comparison of characters. */
  lemma MatchesAtMeans(s: string, pat: string, i: nat, ignoreCase: bool)
    ensures MatchesAt(s, pat, i, ignoreCase) <==>
              i + |pat| <= |s| && forall t :: 0 <= t < |pat| ==> Same(s[i + t], pat[t], ignoreCase)
  {
    if i + |pat| <= |s| {
      MatchFromMeans(s, pat, i, 0, ignoreCase);
    }
  }

  /** `strpos` (`ignoreCase == false`) and `stripos` (`ignoreCase == true`):
      the first index at or after `from` where `pat` occurs. An offset past
      the end of the string finds nothing, as in PHP. */
  function Find(s: string, pat: string, from: nat, ignoreCase: bool): (r: Option<nat>)
    requires |pat| > 0
    ensures r.Some? ==> from <= r.value && r.value + |pat| <= |s|
    ensures r.Some? ==> MatchesAt(s, pat, r.value, ignoreCase)
    ensures r.Some? ==> forall p :: from <= p < r.value ==> !MatchesAt(s, pat, p, ignoreCase)
    ensures r.None? ==> forall p :: from <= p ==> !MatchesAt(s, pat, p, ignoreCase)
    decreases |s| - from
  {
    if from + |pat| > |s| then None
    else if MatchesAt(s, pat, from, ignoreCase) then Some(from)
    else Find(s, pat, from + 1, ignoreCase)
  }

  /** Searching for a single character finds exactly that character. */
  lemma CharMatches(s: string, c: char)
    ensures forall k: nat :: MatchesAt(s, [c], k, false) <==> k < |s| && s[k] == c
  {
    forall k: nat
      ensures MatchesAt(s, [c], k, false) <==> k < |s| && s[k] == c
    {
      MatchesAtMeans(s, [c], k, false);
    }
  }

  /** `pat` occurs somewhere in `s`. */
  predicate Contains(s: string, pat: string, ignoreCase: bool) {
    exists p | 0 <= p <= |s| :: MatchesAt(s, pat, p, ignoreCase)
  }

  /** `Find` from the start succeeds exactly when the pattern occurs. */
  lemma FindFindsOccurrence(s: string, pat: string, ignoreCase: bool)
    requires |pat| > 0
    ensures Find(s, pat, 0, ignoreCase).Some? <==> Contains(s, pat, ignoreCase)
  {
    var r := Find(s, pat, 0, ignoreCase);
    if r.Some? {
      assert MatchesAt(s, pat, r.value, ignoreCase);
    }
  }

  /** A match in the suffix `s[d..]` is a match in `s`, shifted by `d`. */
  lemma MatchesAtSuffix(s: string, pat: string, d: nat, p: nat, ignoreCase: bool)
    requires d <= |s|
    ensures MatchesAt(s[d..], pat, p, ignoreCase) <==> MatchesAt(s, pat, d + p, ignoreCase)
  {
    MatchesAtMeans(s[d..], pat, p, ignoreCase);
    MatchesAtMeans(s, pat, d + p, ignoreCase);
    if MatchesAt(s, pat, d + p, ignoreCase) {
      forall t | 0 <= t < |pat| ensures Same(s[d..][p + t], pat[t], ignoreCase) {
        assert s[d..][p + t] == s[d + p + t];
      }
    }
  }

  /** Searching `s` from `d` succeeds exactly when the pattern occurs in the
      suffix `s[d..]`. */
  lemma FindFromMeansContainsSuffix(s: string, pat: string, d: nat, ignoreCase: bool)
    requires |pat| > 0 && d <= |s|
    ensures Find(s, pat, d, ignoreCase).Some? <==> Contains(s[d..], pat, ignoreCase)
  {
    var r := Find(s, pat, d, ignoreCase);
    if r.Some? {
      MatchesAtSuffix(s, pat, d, r.value - d, ignoreCase);
      assert MatchesAt(s[d..], pat, r.value - d, ignoreCase);
    } else if Contains(s[d..], pat, ignoreCase) {
      var q :| 0 <= q <= |s[d..]| && MatchesAt(s[d..], pat, q, ignoreCase);
      MatchesAtSuffix(s, pat, d, q, ignoreCase);
      assert false;
    }
  }

  /** Searching the suffix `s[d..]` finds what searching `s` from `d` on
      finds, shifted by `d`. */
  lemma {:induction false} FindInSuffix(s: string, pat: string, d: nat, from: nat, ignoreCase: bool)
    requires |pat| > 0 && d <= |s|
    ensures Find(s[d..], pat, from, ignoreCase).Some? <==> Find(s, pat, d + from, ignoreCase).Some?
    ensures Find(s, pat, d + from, ignoreCase).Some? ==>
              Find(s, pat, d + from, ignoreCase).value == d + Find(s[d..], pat, from, ignoreCase).value
    decreases |s| - d - from
  {
    if d + from + |pat| <= |s| {
      MatchesAtSuffix(s, pat, d, from, ignoreCase);
      if !MatchesAt(s, pat, d + from, ignoreCase) {
        FindInSuffix(s, pat, d, from + 1, ignoreCase);
      }
    }
  }

  /** A match inside the prefix `s[..e]` is a match in `s`. */
  lemma MatchesAtPrefix(s: string, pat: string, e: nat, p: nat, ignoreCase: bool)
    requires e <= |s| && p + |pat| <= e
    ensures MatchesAt(s[..e], pat, p, ignoreCase) <==> MatchesAt(s, pat, p, ignoreCase)
  {
    MatchesAtMeans(s[..e], pat, p, ignoreCase);
    MatchesAtMeans(s, pat, p, ignoreCase);
    if MatchesAt(s, pat, p, ignoreCase) {
      forall t | 0 <= t < |pat| ensures Same(s[..e][p + t], pat[t], ignoreCase) {
        assert s[..e][p + t] == s[p + t];
      }
    }
  }

  /** `str_replace(pat, rep, s)`: scan left to right, replace each occurrence
      of `pat`, and resume after it, so replacements are never rescanned. */
  function Replace(s: string, pat: string, rep: string): (r: string)
    requires |pat| > 0
    decreases |s|
  {
    if |s| < |pat| then s
    else if s[..|pat|] == pat then rep + Replace(s[|pat|..], pat, rep)
    else [s[0]] + Replace(s[1..], pat, rep)
  }

  lemma ReplaceEmpty(pat: string, rep: string)
    requires |pat| > 0
    ensures Replace("", pat, rep) == ""
  {
  }

  /** Text in which the pattern does not occur is left unchanged. */
  lemma {:induction false} ReplaceAbsent(s: string, pat: string, rep: string)
    requires |pat| > 0
    requires !Contains(s, pat, false)
    ensures Replace(s, pat, rep) == s
    decreases |s|
  {
    if |s| >= |pat| {
      MatchesAtMeans(s, pat, 0, false);
      assert s[..|pat|] != pat;
      forall p | 0 <= p <= |s[1..]| ensures !MatchesAt(s[1..], pat, p, false) {
        MatchesAtSuffix(s, pat, 1, p, false);
      }
      ReplaceAbsent(s[1..], pat, rep);
      assert [s[0]] + s[1..] == s;
    }
  }

  /** A leading piece that does not contain the pattern's first character
      passes through `Replace` untouched. */
  lemma {:induction false} ReplaceSkipsPrefix(w: string, rest: string, pat: string, rep: string)
    requires |pat| > 0
    requires forall k :: 0 <= k < |w| ==> w[k] != pat[0]
    ensures Replace(w + rest, pat, rep) == w + Replace(rest, pat, rep)
    decreases |w|
  {
    if |w| > 0 {
      var s := w + rest;
      assert s[1..] == w[1..] + rest;
      ReplaceSkipsPrefix(w[1..], rest, pat, rep);
      if |s| < |pat| {
        assert |w[1..] + rest| < |pat|;
        assert Replace(rest, pat, rep) == rest;
      } else {
        assert s[..|pat|][0] == w[0];
        assert Replace(s, pat, rep) == [s[0]] + Replace(s[1..], pat, rep);
      }
      assert [w[0]] + w[1..] == w;
    } else {
      assert w + rest == rest;
    }
  }

  /** An occurrence of the pattern at the front is replaced, and the scan
      resumes right after it. */
  lemma ReplaceAtFront(rest: string, pat: string, rep: string)
    requires |pat| > 0
    ensures Replace(pat + rest, pat, rep) == rep + Replace(rest, pat, rep)
  {
    var s := pat + rest;
    assert s[..|pat|] == pat;
    assert s[|pat|..] == rest;
  }

  /** Every character of `s` is drawn from `allowed`. */
  predicate OnlyFrom(s: string, allowed: set<char>) {
    forall k :: 0 <= k < |s| ==> s[k] in allowed
  }

  /** No character of `s` is in `banned`. */
  predicate Avoids(s: string, banned: set<char>) {
    forall k :: 0 <= k < |s| ==> s[k] !in banned
  }

  /** The first character, the tail and what follows make up the text and
      what follows. */
  lemma HeadTail(w: string, r: string)
    requires |w| > 0
    ensures [w[0]] + (w[1..] + r) == w + r
  {
    assert [w[0]] + w[1..] == w;
    assert [w[0]] + (w[1..] + r) == ([w[0]] + w[1..]) + r;
  }

  /** A text avoids what both of its parts avoid. */
  lemma AvoidsJoin(x: string, y: string, banned: set<char>)
    requires Avoids(x, banned) && Avoids(y, banned)
    ensures Avoids(x + y, banned)
  {
    forall k | 0 <= k < |x + y| ensures (x + y)[k] !in banned {
      if k >= |x| {
        assert (x + y)[k] == y[k - |x|];
      }
    }
  }

  /** `Replace` only ever emits characters of the text and of the
      replacement. */
  lemma {:induction false} ReplaceOnlyFrom(s: string, pat: string, rep: string, allowed: set<char>)
    requires |pat| > 0
    requires OnlyFrom(s, allowed) && OnlyFrom(rep, allowed)
    ensures OnlyFrom(Replace(s, pat, rep), allowed)
    decreases |s|
  {
    if |s| >= |pat| {
      if s[..|pat|] == pat {
        ReplaceOnlyFrom(s[|pat|..], pat, rep, allowed);
      } else {
        ReplaceOnlyFrom(s[1..], pat, rep, allowed);
      }
    }
  }

  /** Replacing a single character removes it everywhere: the result avoids
      whatever the text avoided apart from that character, provided the
      replacement does. */
  lemma {:induction false} ReplaceCharAvoids(s: string, c: char, rep: string, banned: set<char>)
    requires Avoids(s, banned - {c}) && Avoids(rep, banned + {c})
    ensures Avoids(Replace(s, [c], rep), banned + {c})
    decreases |s|
  {
    if |s| >= 1 {
      ReplaceCharAvoids(s[1..], c, rep, banned);
      if s[..1] != [c] {
        assert s[0] != c;
      }
    }
  }

  /** Replacing a pattern keeps out every character that neither the text
      nor the replacement contains. */
  lemma {:induction false} ReplaceAvoids(s: string, pat: string, rep: string, banned: set<char>)
    requires |pat| > 0
    requires Avoids(s, banned) && Avoids(rep, banned)
    ensures Avoids(Replace(s, pat, rep), banned)
    decreases |s|
  {
    if |s| >= |pat| {
      if s[..|pat|] == pat {
        ReplaceAvoids(s[|pat|..], pat, rep, banned);
      } else {
        ReplaceAvoids(s[1..], pat, rep, banned);
      }
    }
  }

  // ---------------------------------------------------------------------
  // Decimal rendering of integers (PHP's implicit int-to-string conversion)
  // ---------------------------------------------------------------------

  predicate IsDigit(c: char) {
    '0' <= c <= '9'
  }

  /** The decimal digits of `n`, most significant first, without leading
      zeros (`"0"` for zero). */
  function NatToDecimal(n: nat): (r: string)
    ensures |r| > 0
    ensures forall k :: 0 <= k < |r| ==> IsDigit(r[k])
    ensures n > 0 ==> r[0] != '0'
    decreases n
  {
    if n < 10 then [('0' as int + n) as char]
    else NatToDecimal(n / 10) + [('0' as int + n % 10) as char]
  }

  function DigitValue(c: char): nat
    requires IsDigit(c)
  {
    c as int - '0' as int
  }

  /** The value of a string of decimal digits. */
  function DecimalValue(s: string): nat
    requires forall k :: 0 <= k < |s| ==> IsDigit(s[k])
  {
    if |s| == 0 then 0
    else 10 * DecimalValue(s[..|s| - 1]) + DigitValue(s[|s| - 1])
  }

  /** Reading back the decimal rendering yields the number. */
  lemma {:induction false} DecimalRoundTrip(n: nat)
    ensures DecimalValue(NatToDecimal(n)) == n
    decreases n
  {
    var r := NatToDecimal(n);
    if n >= 10 {
      DecimalRoundTrip(n / 10);
      assert r[..|r| - 1] == NatToDecimal(n / 10);
    }
  }

  /** PHP's rendering of an integer: a minus sign, then the digits. */
  function IntToDecimal(i: int): string {
    if i >= 0 then NatToDecimal(i) else "-" + NatToDecimal(-i)
  }
}
