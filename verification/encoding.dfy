/** Encoding a text through a table of tokens, the inverse that the decoding
    passes of the text normaliser undo.

    `Encode(s, table)` writes every character of `s` that the table lists as
    its token and every other character as itself. A decoding pass is one
    `str_replace` of a token by its character. When all tokens open with the
    same marker character, contain it nowhere else and none is a prefix of
    another, such a pass removes exactly one entry from the table, and a pass
    for a token that is not in the table changes nothing. */
module Encoding {
  import opened Strings

  type Table = map<char, string>

  /** How one character is written. */
  function Piece(c: char, table: Table): string {
    if c in table then table[c] else [c]
  }

  function Encode(s: string, table: Table): string
    decreases |s|
  {
    if |s| == 0 then "" else Piece(s[0], table) + Encode(s[1..], table)
  }

  /** Neither token is a prefix of the other, so where one begins the other
      does not match. */
  predicate Differ(a: string, b: string) {
    !(a <= b) && !(b <= a)
  }

  /** Tokens that disagree at some position differ. */
  lemma DifferAt(a: string, b: string, i: nat)
    requires i < |a| && i < |b| && a[i] != b[i]
    ensures Differ(a, b)
  {
    assert a[..i + 1] != b[..i + 1];
  }

  /** Every token opens with the marker `m`, contains it nowhere else, and
      no two tokens are prefixes of one another. */
  predicate WellFormed(table: Table, m: char) {
    && (forall c | c in table :: |table[c]| > 0 && table[c][0] == m && m !in table[c][1..])
    && (forall c, d | c in table && d in table && c != d :: Differ(table[c], table[d]))
  }

  /** Dropping an entry keeps a table well formed. */
  lemma WellFormedWithout(table: Table, m: char, c: char)
    requires WellFormed(table, m)
    ensures WellFormed(table - {c}, m)
  {
  }

  /** A bare marker in the text would read as the start of a token; it is
      either encoded itself or absent. */
  predicate Marked(s: string, table: Table, m: char) {
    m in table || m !in s
  }

  /** A token that the pattern cannot match at, and whose tail holds no
      character the pattern opens with, passes through `Replace` whole. */
  lemma PassToken(tok: string, rest: string, pat: string, rep: string)
    requires |tok| > 0 && |pat| > 0
    requires Differ(pat, tok) && pat[0] !in tok[1..]
    ensures Replace(tok + rest, pat, rep) == tok + Replace(rest, pat, rep)
  {
    var s := tok + rest;
    var t := tok[1..];
    MissesFront(tok, rest, pat);
    ReplaceStep(s, pat, rep);
    assert s[1..] == t + rest && s[0] == tok[0];
    SkipsTail(t, rest, pat, rep);
    hide Replace;
    HeadTail(tok, Replace(rest, pat, rep));
  }

  /** The tail of a token, which holds no marker, passes `Replace`. */
  lemma SkipsTail(t: string, rest: string, pat: string, rep: string)
    requires |pat| > 0 && pat[0] !in t
    ensures Replace(t + rest, pat, rep) == t + Replace(rest, pat, rep)
  {
    ReplaceSkipsPrefix(t, rest, pat, rep);
  }

  /** A pattern that differs from the token does not match at its start,
      whatever follows the token. */
  lemma MissesFront(tok: string, rest: string, pat: string)
    requires |tok| > 0 && |pat| > 0 && Differ(pat, tok)
    ensures |tok + rest| < |pat| || (tok + rest)[..|pat|] != pat
  {
    var s := tok + rest;
    if |s| >= |pat| {
      if |pat| <= |tok| {
        assert s[..|pat|] == tok[..|pat|];
      } else {
        assert s[..|pat|][..|tok|] == tok;
      }
    }
  }

  /** Where the pattern does not match at the front, `Replace` keeps the
      first character and moves on. */
  lemma ReplaceStep(s: string, pat: string, rep: string)
    requires |s| > 0 && |pat| > 0
    requires |s| < |pat| || s[..|pat|] != pat
    ensures Replace(s, pat, rep) == [s[0]] + Replace(s[1..], pat, rep)
  {
    if |s| < |pat| {
      assert [s[0]] + s[1..] == s;
    }
  }

  /** A plain character, which is not the marker, passes through `Replace`. */
  lemma PassPlain(c: char, rest: string, pat: string, rep: string)
    requires |pat| > 0 && c != pat[0]
    ensures Replace([c] + rest, pat, rep) == [c] + Replace(rest, pat, rep)
  {
    ReplaceSkipsPrefix([c], rest, pat, rep);
  }

  /** Replacing the token of `c` by `c` itself decodes exactly that entry:
      the result is the text encoded without it. */
  lemma {:induction false} DecodeStage(s: string, table: Table, m: char, c: char)
    requires WellFormed(table, m) && Marked(s, table, m) && c in table
    ensures Replace(Encode(s, table), table[c], [c]) == Encode(s, table - {c})
    decreases |s|
  {
    if |s| > 0 {
      var pat := table[c];
      var rest := Encode(s[1..], table);
      assert Marked(s[1..], table, m) by {
        if m !in table {
          assert forall k | 0 <= k < |s[1..]| :: s[1..][k] == s[k + 1];
        }
      }
      DecodeStage(s[1..], table, m, c);
      if s[0] == c {
        ReplaceAtFront(rest, pat, [c]);
      } else if s[0] in table {
        PassToken(table[s[0]], rest, pat, [c]);
      } else {
        assert s[0] != m by {
          assert s[0] in s;
        }
        PassPlain(s[0], rest, pat, [c]);
      }
    }
  }

  /** Replacing a marker-led pattern that differs from every token changes
      nothing in an encoded text, whatever follows it. */
  lemma {:induction false} AbsentBefore(s: string, table: Table, m: char, pat: string, rep: string, z: string)
    requires WellFormed(table, m) && Marked(s, table, m)
    requires |pat| > 0 && pat[0] == m
    requires forall c | c in table :: Differ(pat, table[c])
    ensures Replace(Encode(s, table) + z, pat, rep) == Encode(s, table) + Replace(z, pat, rep)
    decreases |s|
  {
    if |s| > 0 {
      var rest := Encode(s[1..], table);
      var p := Piece(s[0], table);
      assert Marked(s[1..], table, m) by {
        if m !in table {
          assert forall k | 0 <= k < |s[1..]| :: s[1..][k] == s[k + 1];
        }
      }
      AbsentBefore(s[1..], table, m, pat, rep, z);
      PieceAbsent(s, table, m, pat, rep, rest + z);
      assert Encode(s, table) == p + rest;
      hide Encode, Replace, Piece;
      ReplaceJoin(p, rest, z, pat, rep);
    } else {
      assert Encode(s, table) + z == z;
    }
  }

  /** The first character of an encoded text passes a pattern that differs
      from every token. */
  lemma PieceAbsent(s: string, table: Table, m: char, pat: string, rep: string, rest: string)
    requires WellFormed(table, m) && Marked(s, table, m) && |s| > 0
    requires |pat| > 0 && pat[0] == m
    requires forall c | c in table :: Differ(pat, table[c])
    ensures Replace(Piece(s[0], table) + rest, pat, rep) == Piece(s[0], table) + Replace(rest, pat, rep)
  {
    if s[0] in table {
      PassToken(table[s[0]], rest, pat, rep);
    } else {
      assert s[0] != m by {
        assert s[0] in s;
      }
      PassPlain(s[0], rest, pat, rep);
    }
  }

  /** Two stretches that pass `Replace` one after the other pass it
      together. */
  lemma ReplaceJoin(p: string, q: string, z: string, pat: string, rep: string)
    requires |pat| > 0
    requires Replace(p + (q + z), pat, rep) == p + Replace(q + z, pat, rep)
    requires Replace(q + z, pat, rep) == q + Replace(z, pat, rep)
    ensures Replace((p + q) + z, pat, rep) == (p + q) + Replace(z, pat, rep)
  {
    hide Replace;
    assert (p + q) + z == p + (q + z);
    var r := Replace(z, pat, rep);
    assert p + (q + r) == (p + q) + r;
  }

  /** In particular with nothing after it. */
  lemma AbsentStage(s: string, table: Table, m: char, pat: string, rep: string)
    requires WellFormed(table, m) && Marked(s, table, m)
    requires |pat| > 0 && pat[0] == m
    requires forall c | c in table :: Differ(pat, table[c])
    ensures Replace(Encode(s, table), pat, rep) == Encode(s, table)
  {
    AbsentBefore(s, table, m, pat, rep, "");
    assert Encode(s, table) + "" == Encode(s, table);
  }

  /** Encoding works piece by piece. */
  lemma {:induction false} EncodeAppend(a: string, b: string, table: Table)
    ensures Encode(a + b, table) == Encode(a, table) + Encode(b, table)
    decreases |a|
  {
    if |a| > 0 {
      EncodeAppend(a[1..], b, table);
      assert (a + b)[1..] == a[1..] + b;
    } else {
      assert a + b == b;
    }
  }

  /** With an empty table, encoding writes the text as it is. */
  lemma {:induction false} EncodeNothing(s: string, table: Table)
    requires table.Keys == {}
    ensures Encode(s, table) == s
    decreases |s|
  {
    if |s| > 0 {
      EncodeNothing(s[1..], table);
      assert s[0] !in table;
      assert [s[0]] + s[1..] == s;
    }
  }

  /** An encoded text avoids the characters that neither its tokens nor its
      unlisted characters contain. */
  lemma {:induction false} EncodeAvoids(s: string, table: Table, banned: set<char>)
    requires forall c | c in table :: Avoids(table[c], banned)
    requires forall k | 0 <= k < |s| :: s[k] in table || s[k] !in banned
    ensures Avoids(Encode(s, table), banned)
    decreases |s|
  {
    if |s| > 0 {
      EncodeAvoids(s[1..], table, banned);
      var p := Piece(s[0], table);
      var rest := Encode(s[1..], table);
      assert Avoids(p, banned);
      assert forall k | 0 <= k < |p + rest| :: (p + rest)[k] == if k < |p| then p[k] else rest[k - |p|];
    }
  }

  /** An entry for a character the text does not hold plays no part. */
  lemma {:induction false} EncodeSkipsAbsent(s: string, table: Table, c: char)
    requires c !in s
    ensures Encode(s, table) == Encode(s, table - {c})
    decreases |s|
  {
    if |s| > 0 {
      assert forall k | 0 <= k < |s[1..]| :: s[1..][k] == s[k + 1];
      assert c !in s[1..];
      EncodeSkipsAbsent(s[1..], table, c);
      assert s[0] != c by {
        assert s[0] in s;
      }
      assert Piece(s[0], table) == Piece(s[0], table - {c});
    }
  }
}
