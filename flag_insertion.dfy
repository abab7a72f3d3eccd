/**
 * Inserting ` <flag>` in front of a space (or at the end) creates no new match of a
 * yes-flag pattern, for any flag that starts with `-` and contains none of the pattern words.
 *
 * A match is located by its span (`TwoWordsAt`, `ProgramThenWordAt`); a span either lies
 * wholly before the insertion, wholly after it, or would have to use the inserted space or
 * the `-` after it, which the patterns cannot; the first two are matches in the text
 * without the insertion.
 */
module FlagInsertion {
  import opened Text
  import opened Regex

  predicate WordBefore(s: string, i: nat)
    requires i <= |s|
  {
    i > 0 && IsWordChar(s[i - 1])
  }

  predicate WordAt(s: string, i: nat) {
    i < |s| && IsWordChar(s[i])
  }

  predicate AllWordChars(w: string) {
    forall m :: 0 <= m < |w| ==> IsWordChar(w[m])
  }

  lemma BoundaryStep(p: Pattern, s: string, i: nat)
    requires i <= |s| && p != [] && p[0] == Boundary
    ensures MatchAt(p, s, i) <==> AtBoundary(s, i) && MatchAt(p[1..], s, i)
  {
  }

  // ------------------------------------------------------------ spans of `\b<a>\s+<b>\b`

  /** `\b<a>\s+<b>\b` matches `s[i..j + |b|]`, the spaces running from `i + |a|` to `j`. */
  predicate TwoWordsAt(a: string, b: string, s: string, i: nat, j: nat) {
    && i + |a| < j && j + |b| <= |s|
    && AtBoundary(s, i) && OccursAt(s, a, i)
    && AllIn(Space, s, i + |a|, j)
    && OccursAt(s, b, j) && AtBoundary(s, j + |b|)
  }

  /** `<b>\b` matches at `j` exactly when `b` occurs there and ends at a word boundary. */
  lemma WordThenBoundary(b: string, s: string, j: nat)
    requires j <= |s|
    ensures MatchAt([Word(b), Boundary], s, j) <==> OccursAt(s, b, j) && AtBoundary(s, j + |b|) && j + |b| <= |s|
  {
    var q: Pattern := [Word(b), Boundary];
    WordStep(q, s, j);
    assert q[1..] == [Boundary] && q[1..][1..] == [];
    if j + |b| <= |s| {
      BoundaryStep(q[1..], s, j + |b|);
    }
  }

  lemma TwoWordsSpan(a: string, b: string, s: string, i: nat)
    requires i <= |s|
    ensures MatchAt(TwoWords(a, b), s, i) <==> exists j :: TwoWordsAt(a, b, s, i, j)
  {
    if MatchAt(TwoWords(a, b), s, i) {
      var j := TwoWordsSpanOfMatch(a, b, s, i);
    }
    if exists j :: TwoWordsAt(a, b, s, i, j) {
      var j: nat :| TwoWordsAt(a, b, s, i, j);
      TwoWordsMatchOfSpan(a, b, s, i, j);
    }
  }

  /** The pieces of `TwoWords(a, b)` after each of its first three elements. */
  lemma TwoWordsTails(a: string, b: string)
    ensures var p := TwoWords(a, b);
      && p[0] == Boundary && p[1..][0] == Word(a)
      && p[1..][1..] == [Spaces] + [Word(b), Boundary]
  {
  }

  lemma TwoWordsSpanOfMatch(a: string, b: string, s: string, i: nat) returns (j: nat)
    requires i <= |s| && MatchAt(TwoWords(a, b), s, i)
    ensures TwoWordsAt(a, b, s, i, j)
  {
    var p := TwoWords(a, b);
    TwoWordsTails(a, b);
    BoundaryStep(p, s, i);
    WordStep(p[1..], s, i);
    RepeatSpan(Space, true, [Word(b), Boundary], s, i + |a|);
    j :| i + |a| + 1 <= j <= |s| && AllIn(Space, s, i + |a|, j) && MatchAt([Word(b), Boundary], s, j);
    WordThenBoundary(b, s, j);
  }

  lemma TwoWordsMatchOfSpan(a: string, b: string, s: string, i: nat, j: nat)
    requires TwoWordsAt(a, b, s, i, j)
    ensures MatchAt(TwoWords(a, b), s, i)
  {
    var p := TwoWords(a, b);
    TwoWordsTails(a, b);
    WordThenBoundary(b, s, j);
    RepeatSpan(Space, true, [Word(b), Boundary], s, i + |a|);
    WordStep(p[1..], s, i);
    BoundaryStep(p, s, i);
  }

  // ------------------------------------------------------------ spans of `\b<a>\s+[^ ]*<c>`

  function ProgramThenWord(a: string, c: string): Pattern {
    [Boundary, Word(a), Spaces, Repeat(Except(' '), false), Word(c)]
  }

  /** `\b<a>\s+[^ ]*<c>` matches `s[i..m + |c|]`, the spaces running from `i + |a|` to `j` and the non-blanks from `j` to `m`. */
  predicate ProgramThenWordAt(a: string, c: string, s: string, i: nat, j: nat, m: nat) {
    && i + |a| < j <= m && m + |c| <= |s|
    && AtBoundary(s, i) && OccursAt(s, a, i)
    && AllIn(Space, s, i + |a|, j)
    && AllIn(Except(' '), s, j, m)
    && OccursAt(s, c, m)
  }

  lemma ProgramThenWordSpan(a: string, c: string, s: string, i: nat)
    requires i <= |s|
    ensures MatchAt(ProgramThenWord(a, c), s, i) <==> exists j, m :: ProgramThenWordAt(a, c, s, i, j, m)
  {
    var p := ProgramThenWord(a, c);
    BoundaryStep(p, s, i);
    WordStep(p[1..], s, i);
    assert p[1..][1..] == [Spaces] + p[3..];
    assert p[3..] == [Repeat(Except(' '), false)] + p[4..];
    if i + |a| <= |s| {
      RepeatSpan(Space, true, p[3..], s, i + |a|);
    }
    forall j | i + |a| < j <= |s|
      ensures MatchAt(p[3..], s, j) <==>
        exists m :: j <= m && m + |c| <= |s| && AllIn(Except(' '), s, j, m) && OccursAt(s, c, m)
    {
      RepeatSpan(Except(' '), false, p[4..], s, j);
      forall m | j <= m <= |s| ensures MatchAt(p[4..], s, m) <==> OccursAt(s, c, m) {
        WordStep(p[4..], s, m);
      }
    }
    if MatchAt(p, s, i) {
      var j :| i + |a| + 1 <= j <= |s| && AllIn(Space, s, i + |a|, j) && MatchAt(p[3..], s, j);
      var m :| j <= m && m + |c| <= |s| && AllIn(Except(' '), s, j, m) && OccursAt(s, c, m);
      assert ProgramThenWordAt(a, c, s, i, j, m);
    }
  }

  // ------------------------------------------------------------ the insertion

  /** The text `x + " " + f + y` with the insertion point `|x|` followed by a space or the end. */
  predicate Inserted(x: string, f: string, y: string) {
    f != [] && f[0] == '-' && (y == [] || y[0] == ' ')
  }

  /** Where the characters of `u := x + " " + f + y` come from. */
  lemma InsertedChars(x: string, f: string, y: string)
    requires Inserted(x, f, y)
    ensures var u := x + [' '] + f + y; var s := x + y; var k := |x|; var e := |x| + 1 + |f|;
      && |u| == |s| + 1 + |f|
      && (forall q :: 0 <= q < k ==> u[q] == s[q])
      && u[k] == ' ' && u[k + 1] == '-'
      && (forall q :: e <= q < |u| ==> u[q] == s[q - 1 - |f|])
      && (e < |u| ==> u[e] == ' ')
      && u[k + 1..e] == f
  {
  }

  /** A run of `a` starting strictly inside the inserted text must lie inside `f`. */
  lemma WordInsideInsertion(x: string, f: string, y: string, a: string, i: nat)
    requires Inserted(x, f, y) && a != [] && AllWordChars(a)
    requires var u := x + [' '] + f + y; |x| < i <= |x| + 1 + |f| && OccursAt(u, a, i)
    ensures Contains(f, a)
  {
    var u := x + [' '] + f + y;
    var k, e := |x|, |x| + 1 + |f|;
    InsertedChars(x, f, y);
    // `a` cannot run past the flag: the character after it is a space.
    assert i + |a| <= e;
    assert u[i..i + |a|] == u[k + 1..e][i - k - 1..i - k - 1 + |a|];
    assert OccursAt(f, a, i - k - 1);
  }

  /** An occurrence of a word spans word characters only. */
  lemma WordsAt(u: string, w: string, i: nat)
    requires AllWordChars(w) && OccursAt(u, w, i)
    ensures forall q :: i <= q < i + |w| ==> IsWordChar(u[q])
  {
    forall q | i <= q < i + |w| ensures IsWordChar(u[q]) {
      assert u[q] == u[i..i + |w|][q - i];
    }
  }

  /** Past the flag, the text with the insertion is the text without it, shifted by the insertion's length. */
  lemma AfterInsertion(x: string, f: string, y: string, i: nat, n: nat)
    requires Inserted(x, f, y) && |x| + 1 + |f| <= i && i + n <= |x| + 1 + |f| + |y|
    ensures (x + y)[i - 1 - |f|..i - 1 - |f| + n] == (x + [' '] + f + y)[i..i + n]
  {
    var u, s, d := x + [' '] + f + y, x + y, 1 + |f|;
    InsertedChars(x, f, y);
    var before, after := s[i - d..i - d + n], u[i..i + n];
    forall q | 0 <= q < n ensures before[q] == after[q] {
      assert u[i + q] == s[i + q - d];
    }
    assert before == after;
  }

  lemma AllInAfterInsertion(k: CharClass, x: string, f: string, y: string, i: nat, j: nat)
    requires Inserted(x, f, y) && |x| + 1 + |f| <= i <= j <= |x| + 1 + |f| + |y|
    requires AllIn(k, x + [' '] + f + y, i, j)
    ensures AllIn(k, x + y, i - 1 - |f|, j - 1 - |f|)
  {
    var u, s, d := x + [' '] + f + y, x + y, 1 + |f|;
    InsertedChars(x, f, y);
    forall q | i - d <= q < j - d ensures InClass(k, s[q]) {
      assert s[q] == u[q + d];
    }
  }

  lemma BoundaryAfterInsertion(x: string, f: string, y: string, i: nat)
    requires Inserted(x, f, y) && |x| + 1 + |f| < i <= |x| + 1 + |f| + |y|
    requires AtBoundary(x + [' '] + f + y, i)
    ensures AtBoundary(x + y, i - 1 - |f|)
  {
    var u, s, d := x + [' '] + f + y, x + y, 1 + |f|;
    InsertedChars(x, f, y);
    assert s[i - d - 1] == u[i - 1];
    if i < |u| {
      assert s[i - d] == u[i];
    }
  }

  /** A span that ends before the insertion point is a span of the text without the insertion. */
  lemma TwoWordsBefore(a: string, b: string, x: string, f: string, y: string, i: nat, j: nat)
    requires Inserted(x, f, y) && TwoWordsAt(a, b, x + [' '] + f + y, i, j) && j + |b| <= |x|
    ensures TwoWordsAt(a, b, x + y, i, j)
  {
    var u, s := x + [' '] + f + y, x + y;
    InsertedChars(x, f, y);
    var end := j + |b|;
    assert s[i..i + |a|] == u[i..i + |a|];
    assert s[j..end] == u[j..end];
    assert AllIn(Space, s, i + |a|, j);
    assert AtBoundary(s, i);
    assert AtBoundary(s, end);
  }

  /** A span that starts after the inserted flag is, shifted back, a span of the text without the insertion. */
  lemma TwoWordsAfter(a: string, b: string, x: string, f: string, y: string, i: nat, j: nat)
    requires Inserted(x, f, y) && TwoWordsAt(a, b, x + [' '] + f + y, i, j) && i > |x| + 1 + |f|
    ensures TwoWordsAt(a, b, x + y, i - 1 - |f|, j - 1 - |f|)
  {
    AfterInsertion(x, f, y, i, |a|);
    AfterInsertion(x, f, y, j, |b|);
    AllInAfterInsertion(Space, x, f, y, i + |a|, j);
    BoundaryAfterInsertion(x, f, y, i);
    BoundaryAfterInsertion(x, f, y, j + |b|);
  }

  /** No span of word characters, spaces and word characters reaches over the inserted ` -`. */
  lemma TwoWordsPlacement(a: string, b: string, x: string, f: string, y: string, i: nat, j: nat)
    requires AllWordChars(a) && AllWordChars(b)
    requires Inserted(x, f, y) && TwoWordsAt(a, b, x + [' '] + f + y, i, j)
    ensures j + |b| <= |x| || |x| < i
  {
    var u := x + [' '] + f + y;
    InsertedChars(x, f, y);
    WordsAt(u, a, i);
    WordsAt(u, b, j);
  }

  lemma TwoWordsInsertion(a: string, b: string, x: string, f: string, y: string)
    requires a != [] && b != [] && AllWordChars(a) && AllWordChars(b)
    requires Inserted(x, f, y) && !Contains(f, a)
    requires Search(TwoWords(a, b), x + [' '] + f + y)
    ensures Search(TwoWords(a, b), x + y)
  {
    var u, s := x + [' '] + f + y, x + y;
    var i :| 0 <= i <= |u| && MatchAt(TwoWords(a, b), u, i);
    TwoWordsSpan(a, b, u, i);
    var j: nat :| TwoWordsAt(a, b, u, i, j);
    if j + |b| <= |x| {
      TwoWordsBefore(a, b, x, f, y, i, j);
      TwoWordsSpan(a, b, s, i);
    } else if i > |x| + 1 + |f| {
      TwoWordsAfter(a, b, x, f, y, i, j);
      TwoWordsSpan(a, b, s, i - 1 - |f|);
    } else {
      TwoWordsPlacement(a, b, x, f, y, i, j);
      WordInsideInsertion(x, f, y, a, i);
    }
  }

  /** A span that ends before the insertion point is a span of the text without the insertion. */
  lemma ProgramThenWordBefore(a: string, c: string, x: string, f: string, y: string, i: nat, j: nat, m: nat)
    requires Inserted(x, f, y) && ProgramThenWordAt(a, c, x + [' '] + f + y, i, j, m) && m + |c| <= |x|
    ensures ProgramThenWordAt(a, c, x + y, i, j, m)
  {
    var u, s := x + [' '] + f + y, x + y;
    InsertedChars(x, f, y);
    assert s[i..i + |a|] == u[i..i + |a|];
    assert s[m..m + |c|] == u[m..m + |c|];
    assert AllIn(Space, s, i + |a|, j);
    assert AllIn(Except(' '), s, j, m);
    assert AtBoundary(s, i);
  }

  /** A span that starts after the inserted flag is, shifted back, a span of the text without the insertion. */
  lemma ProgramThenWordAfter(a: string, c: string, x: string, f: string, y: string, i: nat, j: nat, m: nat)
    requires Inserted(x, f, y) && ProgramThenWordAt(a, c, x + [' '] + f + y, i, j, m) && i > |x| + 1 + |f|
    ensures ProgramThenWordAt(a, c, x + y, i - 1 - |f|, j - 1 - |f|, m - 1 - |f|)
  {
    AfterInsertion(x, f, y, i, |a|);
    AfterInsertion(x, f, y, m, |c|);
    AllInAfterInsertion(Space, x, f, y, i + |a|, j);
    AllInAfterInsertion(Except(' '), x, f, y, j, m);
    BoundaryAfterInsertion(x, f, y, i);
  }

  /**
   * A span that starts before the insertion point and reaches past it uses the inserted space
   * in its run of spaces; its run of non-blanks then starts at the flag and cannot leave it,
   * so `c` lies inside the flag.
   */
  lemma ProgramThenWordPlacement(a: string, c: string, x: string, f: string, y: string, i: nat, j: nat, m: nat)
    requires AllWordChars(a) && AllWordChars(c)
    requires Inserted(x, f, y) && ProgramThenWordAt(a, c, x + [' '] + f + y, i, j, m)
    ensures m + |c| <= |x| || |x| < i || Contains(f, c)
  {
    var u := x + [' '] + f + y;
    var k, e := |x|, |x| + 1 + |f|;
    InsertedChars(x, f, y);
    if i <= k < m + |c| {
      WordsAt(u, a, i);
      WordsAt(u, c, m);
      assert j == k + 1 && m + |c| <= e;
      if c == [] {
        assert OccursAt(f, c, 0);
      } else {
        WordInsideInsertion(x, f, y, c, m);
      }
    }
  }

  lemma ProgramThenWordInsertion(a: string, c: string, x: string, f: string, y: string)
    requires a != [] && c != [] && AllWordChars(a) && AllWordChars(c)
    requires Inserted(x, f, y) && !Contains(f, a) && !Contains(f, c)
    requires Search(ProgramThenWord(a, c), x + [' '] + f + y)
    ensures Search(ProgramThenWord(a, c), x + y)
  {
    var u, s := x + [' '] + f + y, x + y;
    var i :| 0 <= i <= |u| && MatchAt(ProgramThenWord(a, c), u, i);
    ProgramThenWordSpan(a, c, u, i);
    var j: nat, m: nat :| ProgramThenWordAt(a, c, u, i, j, m);
    if m + |c| <= |x| {
      ProgramThenWordBefore(a, c, x, f, y, i, j, m);
      ProgramThenWordSpan(a, c, s, i);
    } else if i > |x| + 1 + |f| {
      ProgramThenWordAfter(a, c, x, f, y, i, j, m);
      ProgramThenWordSpan(a, c, s, i - 1 - |f|);
    } else {
      ProgramThenWordPlacement(a, c, x, f, y, i, j, m);
      WordInsideInsertion(x, f, y, a, i);
    }
  }
}
