/**
 * The fragment of Python's `re` that the executor's two pattern catalogs use: literals,
 * alternation groups of literals, `\s+`, `[^ ]*`, `.*` and `.+`, and the word boundary `\b`.
 * `Search` is `re.search(pattern, s) is not None`: whether a match starts anywhere.
 * A backtracking matcher finds a match exactly when one exists, so the matcher below
 * explores every choice instead of following the greedy order.
 */
module Regex {
  import opened Text

  /** The single-character classes: `\s`, `[^c]` and `.` (any character but a newline). */
  datatype CharClass = Space | Except(c: char) | NotNewline

  predicate InClass(k: CharClass, c: char) {
    match k
    case Space => IsSpace(c)
    case Except(x) => c != x
    case NotNewline => c != '\n'
  }

  datatype Elem =
    | Word(w: string)                         // a literal
    | Choice(alternatives: seq<string>)       // a group `(a|b|…)` of literals
    | Repeat(k: CharClass, atLeastOne: bool)  // `k+` when atLeastOne, `k*` otherwise
    | Boundary                                // `\b`

  type Pattern = seq<Elem>

  /** `\b` at position `i`: a word character on exactly one side. */
  predicate AtBoundary(s: string, i: nat)
    requires i <= |s|
  {
    (i > 0 && IsWordChar(s[i - 1])) != (i < |s| && IsWordChar(s[i]))
  }

  /** The pattern matches some stretch of `s` that starts at `i`. */
  predicate MatchAt(p: Pattern, s: string, i: nat)
    requires i <= |s|
    decreases |p|, |s| - i
  {
    if p == [] then true
    else match p[0]
      case Word(w) => OccursAt(s, w, i) && MatchAt(p[1..], s, i + |w|)
      case Choice(ws) => exists n :: 0 <= n < |ws| && OccursAt(s, ws[n], i) && MatchAt(p[1..], s, i + |ws[n]|)
      case Repeat(k, one) =>
        (!one && MatchAt(p[1..], s, i))
        || (i < |s| && InClass(k, s[i]) && MatchAt([Repeat(k, false)] + p[1..], s, i + 1))
      case Boundary => AtBoundary(s, i) && MatchAt(p[1..], s, i)
  }

  /** `re.search(p, s)` finds a match. */
  predicate Search(p: Pattern, s: string) {
    exists i :: 0 <= i <= |s| && MatchAt(p, s, i)
  }

  /** Every character of `s[i..j]` is in the class. */
  predicate AllIn(k: CharClass, s: string, i: nat, j: nat)
    requires i <= j <= |s|
  {
    forall x :: i <= x < j ==> InClass(k, s[x])
  }

  /** A repetition consumes any run of characters of its class (at least one for `+`), and the rest of the pattern matches after it. */
  lemma RepeatSpan(k: CharClass, one: bool, rest: Pattern, s: string, i: nat)
    requires i <= |s|
    ensures MatchAt([Repeat(k, one)] + rest, s, i) <==>
      exists j :: i + (if one then 1 else 0) <= j <= |s| && AllIn(k, s, i, j) && MatchAt(rest, s, j)
  {
    if MatchAt([Repeat(k, one)] + rest, s, i) {
      var j := RepeatSpanOfMatch(k, one, rest, s, i);
    }
    if exists j :: i + (if one then 1 else 0) <= j <= |s| && AllIn(k, s, i, j) && MatchAt(rest, s, j) {
      var j :| i + (if one then 1 else 0) <= j <= |s| && AllIn(k, s, i, j) && MatchAt(rest, s, j);
      RepeatMatchOfSpan(k, one, rest, s, i, j);
    }
  }

  /** One step of a repetition: stop here (for `*`), or consume a class character and go on as `*`. */
  lemma RepeatStep(k: CharClass, one: bool, rest: Pattern, s: string, i: nat)
    requires i <= |s|
    ensures MatchAt([Repeat(k, one)] + rest, s, i) <==>
      (!one && MatchAt(rest, s, i)) || (i < |s| && InClass(k, s[i]) && MatchAt([Repeat(k, false)] + rest, s, i + 1))
  {
    var p := [Repeat(k, one)] + rest;
    assert p[0] == Repeat(k, one) && p[1..] == rest;
  }

  lemma {:induction false} RepeatSpanOfMatch(k: CharClass, one: bool, rest: Pattern, s: string, i: nat) returns (j: nat)
    requires i <= |s| && MatchAt([Repeat(k, one)] + rest, s, i)
    ensures i + (if one then 1 else 0) <= j <= |s| && AllIn(k, s, i, j) && MatchAt(rest, s, j)
    decreases |s| - i
  {
    RepeatStep(k, one, rest, s, i);
    if !one && MatchAt(rest, s, i) {
      j := i;
    } else {
      j := RepeatSpanOfMatch(k, false, rest, s, i + 1);
    }
  }

  lemma {:induction false} RepeatMatchOfSpan(k: CharClass, one: bool, rest: Pattern, s: string, i: nat, j: nat)
    requires i + (if one then 1 else 0) <= j <= |s| && AllIn(k, s, i, j) && MatchAt(rest, s, j)
    ensures MatchAt([Repeat(k, one)] + rest, s, i)
    decreases j - i
  {
    RepeatStep(k, one, rest, s, i);
    if j > i {
      assert AllIn(k, s, i + 1, j);
      RepeatMatchOfSpan(k, false, rest, s, i + 1, j);
    }
  }

  /** A match of an alternation group picks one of its literals, and the rest matches after it. */
  lemma ChoicePick(p: Pattern, s: string, i: nat) returns (n: nat)
    requires i <= |s| && p != [] && p[0].Choice? && MatchAt(p, s, i)
    ensures n < |p[0].alternatives| && OccursAt(s, p[0].alternatives[n], i)
    ensures MatchAt(p[1..], s, i + |p[0].alternatives[n]|)
  {
    var ws := p[0].alternatives;
    n :| 0 <= n < |ws| && OccursAt(s, ws[n], i) && MatchAt(p[1..], s, i + |ws[n]|);
  }

  /** One literal of an alternation group occurring here, followed by a match of the rest, is a match. */
  lemma ChoiceIntro(p: Pattern, s: string, i: nat, n: nat)
    requires i <= |s| && p != [] && p[0].Choice? && n < |p[0].alternatives|
    requires OccursAt(s, p[0].alternatives[n], i) && MatchAt(p[1..], s, i + |p[0].alternatives[n]|)
    ensures MatchAt(p, s, i)
  {
  }

  lemma OccursAtExtends(s: string, t: string, i: nat, w: string)
    requires OccursAt(s, w, i)
    ensures OccursAt(s + t, w, i)
  {
    assert (s + t)[i..i + |w|] == s[i..i + |w|];
  }

  lemma BoundaryExtends(s: string, t: string, i: nat)
    requires i <= |s| && AtBoundary(s, i)
    requires t == [] || !IsWordChar(t[0])
    ensures AtBoundary(s + t, i)
  {
    var u := s + t;
    if i > 0 {
      assert u[i - 1] == s[i - 1];
    }
    if i < |s| {
      assert u[i] == s[i];
    } else if i < |u| {
      assert u[i] == t[0];
    }
  }

  /** A literal element matches exactly when the literal occurs here and the rest matches after it. */
  lemma WordStep(p: Pattern, s: string, i: nat)
    requires i <= |s| && p != [] && p[0].Word?
    ensures MatchAt(p, s, i) <==> OccursAt(s, p[0].w, i) && MatchAt(p[1..], s, i + |p[0].w|)
  {
  }

  /**
   * A match survives appending text that starts with a non-word character: every element
   * sees the same characters, and a `\b` at the old end still sees a non-word character after it.
   */
  lemma {:induction false} MatchAtExtends(p: Pattern, s: string, t: string, i: nat)
    requires i <= |s| && MatchAt(p, s, i)
    requires t == [] || !IsWordChar(t[0])
    ensures MatchAt(p, s + t, i)
    decreases |p|, |s| - i, 1
  {
    if p != [] {
      match p[0]
      case Word(w) => WordExtends(p, s, t, i);
      case Choice(ws) => ChoiceExtends(p, s, t, i);
      case Repeat(k, one) =>
        if !one && MatchAt(p[1..], s, i) {
          MatchAtExtends(p[1..], s, t, i);
        } else {
          assert (s + t)[i] == s[i];
          MatchAtExtends([Repeat(k, false)] + p[1..], s, t, i + 1);
        }
      case Boundary =>
        BoundaryExtends(s, t, i);
        MatchAtExtends(p[1..], s, t, i);
    }
  }

  lemma {:induction false} WordExtends(p: Pattern, s: string, t: string, i: nat)
    requires i <= |s| && p != [] && p[0].Word? && MatchAt(p, s, i)
    requires t == [] || !IsWordChar(t[0])
    ensures MatchAt(p, s + t, i)
    decreases |p|, |s| - i, 0
  {
    var w := p[0].w;
    WordPick(p, s, i);
    OccursAtExtends(s, t, i, w);
    MatchAtExtends(p[1..], s, t, i + |w|);
    WordIntro(p, s + t, i);
  }

  lemma WordPick(p: Pattern, s: string, i: nat)
    requires i <= |s| && p != [] && p[0].Word? && MatchAt(p, s, i)
    ensures OccursAt(s, p[0].w, i) && MatchAt(p[1..], s, i + |p[0].w|)
  {
  }

  lemma WordIntro(p: Pattern, s: string, i: nat)
    requires i <= |s| && p != [] && p[0].Word?
    requires OccursAt(s, p[0].w, i) && MatchAt(p[1..], s, i + |p[0].w|)
    ensures MatchAt(p, s, i)
  {
  }

  lemma {:induction false} ChoiceExtends(p: Pattern, s: string, t: string, i: nat)
    requires i <= |s| && p != [] && p[0].Choice? && MatchAt(p, s, i)
    requires t == [] || !IsWordChar(t[0])
    ensures MatchAt(p, s + t, i)
    decreases |p|, |s| - i, 0
  {
    var ws := p[0].alternatives;
    var n := ChoicePick(p, s, i);
    OccursAtExtends(s, t, i, ws[n]);
    MatchAtExtends(p[1..], s, t, i + |ws[n]|);
    ChoiceIntro(p, s + t, i, n);
  }

  lemma SearchExtends(p: Pattern, s: string, t: string)
    requires Search(p, s)
    requires t == [] || !IsWordChar(t[0])
    ensures Search(p, s + t)
  {
    var i :| 0 <= i <= |s| && MatchAt(p, s, i);
    MatchAtExtends(p, s, t, i);
  }

  // ------------------------------------------------------------ the executor's catalogs

  /** `\s+` */
  const Spaces: Elem := Repeat(Space, true)

  /** The program-and-word shape `\b<a>\s+<b>\b`. */
  function TwoWords(a: string, b: string): Pattern {
    [Boundary, Word(a), Spaces, Word(b), Boundary]
  }

  /** The shape `\b<a>\s+<b>\s+<c>\b`. */
  function ThreeWords(a: string, b: string, c: string): Pattern {
    [Boundary, Word(a), Spaces, Word(b), Spaces, Word(c), Boundary]
  }

  /** `_YES_FLAG_PATTERNS`: scaffolding commands that would otherwise ask questions. */
  const YesFlagPatterns: seq<Pattern> := [
    TwoWords("npm", "init"),
    TwoWords("npm", "create"),
    [Boundary, Word("npx"), Spaces, Repeat(Except(' '), false), Word("create")],
    TwoWords("yarn", "create"),
    TwoWords("pnpm", "create")
  ]

  /** `_DEV_SERVER_PATTERNS`: dev servers and watchers that never exit on their own. */
  const DevServerPatterns: seq<Pattern> := [
    [Boundary, Word("npm"), Spaces, Word("run"), Spaces, Choice(["dev", "start", "preview", "serve", "storybook"]), Boundary],
    [Boundary, Word("npm"), Spaces, Word("run"), Spaces, Repeat(NotNewline, false), Choice(["--watch", "--serve"]), Boundary],
    ThreeWords("npx", "next", "dev"),
    TwoWords("next", "dev"),
    TwoWords("vite", "dev"),
    ThreeWords("npx", "vite", "dev"),
    [Boundary, Word("pnpm"), Spaces, Choice(["dev", "preview", "start", "serve"]), Boundary],
    [Boundary, Word("yarn"), Spaces, Choice(["dev", "start", "preview", "serve", "storybook"]), Boundary],
    ThreeWords("npx", "astro", "dev"),
    ThreeWords("npx", "remix", "dev"),
    TwoWords("npx", "expo"),
    TwoWords("expo", "start"),
    [Boundary, Word("uvicorn"), Boundary, Repeat(NotNewline, true), Choice(["--reload", "--workers"])],
    TwoWords("flask", "run"),
    TwoWords("django-admin", "runserver"),
    ThreeWords("python", "-m", "http.server"),
    TwoWords("nuxi", "dev"),
    ThreeWords("npx", "nuxt", "dev")
  ]

  /** Some pattern of the catalog finds a match in `s`. */
  predicate AnySearch(patterns: seq<Pattern>, s: string) {
    exists n :: 0 <= n < |patterns| && Search(patterns[n], s)
  }

  lemma AnySearchExtends(patterns: seq<Pattern>, s: string, t: string)
    requires AnySearch(patterns, s)
    requires t == [] || !IsWordChar(t[0])
    ensures AnySearch(patterns, s + t)
  {
    var n :| 0 <= n < |patterns| && Search(patterns[n], s);
    SearchExtends(patterns[n], s, t);
  }
}
