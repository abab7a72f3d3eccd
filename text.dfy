/**
 * The few pieces of Python's `str` behaviour the sandbox relies on:
 * `strip`/`rstrip` with Python's whitespace set, `lower`, substring tests and
 * first-occurrence search, `join`, `split`, and decimal numerals.
 */
module Text {
  import opened Wrappers

  /** The characters for which Python's `str.isspace()` holds (also what `\s` matches in `re`). */
  predicate IsSpace(c: char) {
    || c == ' '
    || '\U{9}' <= c <= '\U{D}'
    || '\U{1C}' <= c <= '\U{1F}'
    || c == '\U{85}' || c == '\U{A0}' || c == '\U{1680}'
    || '\U{2000}' <= c <= '\U{200A}'
    || c == '\U{2028}' || c == '\U{2029}' || c == '\U{202F}' || c == '\U{205F}' || c == '\U{3000}'
  }

  predicate IsDigit(c: char) {
    '0' <= c <= '9'
  }

  /** What `\w` matches, restricted to ASCII. */
  predicate IsWordChar(c: char) {
    'a' <= c <= 'z' || 'A' <= c <= 'Z' || IsDigit(c) || c == '_'
  }

  // ---------------------------------------------------------------- stripping

  /** `s.lstrip()`: the longest suffix of `s` that does not start with whitespace. */
  function LStrip(s: string): (r: string)
    ensures |r| <= |s| && r == s[|s| - |r|..]
    ensures r == [] || !IsSpace(r[0])
    ensures forall i :: 0 <= i < |s| - |r| ==> IsSpace(s[i])
  {
    if s != [] && IsSpace(s[0]) then LStrip(s[1..]) else s
  }

  /** `s.rstrip()`: the longest prefix of `s` that does not end with whitespace. */
  function RStrip(s: string): (r: string)
    ensures |r| <= |s| && r == s[..|r|]
    ensures r == [] || !IsSpace(r[|r| - 1])
    ensures forall i :: |r| <= i < |s| ==> IsSpace(s[i])
  {
    if s != [] && IsSpace(s[|s| - 1]) then RStrip(s[..|s| - 1]) else s
  }

  /** A string with no whitespace at either end. */
  predicate Stripped(s: string) {
    s == [] || (!IsSpace(s[0]) && !IsSpace(s[|s| - 1]))
  }

  /** `s.strip()`. */
  function Strip(s: string): (r: string)
    ensures Stripped(r)
    ensures |r| <= |s|
  {
    RStrip(LStrip(s))
  }

  /** `r` is the stretch of `s` starting at `i`, and only whitespace lies around it. */
  predicate StrippedAt(s: string, r: string, i: nat) {
    && i + |r| <= |s| && r == s[i..i + |r|]
    && (forall k :: 0 <= k < i ==> IsSpace(s[k]))
    && (forall k :: i + |r| <= k < |s| ==> IsSpace(s[k]))
  }

  /** `s.strip()` is `s` with the whitespace at both ends removed, and nothing else. */
  lemma {:induction false} StripSpan(s: string)
    ensures exists i :: StrippedAt(s, Strip(s), i)
  {
    var t := LStrip(s);
    SuffixPrefixSpan(s, t, RStrip(t));
    assert StrippedAt(s, Strip(s), |s| - |t|);
  }

  /** A prefix `r` of a suffix `t` of `s`, with whitespace dropped on both sides, is a stripped stretch of `s`. */
  lemma SuffixPrefixSpan(s: string, t: string, r: string)
    requires |t| <= |s| && t == s[|s| - |t|..] && (forall k :: 0 <= k < |s| - |t| ==> IsSpace(s[k]))
    requires |r| <= |t| && r == t[..|r|] && (forall k :: |r| <= k < |t| ==> IsSpace(t[k]))
    ensures StrippedAt(s, r, |s| - |t|)
  {
    var i := |s| - |t|;
    assert r == s[i..i + |r|];
    forall k | i + |r| <= k < |s| ensures IsSpace(s[k]) {
      assert s[k] == t[k - i];
    }
  }

  /** Stripping a string that has no surrounding whitespace changes nothing; in particular `Strip` is idempotent. */
  lemma StripFixed(s: string)
    requires Stripped(s)
    ensures Strip(s) == s
  {
  }

  lemma StripIdempotent(s: string)
    ensures Strip(Strip(s)) == Strip(s)
  {
    StripFixed(Strip(s));
  }

  // ---------------------------------------------------------------- case

  /** `lower()` on one character, for the ASCII letters. */
  function LowerChar(c: char): char {
    if 'A' <= c <= 'Z' then (c as int + 32) as char else c
  }

  function Lower(s: string): (r: string)
    ensures |r| == |s|
    ensures forall i :: 0 <= i < |s| ==> r[i] == LowerChar(s[i])
  {
    seq(|s|, i requires 0 <= i < |s| => LowerChar(s[i]))
  }

  /** A string that `Lower` leaves alone. */
  predicate IsLower(s: string) {
    forall i :: 0 <= i < |s| ==> LowerChar(s[i]) == s[i]
  }

  lemma LowerConcat(a: string, b: string)
    ensures Lower(a + b) == Lower(a) + Lower(b)
  {
    assert forall i :: 0 <= i < |a + b| ==> Lower(a + b)[i] == (Lower(a) + Lower(b))[i];
  }

  lemma LowerOfLower(s: string)
    requires IsLower(s)
    ensures Lower(s) == s
  {
  }

  lemma LowerSlice(s: string, i: int, j: int)
    requires 0 <= i <= j <= |s|
    ensures Lower(s[i..j]) == Lower(s)[i..j]
  {
  }

  /** Lower-casing keeps whitespace where it is, so it commutes with stripping. */
  lemma LowerStripped(s: string)
    requires Stripped(s)
    ensures Stripped(Lower(s))
  {
  }

  // ---------------------------------------------------------------- substrings

  /** `t` occurs in `s` starting at index `i`. */
  predicate OccursAt(s: string, t: string, i: int) {
    0 <= i && i + |t| <= |s| && s[i..i + |t|] == t
  }

  /** Python's `t in s` for strings. */
  predicate Contains(s: string, t: string) {
    exists i :: 0 <= i <= |s| && OccursAt(s, t, i)
  }

  function FindFrom(s: string, t: string, k: nat): (r: Option<nat>)
    requires k <= |s|
    ensures r.Some? ==> k <= r.value && OccursAt(s, t, r.value)
    ensures r.Some? ==> forall j :: k <= j < r.value ==> !OccursAt(s, t, j)
    ensures r.None? ==> forall j :: k <= j <= |s| ==> !OccursAt(s, t, j)
    decreases |s| - k
  {
    if OccursAt(s, t, k) then Some(k)
    else if k == |s| then None
    else FindFrom(s, t, k + 1)
  }

  /** `s.find(t)`, with `None` for -1: the first index at which `t` occurs. */
  function Find(s: string, t: string): (r: Option<nat>)
    ensures r.Some? <==> Contains(s, t)
    ensures r.Some? ==> OccursAt(s, t, r.value)
    ensures r.Some? ==> forall j :: 0 <= j < r.value ==> !OccursAt(s, t, j)
  {
    FindFrom(s, t, 0)
  }

  /** The first occurrence of a character is just after the longest prefix that lacks it. */
  lemma FindCharAfter(a: string, c: char, b: string)
    requires c !in a
    ensures Find(a + [c] + b, [c]) == Some(|a|)
  {
    var s := a + [c] + b;
    assert OccursAt(s, [c], |a|);
    forall j | 0 <= j < |a| ensures !OccursAt(s, [c], j) {
      assert s[j..j + 1] == [a[j]];
    }
  }

  lemma ContainsLeft(a: string, b: string, t: string)
    requires Contains(a, t)
    ensures Contains(a + b, t)
  {
    var i :| 0 <= i <= |a| && OccursAt(a, t, i);
    assert (a + b)[i..i + |t|] == a[i..i + |t|];
    assert OccursAt(a + b, t, i);
  }

  lemma ContainsRight(a: string, b: string, t: string)
    requires Contains(b, t)
    ensures Contains(a + b, t)
  {
    var i :| 0 <= i <= |b| && OccursAt(b, t, i);
    assert (a + b)[|a| + i..|a| + i + |t|] == b[i..i + |t|];
    assert OccursAt(a + b, t, |a| + i);
  }

  /** Whoever contains `a + b` contains `b`. */
  lemma ContainsTail(s: string, a: string, b: string)
    requires Contains(s, a + b)
    ensures Contains(s, b)
  {
    var i :| 0 <= i <= |s| && OccursAt(s, a + b, i);
    assert s[i + |a|..i + |a| + |b|] == (a + b)[|a|..];
    assert OccursAt(s, b, i + |a|);
  }

  lemma ContainsSelf(s: string)
    ensures Contains(s, s)
  {
    assert OccursAt(s, s, 0);
  }

  lemma ContainsLower(s: string, t: string)
    requires Contains(s, t)
    ensures Contains(Lower(s), Lower(t))
  {
    var i :| 0 <= i <= |s| && OccursAt(s, t, i);
    LowerSlice(s, i, i + |t|);
    assert OccursAt(Lower(s), Lower(t), i);
  }

  /** `s` with `x` inserted before index `k`. */
  function Insert(s: string, k: nat, x: string): (r: string)
    requires k <= |s|
    ensures |r| == |s| + |x|
    ensures r[..k] == s[..k] && r[k..k + |x|] == x && r[k + |x|..] == s[k..]
  {
    s[..k] + x + s[k..]
  }

  /** `s.replace(target, replacement, 1)`: the first occurrence of `target` replaced. */
  function ReplaceFirst(s: string, target: string, replacement: string): string {
    match Find(s, target)
    case Some(k) => s[..k] + replacement + s[k + |target|..]
    case None => s
  }

  /**
   * An insertion just before a space (or at the end) keeps every occurrence of a text whose
   * only space, if any, is its first character: no occurrence can straddle the insertion point.
   */
  lemma ContainsAfterInsert(s: string, k: nat, x: string, t: string)
    requires k <= |s| && (k < |s| ==> s[k] == ' ')
    requires forall m :: 1 <= m < |t| ==> t[m] != ' '
    requires Contains(s, t)
    ensures Contains(Insert(s, k, x), t)
  {
    var u := Insert(s, k, x);
    var j :| 0 <= j <= |s| && OccursAt(s, t, j);
    if j + |t| <= k {
      assert u[j..j + |t|] == s[j..j + |t|] by {
        assert u[..k] == s[..k];
        assert u[j..j + |t|] == u[..k][j..j + |t|] && s[j..j + |t|] == s[..k][j..j + |t|];
      }
      assert OccursAt(u, t, j);
    } else if j >= k {
      assert u[j + |x|..j + |x| + |t|] == s[j..j + |t|] by {
        assert u[k + |x|..] == s[k..];
        assert u[j + |x|..j + |x| + |t|] == u[k + |x|..][j - k..j - k + |t|];
        assert s[j..j + |t|] == s[k..][j - k..j - k + |t|];
      }
      assert OccursAt(u, t, j + |x|);
    }
    // An occurrence with j < k < j + |t| would have the space s[k] at index k - j >= 1 of t.
  }

  /** Lower-casing commutes with inserting text that is already lower-case. */
  lemma LowerInsert(s: string, k: nat, x: string)
    requires k <= |s| && IsLower(x)
    ensures Lower(Insert(s, k, x)) == Insert(Lower(s), k, x)
  {
    LowerConcat(s[..k] + x, s[k..]);
    LowerConcat(s[..k], x);
    LowerOfLower(x);
    LowerSlice(s, 0, k);
    LowerSlice(s, k, |s|);
    assert s[0..k] == s[..k] && s[k..|s|] == s[k..];
    assert Lower(s)[0..k] == Lower(s)[..k] && Lower(s)[k..|s|] == Lower(s)[k..];
  }

  // ---------------------------------------------------------------- join and split

  /** `sep.join(parts)`. */
  function Join(parts: seq<string>, sep: string): string
    decreases |parts|
  {
    if |parts| == 0 then ""
    else if |parts| == 1 then parts[0]
    else parts[0] + sep + Join(parts[1..], sep)
  }

  lemma {:induction false} JoinAvoids(parts: seq<string>, sep: string, x: char)
    requires x !in sep && forall k :: 0 <= k < |parts| ==> x !in parts[k]
    ensures x !in Join(parts, sep)
    decreases |parts|
  {
    if |parts| > 1 {
      JoinAvoids(parts[1..], sep, x);
    }
  }

  /** `s.split(c)` for one separator character: the pieces between the separators, joined back to `s`. */
  function Split(s: string, c: char): (r: seq<string>)
    ensures |r| >= 1
    ensures forall k :: 0 <= k < |r| ==> c !in r[k]
    ensures forall k, x :: 0 <= k < |r| && x in r[k] ==> x in s
    ensures Join(r, [c]) == s
    decreases |s|
  {
    if s == [] then [""]
    else
      var rest := Split(s[1..], c);
      if s[0] == c then
        assert [c] + Join(rest, [c]) == s;
        [""] + rest
      else
        var r := [[s[0]] + rest[0]] + rest[1..];
        SplitCons(s[0], rest, c);
        assert s == [s[0]] + s[1..];
        r
  }

  /** Putting a non-separator character in front of the first piece puts it in front of the join. */
  lemma SplitCons(x: char, rest: seq<string>, c: char)
    requires |rest| >= 1 && x != c
    requires forall k :: 0 <= k < |rest| ==> c !in rest[k]
    ensures var r := [[x] + rest[0]] + rest[1..];
      && Join(r, [c]) == [x] + Join(rest, [c])
      && (forall k :: 0 <= k < |r| ==> c !in r[k])
      && (forall k, y :: 0 <= k < |r| && y in r[k] ==> y == x || y in Join(rest, [c]))
  {
    SplitConsJoin(x, rest, c);
    SplitConsFree(x, rest, c);
    SplitConsChars(x, rest, c);
  }

  lemma {:induction false} SplitConsJoin(x: char, rest: seq<string>, c: char)
    requires |rest| >= 1
    ensures Join([[x] + rest[0]] + rest[1..], [c]) == [x] + Join(rest, [c])
  {
    var r := [[x] + rest[0]] + rest[1..];
    assert |r| == |rest| && r[0] == [x] + rest[0] && r[1..] == rest[1..];
    if |rest| > 1 {
      var tail := Join(rest[1..], [c]);
      assert ([x] + rest[0]) + [c] + tail == [x] + (rest[0] + [c] + tail);
    }
  }

  lemma SplitConsFree(x: char, rest: seq<string>, c: char)
    requires |rest| >= 1 && x != c
    requires forall k :: 0 <= k < |rest| ==> c !in rest[k]
    ensures var r := [[x] + rest[0]] + rest[1..]; forall k :: 0 <= k < |r| ==> c !in r[k]
  {
    var r := [[x] + rest[0]] + rest[1..];
    forall k | 0 <= k < |r| ensures c !in r[k] {
      if k > 0 {
        assert r[k] == rest[k];
      }
    }
  }

  lemma SplitConsChars(x: char, rest: seq<string>, c: char)
    requires |rest| >= 1
    ensures var r := [[x] + rest[0]] + rest[1..];
      forall k, y :: 0 <= k < |r| && y in r[k] ==> y == x || y in Join(rest, [c])
  {
    var r := [[x] + rest[0]] + rest[1..];
    forall k, y | 0 <= k < |r| && y in r[k] ensures y == x || y in Join(rest, [c]) {
      if k > 0 {
        assert r[k] == rest[k];
        JoinHolds(rest, c, k, y);
      } else if y != x {
        JoinHolds(rest, c, 0, y);
      }
    }
  }

  /** Every character of a piece is a character of the join. */
  lemma JoinHolds(parts: seq<string>, c: char, k: nat, y: char)
    requires k < |parts|
    requires y in parts[k]
    ensures y in Join(parts, [c])
    decreases |parts|
  {
    if |parts| > 1 && k > 0 {
      assert parts[1..][k - 1] == parts[k];
      JoinHolds(parts[1..], c, k - 1, y);
    }
  }

  /** The first separator of a join of separator-free pieces ends the first piece. */
  lemma FirstSeparator(p: seq<string>, c: char)
    requires |p| > 1
    requires c !in p[0]
    ensures Join(p, [c]) == p[0] + [c] + Join(p[1..], [c])
    ensures Join(p, [c])[|p[0]|] == c
    ensures forall i :: 0 <= i < |p[0]| ==> Join(p, [c])[i] != c
  {
    var s := Join(p, [c]);
    forall i | 0 <= i < |p[0]| ensures s[i] != c {
      assert s[i] == p[0][i];
    }
  }

  /** Joining pieces that do not contain the separator loses nothing: the pieces are determined by the result. */
  lemma {:induction false} JoinInjective(p: seq<string>, q: seq<string>, c: char)
    requires |p| >= 1 && |q| >= 1
    requires forall k :: 0 <= k < |p| ==> c !in p[k]
    requires forall k :: 0 <= k < |q| ==> c !in q[k]
    requires Join(p, [c]) == Join(q, [c])
    ensures p == q
    decreases |p|
  {
    var s := Join(p, [c]);
    if |p| > 1 && |q| > 1 {
      FirstSeparator(p, c);
      FirstSeparator(q, c);
      if |p[0]| == |q[0]| {
        assert p[0] == s[..|p[0]|] == q[0];
        assert Join(p[1..], [c]) == s[|p[0]| + 1..] == Join(q[1..], [c]);
        JoinInjective(p[1..], q[1..], c);
        assert p == [p[0]] + p[1..] && q == [q[0]] + q[1..];
      }
    } else if |p| > 1 {
      FirstSeparator(p, c);
    } else if |q| > 1 {
      FirstSeparator(q, c);
    }
  }

  /** `sep.join(parts).split(sep)` gives the parts back when none of them contains the separator. */
  lemma SplitJoin(parts: seq<string>, c: char)
    requires |parts| >= 1
    requires forall k :: 0 <= k < |parts| ==> c !in parts[k]
    ensures Split(Join(parts, [c]), c) == parts
  {
    JoinInjective(Split(Join(parts, [c]), c), parts, c);
  }

  // ---------------------------------------------------------------- decimal numerals

  function DigitChar(d: nat): (c: char)
    requires d < 10
    ensures IsDigit(c)
  {
    ('0' as int + d) as char
  }

  function DigitValue(c: char): (d: nat)
    requires IsDigit(c)
    ensures d < 10
  {
    c as int - '0' as int
  }

  predicate AllDigits(s: string) {
    forall i :: 0 <= i < |s| ==> IsDigit(s[i])
  }

  /** `str(n)` for a non-negative integer. */
  function NatToString(n: nat): (r: string)
    ensures |r| >= 1 && AllDigits(r)
    decreases n
  {
    if n < 10 then [DigitChar(n)] else NatToString(n / 10) + [DigitChar(n % 10)]
  }

  /** `int(s)` for a string of decimal digits (the empty string reads as 0). */
  function DigitsValue(s: string): nat
    requires AllDigits(s)
  {
    if s == [] then 0 else 10 * DigitsValue(s[..|s| - 1]) + DigitValue(s[|s| - 1])
  }

  lemma {:induction false} DigitsValueOfNatToString(n: nat)
    ensures DigitsValue(NatToString(n)) == n
    decreases n
  {
    if n >= 10 {
      DigitsValueOfNatToString(n / 10);
      var s := NatToString(n);
      assert s[..|s| - 1] == NatToString(n / 10);
    }
  }
}
