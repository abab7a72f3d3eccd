/**
 * Lexical path resolution for the workspace sandbox (`WorkspaceEditor._resolve` and
 * `_relative_path`). A location is the list of names below the filesystem root `/`;
 * `Path.resolve()` is modelled as the left-to-right walk that drops `.` and lets `..`
 * climb one level (never above `/`). Symbolic links are not modelled.
 */
module Paths {
  import opened Wrappers
  import opened Text

  /** An absolute location: the names below `/`, outermost first. `[]` is `/` itself. */
  type Path = seq<string>

  /** A name `pathlib` keeps after parsing: non-empty, not `.`, and free of `/`. */
  predicate IsName(n: string) {
    n != "" && n != "." && '/' !in n
  }

  /** What `Path.resolve()` can produce: names only, with no `..` left and no NUL character. */
  predicate Canonical(p: seq<string>) {
    forall k :: 0 <= k < |p| ==> IsName(p[k]) && p[k] != ".." && '\0' !in p[k]
  }

  /** A resolved directory such as the workspace root. */
  type Root = p: Path | Canonical(p) witness []

  predicate IsAbsolute(s: string) {
    |s| > 0 && s[0] == '/'
  }

  /** The pieces that survive `pathlib` parsing: empty pieces and `.` are dropped. */
  function Keep(pieces: seq<string>): (r: seq<string>)
    ensures forall k :: 0 <= k < |r| ==> r[k] in pieces && r[k] != "" && r[k] != "."
    ensures |r| <= |pieces|
  {
    if pieces == [] then []
    else if pieces[0] == "" || pieces[0] == "." then Keep(pieces[1..])
    else [pieces[0]] + Keep(pieces[1..])
  }

  /** The names of `Path(s)`. */
  function Parts(s: string): (r: seq<string>)
    ensures forall k :: 0 <= k < |r| ==> IsName(r[k])
    ensures '\0' !in s ==> forall k :: 0 <= k < |r| ==> '\0' !in r[k]
  {
    Keep(Split(s, '/'))
  }

  /** One step of the walk: `..` climbs a level (staying at `/` when already there); any other name descends. */
  function Step(at: Path, name: string): Path {
    if name == ".." then (if at == [] then [] else at[..|at| - 1]) else at + [name]
  }

  /** Walk the names from `at`, left to right. */
  function Walk(at: Path, names: seq<string>): Path
    decreases |names|
  {
    if names == [] then at else Walk(Step(at, names[0]), names[1..])
  }

  /**
   * The location `Path(candidate)` names once joined to `root` (only when it is relative)
   * and resolved.
   */
  function Resolve(root: Path, candidate: string): Path {
    Walk([], if IsAbsolute(candidate) then Parts(candidate) else root + Parts(candidate))
  }

  /** `p.relative_to(root)` succeeds. */
  predicate Within(root: Path, p: Path) {
    |root| <= |p| && p[..|root|] == root
  }

  /** Why `_resolve` raises: `Path.resolve()` refuses a NUL byte; `relative_to` refuses an escape. */
  datatype PathError = EmbeddedNul | OutsideWorkspace(candidate: string)

  /** `_resolve` without the directory creation: the target inside the workspace, or the error raised. */
  function ResolveInWorkspace(root: Path, candidate: string): (r: Result<Path, PathError>)
    requires Canonical(root)
    ensures r.Ok? ==> Within(root, r.value) && Canonical(r.value)
    ensures r.Ok? ==> r.value == Resolve(root, candidate)
    ensures r == Err(EmbeddedNul) <==> '\0' in candidate
    ensures r.Err? && '\0' !in candidate ==> r.error == OutsideWorkspace(candidate) && !Within(root, Resolve(root, candidate))
  {
    if '\0' in candidate then Err(EmbeddedNul)
    else
      var target := Resolve(root, candidate);
      ResolveCanonical(root, candidate);
      if Within(root, target) then Ok(target) else Err(OutsideWorkspace(candidate))
  }

  /** `p.relative_to(root)`. */
  function Relative(root: Path, p: Path): (r: seq<string>)
    requires Within(root, p)
    ensures root + r == p
  {
    p[|root|..]
  }

  /** `as_posix()` of a relative path: the names joined by `/`, or `.` for none. */
  function AsPosix(rel: seq<string>): string {
    if rel == [] then "." else Join(rel, "/")
  }

  /** The `as_posix()` text of a relative path is never empty, and it splits back at `/` into exactly its names. */
  lemma AsPosixSplits(rel: seq<string>)
    requires Canonical(rel)
    ensures AsPosix(rel) != ""
    ensures rel == [] <==> AsPosix(rel) == "."
    ensures rel != [] ==> Split(AsPosix(rel), '/') == rel
  {
    if rel != [] {
      SplitJoin(rel, '/');
      assert Split("", '/') == [""];
      assert Split(".", '/') == ["."];
    }
  }

  /** `_relative_path`: the workspace-relative display form of the candidate's target. */
  function DisplayPath(root: Path, candidate: string): (r: Result<string, PathError>)
    requires Canonical(root)
    ensures r.Ok? <==> ResolveInWorkspace(root, candidate).Ok?
  {
    match ResolveInWorkspace(root, candidate)
    case Ok(target) => Ok(AsPosix(Relative(root, target)))
    case Err(e) => Err(e)
  }

  // ------------------------------------------------------------ lemmas about the walk

  lemma {:induction false} WalkConcat(at: Path, a: seq<string>, b: seq<string>)
    ensures Walk(at, a + b) == Walk(Walk(at, a), b)
    decreases |a|
  {
    if a == [] {
      assert a + b == b;
    } else {
      assert (a + b)[1..] == a[1..] + b;
      WalkConcat(Step(at, a[0]), a[1..], b);
    }
  }

  lemma {:induction false} WalkPlain(at: Path, names: seq<string>)
    requires forall k :: 0 <= k < |names| ==> names[k] != ".."
    ensures Walk(at, names) == at + names
    decreases |names|
  {
    if names != [] {
      WalkPlain(at + [names[0]], names[1..]);
      assert at + [names[0]] + names[1..] == at + names;
    }
  }

  lemma {:induction false} WalkKeepsCanonical(at: Path, names: seq<string>)
    requires Canonical(at)
    requires forall k :: 0 <= k < |names| ==> IsName(names[k]) && '\0' !in names[k]
    ensures Canonical(Walk(at, names))
    decreases |names|
  {
    if names != [] {
      WalkKeepsCanonical(Step(at, names[0]), names[1..]);
    }
  }

  lemma ResolveCanonical(root: Path, candidate: string)
    requires Canonical(root) && '\0' !in candidate
    ensures Canonical(Resolve(root, candidate))
  {
    var names := if IsAbsolute(candidate) then Parts(candidate) else root + Parts(candidate);
    WalkKeepsCanonical([], names);
  }

  /**
   * The joining rule of `_resolve`: an absolute candidate is resolved on its own and the
   * root plays no part; a relative one is walked starting from the root.
   */
  lemma ResolveJoinRule(root: Path, other: Path, candidate: string)
    requires Canonical(root)
    ensures IsAbsolute(candidate) ==> Resolve(root, candidate) == Resolve(other, candidate)
    ensures !IsAbsolute(candidate) ==> Resolve(root, candidate) == Walk(root, Parts(candidate))
  {
    if !IsAbsolute(candidate) {
      var names := Parts(candidate);
      assert Resolve(root, candidate) == Walk([], root + names);
      WalkConcat([], root, names);
      WalkPlain([], root);
      assert [] + root == root;
    }
  }

  /** A relative candidate without `..` always lands inside the workspace, below the root. */
  lemma PlainRelativeStaysInside(root: Path, candidate: string)
    requires Canonical(root)
    requires !IsAbsolute(candidate) && '\0' !in candidate
    requires forall k :: 0 <= k < |Parts(candidate)| ==> Parts(candidate)[k] != ".."
    ensures ResolveInWorkspace(root, candidate) == Ok(root + Parts(candidate))
  {
    ResolveJoinRule(root, root, candidate);
    WalkPlain(root, Parts(candidate));
  }

  /** `..` from the root escapes any workspace that is not `/` itself. */
  lemma ParentEscapes(root: Path)
    requires Canonical(root) && root != []
    ensures ResolveInWorkspace(root, "..").Err?
  {
    assert Split("..", '/') == [".."];
    assert Parts("..") == [".."];
    ResolveJoinRule(root, root, "..");
    assert Walk(root, [".."]) == root[..|root| - 1];
  }

  /** `n` copies of `..`. */
  function Ups(n: nat): (r: seq<string>)
    ensures |r| == n && forall k :: 0 <= k < n ==> r[k] == ".."
  {
    seq(n, _ => "..")
  }

  lemma {:induction false} WalkUps(at: Path, n: nat)
    requires n <= |at|
    ensures Walk(at, Ups(n)) == at[..|at| - n]
    decreases n
  {
    if n > 0 {
      assert Ups(n)[1..] == Ups(n - 1);
      assert Step(at, "..") == at[..|at| - 1];
      WalkUps(at[..|at| - 1], n - 1);
    }
  }

  /**
   * A relative candidate of the form `../../name/...` (n climbs, then plain names) lands in
   * `root` with its last n names replaced, and it stays in the workspace exactly when it
   * climbs nowhere or re-descends through the very names it climbed out of
   * (`../../etc/passwd` from `/home/user/ws` escapes; `../ws/a` from it does not).
   */
  lemma ClimbThenDescend(root: Path, candidate: string, n: nat, rest: seq<string>)
    requires Canonical(root) && n <= |root|
    requires !IsAbsolute(candidate) && '\0' !in candidate && Parts(candidate) == Ups(n) + rest
    requires forall k :: 0 <= k < |rest| ==> rest[k] != ".."
    ensures Resolve(root, candidate) == root[..|root| - n] + rest
    ensures ResolveInWorkspace(root, candidate).Ok? <==> n == 0 || (n <= |rest| && rest[..n] == root[|root| - n..])
  {
    ClimbResolves(root, candidate, n, rest);
    WithinAfterClimb(root, n, rest);
  }

  lemma ClimbResolves(root: Path, candidate: string, n: nat, rest: seq<string>)
    requires Canonical(root) && n <= |root|
    requires !IsAbsolute(candidate) && Parts(candidate) == Ups(n) + rest
    requires forall k :: 0 <= k < |rest| ==> rest[k] != ".."
    ensures Resolve(root, candidate) == root[..|root| - n] + rest
  {
    ResolveJoinRule(root, root, candidate);
    WalkConcat(root, Ups(n), rest);
    WalkUps(root, n);
    WalkPlain(root[..|root| - n], rest);
  }

  /** Dropping `n` names of the root and appending `rest` stays inside it exactly when `rest` restores them. */
  lemma WithinAfterClimb(root: Path, n: nat, rest: seq<string>)
    requires n <= |root|
    ensures Within(root, root[..|root| - n] + rest) <==> n == 0 || (n <= |rest| && rest[..n] == root[|root| - n..])
  {
    var t := root[..|root| - n] + rest;
    if n > 0 && n <= |rest| && rest[..n] == root[|root| - n..] {
      assert t[..|root|] == root[..|root| - n] + rest[..n];
      assert root == root[..|root| - n] + root[|root| - n..];
    }
    if Within(root, t) && n > 0 {
      assert n <= |rest|;
      assert forall k :: 0 <= k < n ==> rest[k] == t[|root| - n + k] == root[|root| - n + k];
      assert rest[..n] == root[|root| - n..];
    }
  }

  // ------------------------------------------------------------ the display path reads back

  lemma {:induction false} KeepNames(names: seq<string>)
    requires forall k :: 0 <= k < |names| ==> IsName(names[k])
    ensures Keep(names) == names
    decreases |names|
  {
    if names != [] {
      KeepNames(names[1..]);
      assert [names[0]] + names[1..] == names;
    }
  }

  /**
   * The display path that `_relative_path` computes names the same target again when it is
   * given back to `_resolve` as a relative path.
   */
  lemma DisplayPathReadsBack(root: Path, target: Path)
    requires Canonical(root) && Canonical(target) && Within(root, target)
    ensures ResolveInWorkspace(root, AsPosix(Relative(root, target))) == Ok(target)
  {
    var rel := Relative(root, target);
    var shown := AsPosix(rel);
    assert forall k :: 0 <= k < |rel| ==> rel[k] == target[|root| + k];
    if rel == [] {
      assert Split(".", '/') == ["."];
      assert Parts(shown) == [];
    } else {
      JoinAvoids(rel, "/", '\0');
      SplitJoin(rel, '/');
      KeepNames(rel);
      assert Parts(shown) == rel;
    }
    PlainRelativeStaysInside(root, shown);
  }
}
