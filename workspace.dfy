/**
 * `WorkspaceEditor`: create, update and delete files inside the workspace root, each behind
 * the approval gate `_require_approval`.
 *
 * The pure functions `Approval` and `Perform`, with the step functions `CreateSteps`,
 * `UpdateSteps` and `DeleteSteps`, say what one call does to the approval set and the disk
 * and what it returns; the class's methods, which run the same steps
 * in the source's order against the mutable tracker and filesystem, are proved to agree with
 * them, and the lemmas below state the gate's guarantees about them.
 */
module Workspace {
  import opened Wrappers
  import opened Text
  import opened Paths
  import opened Approvals
  import opened Files

  /** `apply_diff`'s mode: `"create"` for a new file, the library default otherwise. */
  datatype DiffMode = CreateMode | DefaultMode

  /** `apply_diff(input, diff, mode)`: the patched text, or the message of the error it raises. */
  type Patcher = (string, string, DiffMode) -> Result<string, string>

  /** What an editor call raises. */
  datatype EditError =
    | PathFailed(pathError: PathError)
    | Rejected
    | FsFailed(fsError: FsError)
    | PatchFailed(reason: string)

  /** The `RuntimeError` texts the editor raises itself. */
  function RaisedText(e: EditError): Option<string> {
    match e
    case PathFailed(OutsideWorkspace(c)) => Some("Operation outside workspace: " + c)
    case Rejected => Some("Apply patch operation rejected by user.")
    case _ => None
  }

  lemma OutsideIsNotRejected(e: EditError)
    requires RaisedText(e).Some? && !e.Rejected?
    ensures RaisedText(e) != RaisedText(Rejected)
  {
    assert RaisedText(e).value[0] == 'O';
  }

  /** The two texts the editor raises tell its errors apart, down to the candidate path. */
  lemma RaisedTextIdentifies(e1: EditError, e2: EditError)
    requires RaisedText(e1).Some? && RaisedText(e1) == RaisedText(e2)
    ensures e1 == e2
  {
    var outside := "Operation outside workspace: ";
    var t := RaisedText(e1).value;
    if e1.Rejected? != e2.Rejected? {
      OutsideIsNotRejected(if e1.Rejected? then e2 else e1);
    } else if !e1.Rejected? {
      assert t[|outside|..] == e1.pathError.candidate;
      assert t[|outside|..] == e2.pathError.candidate;
    }
  }

  const AutoApproveVariable: string := "APPLY_PATCH_AUTO_APPROVE"

  /** The constructor's `auto_approve or os.environ.get("APPLY_PATCH_AUTO_APPROVE") == "1"`. */
  function AutoApprove(flag: bool, environ: map<string, string>): bool {
    flag || (AutoApproveVariable in environ && environ[AutoApproveVariable] == "1")
  }

  /** The editor's fixed configuration. */
  datatype Settings = Settings(root: Root, autoApprove: bool, patch: Patcher)

  // ------------------------------------------------------------ the approval gate

  const PreviewLimit: nat := 400

  /** The diff as the prompt shows it: whole when shorter than 400 characters, else cut at 400 and marked with an ellipsis. */
  function Preview(diff: string): (r: string)
    ensures |r| <= PreviewLimit + 1
    ensures |diff| < PreviewLimit ==> r == diff
    ensures |diff| >= PreviewLimit ==>
      |r| == PreviewLimit + 1 && r[..PreviewLimit] == diff[..PreviewLimit] && r[PreviewLimit] == '\U{2026}'
  {
    if |diff| < PreviewLimit then diff else diff[..PreviewLimit] + "\U{2026}"
  }

  /** What the gate prints before it reads the answer, the `input` prompt last. */
  function PromptLines(op: Operation, display: string): seq<string> {
    ["\n[apply_patch] approval required", "- type: " + TypeName(op.kind), "- path: " + display]
    + (if op.diff.Some? && op.diff.value != "" then ["- diff preview:\n " + Preview(op.diff.value)] else [])
    + ["Proceed? [y/N] "]
  }

  /**
   * The prompt shows the operation type and the display path the key is made from, a preview
   * exactly for a non-empty diff, and ends with the question `input` asks; two operations
   * shown with the same prompt have the same type and display path.
   */
  lemma PromptShowsOperation(op1: Operation, d1: string, op2: Operation, d2: string)
    ensures var p := PromptLines(op1, d1);
      && |p| == (if op1.diff.Some? && op1.diff.value != "" then 5 else 4)
      && p[1] == "- type: " + TypeName(op1.kind) && p[2] == "- path: " + d1
      && p[|p| - 1] == "Proceed? [y/N] "
    ensures PromptLines(op1, d1) == PromptLines(op2, d2) ==> op1.kind == op2.kind && d1 == d2
  {
    var p1, p2 := PromptLines(op1, d1), PromptLines(op2, d2);
    if p1 == p2 {
      assert p1[1] == p2[1] && p1[2] == p2[2];
      assert TypeName(op1.kind) == p1[1][8..] == TypeName(op2.kind);
      assert d1 == p1[2][8..] == d2;
      TypeNameInjective(op1.kind, op2.kind);
    }
  }

  /** The answer, stripped and lower-cased, is `y` or `yes`. */
  predicate Affirmative(answer: string) {
    var a := Lower(Strip(answer));
    a == "y" || a == "yes"
  }

  /** The outcome of the gate: whether the call may go on, the new approval set, and what was printed. */
  datatype Gate = Gate(passed: bool, approved: set<string>, prompt: seq<string>)

  /** `_require_approval`: an approved or auto-approved key passes silently; otherwise the answer decides. */
  function Approval(autoApprove: bool, approved: set<string>, op: Operation, display: string, answer: string): Gate {
    var f := Fingerprint(op, display);
    if autoApprove || f in approved then Gate(true, approved + {f}, [])
    else if Affirmative(answer) then Gate(true, approved + {f}, PromptLines(op, display))
    else Gate(false, approved, PromptLines(op, display))
  }

  // ------------------------------------------------------------ the three operations

  /** What a call returns, and the approval set, disk and printed prompt it leaves. */
  datatype Effect = Effect(result: Result<string, EditError>, approved: set<string>, disk: Disk, prompt: seq<string>)

  /** The target of `op.path` and the display path, when it resolves inside the workspace. */
  function Located(s: Settings, op: Operation): Result<(Path, string), PathError> {
    match ResolveInWorkspace(s.root, op.path)
    case Err(e) => Err(e)
    case Ok(t) => Ok((t, AsPosix(Relative(s.root, t))))
  }

  /**
   * `Located` pairs `_resolve`'s target with the display path `_relative_path` returns; it fails
   * exactly when that does, with the same error, and the display path names the target again.
   */
  lemma LocatedDisplay(s: Settings, op: Operation)
    ensures Located(s, op).Ok? <==> DisplayPath(s.root, op.path).Ok?
    ensures Located(s, op).Err? ==> Located(s, op).error == DisplayPath(s.root, op.path).error
    ensures Located(s, op).Ok? ==>
      && Located(s, op).value.0 == ResolveInWorkspace(s.root, op.path).value
      && Located(s, op).value.1 == DisplayPath(s.root, op.path).value
      && ResolveInWorkspace(s.root, Located(s, op).value.1) == Ok(Located(s, op).value.0)
  {
    var r := ResolveInWorkspace(s.root, op.path);
    if r.Ok? {
      DisplayPathReadsBack(s.root, r.value);
    }
  }

  /** The steps of `create_file` after the gate: create the parents, patch the empty text, write it. */
  function CreateSteps(patch: Patcher, disk: Disk, op: Operation, target: Path, rel: string): (Result<string, EditError>, Disk) {
    match MakeDirs(disk, Parent(target))
    case Err(e) => (Err(FsFailed(e)), disk)
    case Ok(d1) =>
      match patch("", DiffText(op), CreateMode)
      case Err(m) => (Err(PatchFailed(m)), d1)
      case Ok(content) =>
        match Write(d1, target, content)
        case Err(e) => (Err(FsFailed(e)), d1)
        case Ok(d2) => (Ok("Created " + rel), d2)
  }

  /** The steps of `update_file` after the gate: read the file, patch its text, write it back. */
  function UpdateSteps(patch: Patcher, disk: Disk, op: Operation, target: Path, rel: string): (Result<string, EditError>, Disk) {
    match Read(disk, target)
    case Err(e) => (Err(FsFailed(e)), disk)
    case Ok(original) =>
      match patch(original, DiffText(op), DefaultMode)
      case Err(m) => (Err(PatchFailed(m)), disk)
      case Ok(patched) =>
        match Write(disk, target, patched)
        case Err(e) => (Err(FsFailed(e)), disk)
        case Ok(d1) => (Ok("Updated " + rel), d1)
  }

  /** The steps of `delete_file` after the gate: unlink, an absent file being no error. */
  function DeleteSteps(disk: Disk, target: Path, rel: string): (Result<string, EditError>, Disk) {
    match Unlink(disk, target)
    case Err(e) => (Err(FsFailed(e)), disk)
    case Ok(d1) => (Ok("Deleted " + rel), d1)
  }

  function Steps(which: OpKind, patch: Patcher, disk: Disk, op: Operation, target: Path, rel: string): (Result<string, EditError>, Disk) {
    match which
    case CreateFile => CreateSteps(patch, disk, op, target, rel)
    case UpdateFile => UpdateSteps(patch, disk, op, target, rel)
    case DeleteFile => DeleteSteps(disk, target, rel)
  }

  /**
   * One call of the editor method `which` (`create_file`, `update_file` or `delete_file`) on `op`:
   * the display path is computed first, which resolves the path without creating anything;
   * then the gate; then the method's own steps.
   */
  function Perform(which: OpKind, s: Settings, approved: set<string>, disk: Disk, op: Operation, answer: string): Effect {
    match Located(s, op)
    case Err(e) => Effect(Err(PathFailed(e)), approved, disk, [])
    case Ok((target, rel)) =>
      var g := Approval(s.autoApprove, approved, op, rel, answer);
      if !g.passed then Effect(Err(Rejected), g.approved, disk, g.prompt)
      else
        var (result, after) := Steps(which, s.patch, disk, op, target, rel);
        Effect(result, g.approved, after, g.prompt)
  }

  /** The gate lets the call through: auto-approval, a remembered key, or an affirmative answer. */
  predicate Cleared(s: Settings, approved: set<string>, op: Operation, rel: string, answer: string) {
    s.autoApprove || Fingerprint(op, rel) in approved || Affirmative(answer)
  }

  // ------------------------------------------------------------ the gate's guarantees

  /**
   * No mutation before approval: whenever a call changes the disk, or adds to the approval
   * set, the operation resolved inside the workspace and the gate was cleared for exactly
   * its key, which is then remembered.
   */
  lemma NoMutationWithoutApproval(which: OpKind, s: Settings, approved: set<string>, disk: Disk, op: Operation, answer: string)
    ensures var e := Perform(which, s, approved, disk, op, answer);
      (e.disk != disk || e.approved != approved) ==>
        Located(s, op).Ok? &&
        var rel := Located(s, op).value.1;
        Cleared(s, approved, op, rel, answer) && e.approved == approved + {Fingerprint(op, rel)}
  {
  }

  /** A path that does not resolve inside the workspace fails before the gate: nothing printed, nothing changed. */
  lemma OutsideWorkspaceChangesNothing(which: OpKind, s: Settings, approved: set<string>, disk: Disk, op: Operation, answer: string)
    requires Located(s, op).Err?
    ensures Perform(which, s, approved, disk, op, answer) == Effect(Err(PathFailed(Located(s, op).error)), approved, disk, [])
  {
  }

  /** Any answer but `y`/`yes` to a prompt fails the call with nothing remembered and the disk untouched. */
  lemma RejectionChangesNothing(which: OpKind, s: Settings, approved: set<string>, disk: Disk, op: Operation, answer: string)
    requires Located(s, op).Ok? && !Cleared(s, approved, op, Located(s, op).value.1, answer)
    ensures Perform(which, s, approved, disk, op, answer)
         == Effect(Err(Rejected), approved, disk, PromptLines(op, Located(s, op).value.1))
  {
  }

  /**
   * The gate prompts exactly when auto-approval is off and the key is new; a remembered key
   * is never prompted for again, and then the answer plays no part.
   */
  lemma PromptsOnlyForNewKeys(which: OpKind, s: Settings, approved: set<string>, disk: Disk, op: Operation, a1: string, a2: string)
    ensures var e := Perform(which, s, approved, disk, op, a1);
      e.prompt != [] <==> Located(s, op).Ok? && !s.autoApprove && Fingerprint(op, Located(s, op).value.1) !in approved
    ensures Located(s, op).Ok? && (s.autoApprove || Fingerprint(op, Located(s, op).value.1) in approved) ==>
      Perform(which, s, approved, disk, op, a1) == Perform(which, s, approved, disk, op, a2)
  {
  }

  /** The approval set only grows, and by no more than the call's own key. */
  lemma ApprovalsOnlyGrow(which: OpKind, s: Settings, approved: set<string>, disk: Disk, op: Operation, answer: string)
    ensures var e := Perform(which, s, approved, disk, op, answer);
      approved <= e.approved &&
      (Located(s, op).Ok? ==> e.approved <= approved + {Fingerprint(op, Located(s, op).value.1)})
  {
  }

  /** What the steps after the gate may change: the file at the target, and the target's missing parent directories. */
  predicate ConfinedTo(before: Disk, after: Disk, target: Path) {
    && (forall p :: p in before.files && p != target ==> p in after.files && after.files[p] == before.files[p])
    && after.files.Keys <= before.files.Keys + {target}
    && before.dirs <= after.dirs <= before.dirs + Ancestors(Parent(target))
  }

  lemma StepsConfined(which: OpKind, patch: Patcher, disk: Disk, op: Operation, target: Path, rel: string)
    ensures ConfinedTo(disk, Steps(which, patch, disk, op, target, rel).1, target)
  {
    match which
    case CreateFile =>
      MakeDirsSpec(disk, Parent(target));
      var d1 := After(disk, MakeDirs(disk, Parent(target)));
      assert ConfinedTo(disk, d1, target);
    case UpdateFile =>
    case DeleteFile =>
  }

  /**
   * Confinement: a call changes only the file at its own target, which lies in the workspace,
   * and creates no directory other than the target's missing parents.
   */
  lemma ChangesStayInWorkspace(which: OpKind, s: Settings, approved: set<string>, disk: Disk, op: Operation, answer: string)
    ensures var e := Perform(which, s, approved, disk, op, answer);
      e.disk != disk ==>
        Located(s, op).Ok? &&
        var target := Located(s, op).value.0;
        Within(s.root, target) && ConfinedTo(disk, e.disk, target)
  {
    if Located(s, op).Ok? {
      var (target, rel) := Located(s, op).value;
      StepsConfined(which, s.patch, disk, op, target, rel);
    }
  }

  /** Every call keeps a well-formed disk well-formed. */
  lemma EditsKeepWellFormed(which: OpKind, s: Settings, approved: set<string>, disk: Disk, op: Operation, answer: string)
    requires WellFormed(disk)
    ensures WellFormed(Perform(which, s, approved, disk, op, answer).disk)
  {
    match Located(s, op)
    case Err(_) =>
    case Ok((target, rel)) =>
      MakeDirsKeepsWellFormed(disk, Parent(target));
      var d1 := After(disk, MakeDirs(disk, Parent(target)));
      if which == CreateFile {
        match s.patch("", DiffText(op), CreateMode)
        case Err(_) =>
        case Ok(content) => WriteKeepsWellFormed(d1, target, content);
      } else if which == UpdateFile {
        match Read(disk, target)
        case Err(_) =>
        case Ok(original) =>
          match s.patch(original, DiffText(op), DefaultMode)
          case Err(_) =>
          case Ok(patched) => WriteKeepsWellFormed(disk, target, patched);
      } else {
        UnlinkKeepsWellFormed(disk, target);
      }
  }

  // ------------------------------------------------------------ what each operation does once cleared

  /** `create_file` writes `apply_diff("", diff, mode="create")` at the target and reports `Created <relative>`. */
  lemma CreateWritesPatchedEmpty(s: Settings, approved: set<string>, disk: Disk, op: Operation, answer: string)
    requires Located(s, op).Ok?
    ensures var (target, rel) := Located(s, op).value;
      var e := Perform(CreateFile, s, approved, disk, op, answer);
      e.result.Ok? ==>
        && Cleared(s, approved, op, rel, answer)
        && s.patch("", DiffText(op), CreateMode).Ok?
        && e.result == Ok("Created " + rel)
        && e.disk.files == disk.files[target := s.patch("", DiffText(op), CreateMode).value]
        && Read(e.disk, target) == Ok(s.patch("", DiffText(op), CreateMode).value)
  {
    var (target, rel) := Located(s, op).value;
    var e := Perform(CreateFile, s, approved, disk, op, answer);
    if e.result.Ok? {
      var d1 := MakeDirs(disk, Parent(target)).value;
      WriteThenRead(d1, target, s.patch("", DiffText(op), CreateMode).value, target);
    }
  }

  /** `update_file` of a target that is not a file fails at the read: the key is remembered but nothing is written. */
  lemma UpdateOfMissingFileWritesNothing(s: Settings, approved: set<string>, disk: Disk, op: Operation, answer: string)
    requires Located(s, op).Ok? && Located(s, op).value.0 !in disk.files
    ensures var e := Perform(UpdateFile, s, approved, disk, op, answer);
      e.result.Err? && e.disk == disk
    ensures var (target, rel) := Located(s, op).value;
      Cleared(s, approved, op, rel, answer) && target !in disk.dirs && !UnderFile(disk, target) ==>
        Perform(UpdateFile, s, approved, disk, op, answer).result == Err(FsFailed(NotFound))
  {
  }

  /** `update_file` writes `apply_diff(original, diff)` over the file's current text. */
  lemma UpdatePatchesCurrentText(s: Settings, approved: set<string>, disk: Disk, op: Operation, answer: string)
    requires Located(s, op).Ok?
    ensures var (target, rel) := Located(s, op).value;
      var e := Perform(UpdateFile, s, approved, disk, op, answer);
      e.result.Ok? ==>
        && target in disk.files
        && s.patch(disk.files[target], DiffText(op), DefaultMode).Ok?
        && e.result == Ok("Updated " + rel)
        && e.disk == disk.(files := disk.files[target := s.patch(disk.files[target], DiffText(op), DefaultMode).value])
  {
  }

  /** `delete_file` of an absent file inside the workspace succeeds (`missing_ok=True`) and changes no file. */
  lemma DeleteOfAbsentFileSucceeds(s: Settings, approved: set<string>, disk: Disk, op: Operation, answer: string)
    requires Located(s, op).Ok?
    requires var (target, rel) := Located(s, op).value;
      Cleared(s, approved, op, rel, answer) && target !in disk.files && target !in disk.dirs && !UnderFile(disk, target)
    ensures var (target, rel) := Located(s, op).value;
      Perform(DeleteFile, s, approved, disk, op, answer).result == Ok("Deleted " + rel) &&
      Perform(DeleteFile, s, approved, disk, op, answer).disk == disk
  {
  }

  /** A successful `delete_file` leaves no file at the target. */
  lemma DeleteRemovesFile(s: Settings, approved: set<string>, disk: Disk, op: Operation, answer: string)
    requires Located(s, op).Ok? && Perform(DeleteFile, s, approved, disk, op, answer).result.Ok?
    ensures Located(s, op).value.0 !in Perform(DeleteFile, s, approved, disk, op, answer).disk.files
  {
  }

  /**
   * Round trip: creating a file from one diff and then updating it with a second leaves the
   * text obtained by applying both diffs in turn to the empty text.
   */
  lemma CreateThenUpdate(s: Settings, approved: set<string>, disk: Disk, create: Operation, update: Operation, a1: string, a2: string)
    requires create.path == update.path && Located(s, create).Ok?
    requires Perform(CreateFile, s, approved, disk, create, a1).result.Ok?
    requires var e1 := Perform(CreateFile, s, approved, disk, create, a1);
      Cleared(s, e1.approved, update, Located(s, update).value.1, a2)
    requires var c1 := s.patch("", DiffText(create), CreateMode);
      c1.Ok? && s.patch(c1.value, DiffText(update), DefaultMode).Ok?
    ensures var e1 := Perform(CreateFile, s, approved, disk, create, a1);
      var e2 := Perform(UpdateFile, s, e1.approved, e1.disk, update, a2);
      var both := s.patch(s.patch("", DiffText(create), CreateMode).value, DiffText(update), DefaultMode).value;
      e2.result.Ok? && Read(e2.disk, Located(s, create).value.0) == Ok(both)
  {
    var (target, rel) := Located(s, create).value;
    var e1 := Perform(CreateFile, s, approved, disk, create, a1);
    CreateWritesPatchedEmpty(s, approved, disk, create, a1);
    var d1 := MakeDirs(disk, Parent(target)).value;
    var c1 := s.patch("", DiffText(create), CreateMode).value;
    assert Write(d1, target, c1).Ok?;
    assert e1.disk == Write(d1, target, c1).value;
    var c2 := s.patch(c1, DiffText(update), DefaultMode).value;
    assert !UnderFile(e1.disk, target) by {
      assert !UnderFile(d1, target);
      forall k | 0 <= k < |target| ensures target[..k] !in e1.disk.files {
        assert target[..k] != target;
      }
    }
    assert Write(e1.disk, target, c2).Ok?;
    WriteThenRead(e1.disk, target, c2, target);
  }

  /** The editor, with the approval tracker and the filesystem it mutates. */
  class WorkspaceEditor {
    const root: Root
    const approvals: ApprovalTracker
    const autoApprove: bool
    const fs: FileSystem
    const patch: Patcher

    /** `root` is the workspace directory already resolved (`root.resolve()`); `environ` is `os.environ`. */
    constructor (root: Root, approvals: ApprovalTracker, autoApprove: bool, environ: map<string, string>, fs: FileSystem, patch: Patcher)
      ensures this.root == root && this.approvals == approvals && this.fs == fs && this.patch == patch
      ensures this.autoApprove == AutoApprove(autoApprove, environ)
    {
      this.root := root;
      this.approvals := approvals;
      this.autoApprove := AutoApprove(autoApprove, environ);
      this.fs := fs;
      this.patch := patch;
    }

    function Config(): Settings {
      Settings(root, autoApprove, patch)
    }

    /** `_resolve`: the target inside the workspace; with `ensureParent` its parent directories are created. */
    method ResolveTarget(candidate: string, ensureParent: bool) returns (r: Result<Path, EditError>)
      modifies fs
      ensures ResolveInWorkspace(root, candidate).Err? ==>
        r == Err(PathFailed(ResolveInWorkspace(root, candidate).error)) && fs.State() == old(fs.State())
      ensures ResolveInWorkspace(root, candidate).Ok? && !ensureParent ==>
        r == Ok(ResolveInWorkspace(root, candidate).value) && fs.State() == old(fs.State())
      ensures ResolveInWorkspace(root, candidate).Ok? && ensureParent ==>
        var target := ResolveInWorkspace(root, candidate).value;
        var made := MakeDirs(old(fs.State()), Parent(target));
        fs.State() == After(old(fs.State()), made) &&
        r == (if made.Ok? then Ok(target) else Err(FsFailed(made.error)))
    {
      var resolved := ResolveInWorkspace(root, candidate);
      if resolved.Err? {
        return Err(PathFailed(resolved.error));
      }
      var target := resolved.value;
      if ensureParent {
        var err := fs.MkdirParents(Parent(target));
        if err.Some? {
          return Err(FsFailed(err.value));
        }
      }
      r := Ok(target);
    }

    /** `_relative_path`: resolves without creating anything and renders the path relative to the root. */
    method RelativePath(value: string) returns (r: Result<string, EditError>)
      modifies fs
      ensures fs.State() == old(fs.State())
      ensures r == match DisplayPath(root, value)
        case Ok(rel) => Ok(rel)
        case Err(e) => Err(PathFailed(e))
    {
      var resolved := ResolveTarget(value, false);
      if resolved.Err? {
        return Err(resolved.error);
      }
      r := Ok(AsPosix(Relative(root, resolved.value)));
    }

    /** `_require_approval`, with the operator's answer as a parameter; returns whether the call may go on and what was printed. */
    method RequireApproval(op: Operation, display: string, answer: string) returns (passed: bool, prompt: seq<string>)
      modifies approvals
      ensures Gate(passed, approvals.approved, prompt) == Approval(autoApprove, old(approvals.approved), op, display, answer)
    {
      var f := Fingerprint(op, display);
      var known := approvals.IsApproved(f);
      if autoApprove || known {
        approvals.Remember(f);
        return true, [];
      }
      prompt := PromptLines(op, display);
      if !Affirmative(answer) {
        return false, prompt;
      }
      approvals.Remember(f);
      passed := true;
    }

    method CreateFile(op: Operation, answer: string) returns (r: Result<string, EditError>, prompt: seq<string>)
      modifies approvals, fs
      ensures Effect(r, approvals.approved, fs.State(), prompt)
           == Perform(OpKind.CreateFile, Config(), old(approvals.approved), old(fs.State()), op, answer)
    {
      prompt := [];
      var relative := RelativePath(op.path);
      LocatedDisplay(Config(), op);
      if relative.Err? {
        return Err(relative.error), [];
      }
      var passed;
      passed, prompt := RequireApproval(op, relative.value, answer);
      if !passed {
        return Err(Rejected), prompt;
      }
      var target := ResolveTarget(op.path, true);
      if target.Err? {
        return Err(target.error), prompt;
      }
      var content := patch("", DiffText(op), CreateMode);
      if content.Err? {
        return Err(PatchFailed(content.error)), prompt;
      }
      var err := fs.WriteText(target.value, content.value);
      if err.Some? {
        return Err(FsFailed(err.value)), prompt;
      }
      r := Ok("Created " + relative.value);
    }

    method UpdateFile(op: Operation, answer: string) returns (r: Result<string, EditError>, prompt: seq<string>)
      modifies approvals, fs
      ensures Effect(r, approvals.approved, fs.State(), prompt)
           == Perform(OpKind.UpdateFile, Config(), old(approvals.approved), old(fs.State()), op, answer)
    {
      prompt := [];
      var relative := RelativePath(op.path);
      LocatedDisplay(Config(), op);
      if relative.Err? {
        return Err(relative.error), [];
      }
      var passed;
      passed, prompt := RequireApproval(op, relative.value, answer);
      if !passed {
        return Err(Rejected), prompt;
      }
      // `_relative_path` already resolved the same path, so this resolution succeeds too.
      var target := ResolveTarget(op.path, false);
      assert target.Ok?;
      var original := fs.ReadText(target.value);
      if original.Err? {
        return Err(FsFailed(original.error)), prompt;
      }
      var patched := patch(original.value, DiffText(op), DefaultMode);
      if patched.Err? {
        return Err(PatchFailed(patched.error)), prompt;
      }
      var err := fs.WriteText(target.value, patched.value);
      if err.Some? {
        return Err(FsFailed(err.value)), prompt;
      }
      r := Ok("Updated " + relative.value);
    }

    method DeleteFile(op: Operation, answer: string) returns (r: Result<string, EditError>, prompt: seq<string>)
      modifies approvals, fs
      ensures Effect(r, approvals.approved, fs.State(), prompt)
           == Perform(OpKind.DeleteFile, Config(), old(approvals.approved), old(fs.State()), op, answer)
    {
      prompt := [];
      var relative := RelativePath(op.path);
      LocatedDisplay(Config(), op);
      if relative.Err? {
        return Err(relative.error), [];
      }
      var passed;
      passed, prompt := RequireApproval(op, relative.value, answer);
      if !passed {
        return Err(Rejected), prompt;
      }
      // `_relative_path` already resolved the same path, so this resolution succeeds too.
      var target := ResolveTarget(op.path, false);
      assert target.Ok?;
      var err := fs.UnlinkMissingOk(target.value);
      if err.Some? {
        return Err(FsFailed(err.value)), prompt;
      }
      r := Ok("Deleted " + relative.value);
    }
  }
}
