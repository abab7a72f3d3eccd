/**
 * `ApprovalTracker`: the set of approval keys the operator has cleared, and the key
 * (`fingerprint`) built from an operation's type, its workspace-relative path and its diff.
 */
module Approvals {
  import opened Wrappers
  import opened Text

  /** The three kinds of `ApplyPatchOperation`. */
  datatype OpKind = CreateFile | UpdateFile | DeleteFile

  /** `operation.type` as the patch tool spells it. */
  function TypeName(k: OpKind): (name: string)
    ensures '\0' !in name
  {
    match k
    case CreateFile => "create_file"
    case UpdateFile => "update_file"
    case DeleteFile => "delete_file"
  }

  /** An `ApplyPatchOperation`: its type, the path as the caller wrote it, and an optional diff. */
  datatype Operation = Operation(kind: OpKind, path: string, diff: Option<string>)

  /** `operation.diff or ""`: a missing diff and an empty one are the same text. */
  function DiffText(op: Operation): string {
    match op.diff
    case Some(d) => d
    case None => ""
  }

  /**
   * The bytes `fingerprint` feeds to SHA-256: type, NUL, relative path, NUL, diff. The model
   * keeps this pre-image as the key and does not compute the digest; SHA-256 is taken to be
   * collision free, so two keys are equal exactly when their pre-images are.
   */
  function Fingerprint(op: Operation, relativePath: string): (f: string)
    ensures |f| == |TypeName(op.kind)| + |relativePath| + |DiffText(op)| + 2
    ensures f[|TypeName(op.kind)|] == '\0'
  {
    TypeName(op.kind) + ['\0'] + relativePath + ['\0'] + DiffText(op)
  }

  /** Reads a key back into its three fields, splitting at the first two NUL characters. */
  function ParseFingerprint(f: string): Option<(string, string, string)> {
    match Find(f, ['\0'])
    case None => None
    case Some(i) =>
      var rest := f[i + 1..];
      match Find(rest, ['\0'])
      case None => None
      case Some(j) => Some((f[..i], rest[..j], rest[j + 1..]))
  }

  /**
   * Every key reads back to the fields it was made from, as long as the path has no NUL
   * (resolution refuses such paths); the diff may contain anything.
   */
  lemma ParseFingerprintInverts(op: Operation, relativePath: string)
    requires '\0' !in relativePath
    ensures ParseFingerprint(Fingerprint(op, relativePath)) == Some((TypeName(op.kind), relativePath, DiffText(op)))
  {
    var t, d := TypeName(op.kind), DiffText(op);
    var f := Fingerprint(op, relativePath);
    assert f == t + ['\0'] + (relativePath + ['\0'] + d);
    FindCharAfter(t, '\0', relativePath + ['\0'] + d);
    var rest := f[|t| + 1..];
    assert rest == relativePath + ['\0'] + d;
    FindCharAfter(relativePath, '\0', d);
    assert f[..|t|] == t;
    assert rest[..|relativePath|] == relativePath;
    assert rest[|relativePath| + 1..] == d;
  }

  lemma TypeNameInjective(a: OpKind, b: OpKind)
    requires TypeName(a) == TypeName(b)
    ensures a == b
  {
  }

  /**
   * Two operations get the same key exactly when they agree on type, relative path and
   * diff text (a missing diff counting as empty): no field can stand in for another.
   */
  lemma FingerprintInjective(op1: Operation, rel1: string, op2: Operation, rel2: string)
    requires '\0' !in rel1 && '\0' !in rel2
    ensures Fingerprint(op1, rel1) == Fingerprint(op2, rel2) <==>
              op1.kind == op2.kind && rel1 == rel2 && DiffText(op1) == DiffText(op2)
  {
    if Fingerprint(op1, rel1) == Fingerprint(op2, rel2) {
      ParseFingerprintInverts(op1, rel1);
      ParseFingerprintInverts(op2, rel2);
      TypeNameInjective(op1.kind, op2.kind);
    }
  }

  /** The approval keys cleared so far, in memory only; keys are added and never removed. */
  class ApprovalTracker {
    var approved: set<string>

    constructor ()
      ensures approved == {}
    {
      approved := {};
    }

    /** `remember`: afterwards the key is approved, and nothing else changed. */
    method Remember(f: string)
      modifies this
      ensures approved == old(approved) + {f}
    {
      approved := approved + {f};
    }

    /** `is_approved`: a query that leaves the set as it was. */
    method IsApproved(f: string) returns (b: bool)
      ensures b <==> f in approved
    {
      b := f in approved;
    }
  }
}
