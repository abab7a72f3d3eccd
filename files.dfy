/**
 * The part of the filesystem the editor touches: regular files with their text and the
 * directories, and the four `pathlib` calls it makes (`mkdir(parents=True, exist_ok=True)`,
 * `read_text`, `write_text`, `unlink(missing_ok=True)`), each of which either succeeds or
 * raises an `OSError` and leaves the disk as it was.
 */
module Files {
  import opened Wrappers
  import opened Paths

  /** The `OSError` subclasses these calls raise. */
  datatype FsError = NotFound | IsADirectory | NotADirectory | FileExists

  datatype Disk = Disk(files: map<Path, string>, dirs: set<Path>)

  /** `p.parent`; the parent of `/` is `/`. */
  function Parent(p: Path): (q: Path)
    ensures p != [] ==> |q| == |p| - 1 && p == q + [p[|p| - 1]]
  {
    if p == [] then [] else p[..|p| - 1]
  }

  /** Some proper ancestor of `p` is a regular file, so `p` cannot be reached. */
  predicate UnderFile(d: Disk, p: Path) {
    exists k :: 0 <= k < |p| && p[..k] in d.files
  }

  /** `/` is a directory, every entry's parent is a directory, and no path is both a file and a directory. */
  predicate WellFormed(d: Disk) {
    && [] in d.dirs
    && d.files.Keys !! d.dirs
    && (forall p :: p in d.files ==> Parent(p) in d.dirs)
    && (forall p :: p in d.dirs ==> Parent(p) in d.dirs)
  }

  /** `q` and every directory above it. */
  function Ancestors(q: Path): (r: set<Path>)
    ensures forall k :: 0 <= k <= |q| ==> q[..k] in r
    ensures forall a :: a in r ==> |a| <= |q| && a == q[..|a|]
  {
    set k | 0 <= k <= |q| :: q[..k]
  }

  /** `q.mkdir(parents=True, exist_ok=True)`. */
  function MakeDirs(d: Disk, q: Path): Result<Disk, FsError> {
    if q in d.files then Err(FileExists)
    else if UnderFile(d, q) then Err(NotADirectory)
    else Ok(d.(dirs := d.dirs + Ancestors(q)))
  }

  /** `p.read_text()`. */
  function Read(d: Disk, p: Path): Result<string, FsError> {
    if p in d.files then Ok(d.files[p])
    else if p in d.dirs then Err(IsADirectory)
    else if UnderFile(d, p) then Err(NotADirectory)
    else Err(NotFound)
  }

  /** `p.write_text(content)`: creates or overwrites a regular file whose directory exists. */
  function Write(d: Disk, p: Path, content: string): Result<Disk, FsError> {
    if p in d.dirs then Err(IsADirectory)
    else if UnderFile(d, p) then Err(NotADirectory)
    else if Parent(p) !in d.dirs then Err(NotFound)
    else Ok(d.(files := d.files[p := content]))
  }

  /** `p.unlink(missing_ok=True)`: an absent path is not an error. */
  function Unlink(d: Disk, p: Path): Result<Disk, FsError> {
    if p in d.files then Ok(d.(files := d.files - {p}))
    else if p in d.dirs then Err(IsADirectory)
    else if UnderFile(d, p) then Err(NotADirectory)
    else Ok(d)
  }

  /** The disk after a call: the new disk when it succeeded, the old one when it raised. */
  function After(d: Disk, r: Result<Disk, FsError>): Disk {
    if r.Ok? then r.value else d
  }

  function ErrorOf(r: Result<Disk, FsError>): Option<FsError> {
    if r.Ok? then None else Some(r.error)
  }

  // ------------------------------------------------------------ what each call promises

  /**
   * After a successful `mkdir`, `q` and all its ancestors are directories, no other directory
   * was added and no file changed; it fails on an existing file or a path under one.
   */
  lemma MakeDirsSpec(d: Disk, q: Path)
    ensures MakeDirs(d, q).Ok? <==> q !in d.files && !UnderFile(d, q)
    ensures q in d.files ==> MakeDirs(d, q) == Err(FileExists)
    ensures q !in d.files && UnderFile(d, q) ==> MakeDirs(d, q) == Err(NotADirectory)
    ensures MakeDirs(d, q).Ok? ==> var d' := MakeDirs(d, q).value;
              && d'.files == d.files
              && d'.dirs == d.dirs + Ancestors(q)
              && (forall k :: 0 <= k <= |q| ==> q[..k] in d'.dirs)
              && (forall a :: a in d'.dirs && a !in d.dirs ==> |a| <= |q| && a == q[..|a|])
  {
  }

  /** What was written reads back, and every other file keeps its content. */
  lemma WriteThenRead(d: Disk, p: Path, content: string, other: Path)
    requires Write(d, p, content).Ok?
    ensures Read(Write(d, p, content).value, p) == Ok(content)
    ensures other != p && other in d.files ==> Read(Write(d, p, content).value, other) == Ok(d.files[other])
  {
  }

  /** Deleting an absent path that is no directory succeeds and changes nothing. */
  lemma UnlinkAbsent(d: Disk, p: Path)
    requires p !in d.files && p !in d.dirs && !UnderFile(d, p)
    ensures Unlink(d, p) == Ok(d)
  {
  }

  /** A successful unlink leaves nothing to read at `p`. */
  lemma UnlinkThenRead(d: Disk, p: Path)
    requires WellFormed(d) && Unlink(d, p).Ok?
    ensures Read(Unlink(d, p).value, p).Err?
  {
  }

  /** Every call keeps a well-formed disk well-formed, whether it succeeds or raises. */
  lemma MakeDirsKeepsWellFormed(d: Disk, q: Path)
    requires WellFormed(d)
    ensures WellFormed(After(d, MakeDirs(d, q)))
  {
    if MakeDirs(d, q).Ok? {
      var d' := MakeDirs(d, q).value;
      forall a | a in Ancestors(q) ensures Parent(a) in d'.dirs && a !in d.files {
        if a != [] {
          assert Parent(a) == q[..|a| - 1];
        }
        if |a| < |q| {
          assert !UnderFile(d, q);
          assert q[..|a|] !in d.files;
        } else {
          assert a == q;
        }
      }
    }
  }

  lemma WriteKeepsWellFormed(d: Disk, p: Path, content: string)
    requires WellFormed(d)
    ensures WellFormed(After(d, Write(d, p, content)))
  {
  }

  lemma UnlinkKeepsWellFormed(d: Disk, p: Path)
    requires WellFormed(d)
    ensures WellFormed(After(d, Unlink(d, p)))
  {
  }

  /** The filesystem as mutable state shared by every editor. */
  class FileSystem {
    var files: map<Path, string>
    var dirs: set<Path>

    function State(): Disk
      reads this
    {
      Disk(files, dirs)
    }

    constructor (d: Disk)
      ensures State() == d
    {
      files, dirs := d.files, d.dirs;
    }

    method MkdirParents(q: Path) returns (err: Option<FsError>)
      modifies this
      ensures State() == After(old(State()), MakeDirs(old(State()), q))
      ensures err == ErrorOf(MakeDirs(old(State()), q))
    {
      var r := MakeDirs(State(), q);
      if r.Ok? {
        dirs := r.value.dirs;
        err := None;
      } else {
        err := Some(r.error);
      }
    }

    method ReadText(p: Path) returns (r: Result<string, FsError>)
      ensures r == Read(State(), p)
    {
      if p in files {
        r := Ok(files[p]);
      } else if p in dirs {
        r := Err(IsADirectory);
      } else if UnderFile(State(), p) {
        r := Err(NotADirectory);
      } else {
        r := Err(NotFound);
      }
    }

    method WriteText(p: Path, content: string) returns (err: Option<FsError>)
      modifies this
      ensures State() == After(old(State()), Write(old(State()), p, content))
      ensures err == ErrorOf(Write(old(State()), p, content))
    {
      var r := Write(State(), p, content);
      if r.Ok? {
        files := files[p := content];
        err := None;
      } else {
        err := Some(r.error);
      }
    }

    method UnlinkMissingOk(p: Path) returns (err: Option<FsError>)
      modifies this
      ensures State() == After(old(State()), Unlink(old(State()), p))
      ensures err == ErrorOf(Unlink(old(State()), p))
    {
      var r := Unlink(State(), p);
      if r.Ok? {
        files := r.value.files;
        err := None;
      } else {
        err := Some(r.error);
      }
    }
  }
}
