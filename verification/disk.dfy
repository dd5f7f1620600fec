/**
 * The operating system's file tree as a map from paths to nodes, with the
 * os calls the commands make (os.MkdirAll, os.Create, os.WriteFile).
 * A call that the real system could refuse for reasons outside the tree
 * (permissions, a full disk) takes a `denied` flag saying whether it does.
 */
module FileSystem {
  import opened Paths

  datatype Node = Dir | File(data: Bytes)

  type Entries = map<Path, Node>

  /** The library call a failure comes from. */
  datatype Op = Lstat | Rel | Mkdir | Open | Create | Copy | ReadDir | ReadFile | WriteFile

  datatype Failure =
    | IoFailure(op: Op, path: Path)
    | TemplateNotFound(name: string)

  /**
   * Where a walk or an extraction meets a failure the tree does not explain
   * (permissions, a full disk, an unreadable entry): the library call that
   * fails at a given source path.
   */
  type Faults = map<Path, Op>

  predicate Fails(faults: Faults, p: Path, op: Op) {
    p in faults && faults[p] == op
  }

  /** The tree after a step, and the error the step returned (None is Go's nil). */
  datatype Outcome = Outcome(fs: Entries, err: Option<Failure>)

  predicate IsDir(fs: Entries, p: Path) {
    p in fs && fs[p].Dir?
  }

  predicate IsFile(fs: Entries, p: Path) {
    p in fs && fs[p].File?
  }

  /** Some component of `p`, `p` included, is a regular file: os.MkdirAll(p) fails with ENOTDIR. */
  predicate FileOnPath(fs: Entries, p: Path) {
    exists j | 1 <= j <= |p| :: IsFile(fs, p[..j])
  }

  /** The non-empty prefixes of `p`: the directories os.MkdirAll(p) makes sure of. */
  function Prefixes(p: Path): (ps: set<Path>)
    ensures forall q :: q in ps <==> q != [] && q <= p
  {
    var ps := set j | 1 <= j <= |p| :: p[..j];
    assert forall q | q != [] && q <= p :: q == p[..|q|];
    ps
  }

  /** os.MkdirAll(p): creates every missing directory on the way to `p`. */
  function Mkdirs(fs: Entries, p: Path, denied: bool): (r: Outcome)
    ensures r.err.None? <==> !denied && !FileOnPath(fs, p)
    ensures r.err.Some? ==> r == Outcome(fs, Some(IoFailure(Mkdir, p)))
    ensures r.err.None? ==> forall q :: q != [] && q <= p ==> IsDir(r.fs, q)
    ensures forall q :: q in fs ==> q in r.fs && r.fs[q] == fs[q]
    ensures forall q :: q in r.fs && q !in fs ==> q != [] && q <= p && r.fs[q] == Dir
  {
    if denied || FileOnPath(fs, p) then
      Outcome(fs, Some(IoFailure(Mkdir, p)))
    else
      var grown := map q | q in fs.Keys + Prefixes(p) :: if q in fs then fs[q] else Dir;
      assert forall q | q != [] && q <= p :: q in Prefixes(p) && (q in fs ==> q == p[..|q|]);
      Outcome(grown, None)
  }

  /** os.MkdirAll puts no file in the way of a later call. */
  lemma MkdirsAddsNoFile(fs: Entries, p: Path, denied: bool, q: Path)
    ensures FileOnPath(Mkdirs(fs, p, denied).fs, q) ==> FileOnPath(fs, q)
  {
    var r := Mkdirs(fs, p, denied).fs;
    if FileOnPath(r, q) {
      var j :| 1 <= j <= |q| && IsFile(r, q[..j]);
      assert IsFile(fs, q[..j]);
    }
  }

  /** os.Create(p) and os.WriteFile(p, ...) can open `p`: its parent is a directory and `p` is not. */
  predicate CanCreate(fs: Entries, p: Path) {
    p != [] && (|p| == 1 || IsDir(fs, p[..|p| - 1])) && !IsDir(fs, p)
  }

  /** os.Create(p): an empty regular file at `p`, truncating one already there. */
  function Created(fs: Entries, p: Path, denied: bool): (r: Outcome)
    ensures r.err.None? <==> !denied && CanCreate(fs, p)
    ensures r.err.Some? ==> r == Outcome(fs, Some(IoFailure(Create, p)))
    ensures r.err.None? ==> r.fs == fs[p := File([])]
  {
    if denied || !CanCreate(fs, p) then Outcome(fs, Some(IoFailure(Create, p)))
    else Outcome(fs[p := File([])], None)
  }

  /** os.WriteFile(p, data): `p` holds exactly `data` afterwards. */
  function Written(fs: Entries, p: Path, data: Bytes, denied: bool): (r: Outcome)
    ensures r.err.None? <==> !denied && CanCreate(fs, p)
    ensures r.err.Some? ==> r == Outcome(fs, Some(IoFailure(WriteFile, p)))
    ensures r.err.None? ==> r.fs == fs[p := File(data)]
  {
    if denied || !CanCreate(fs, p) then Outcome(fs, Some(IoFailure(WriteFile, p)))
    else Outcome(fs[p := File(data)], None)
  }

  /** os.ReadFile(p): the bytes of a regular file; a missing path or a directory is an error. */
  function ReadBytes(fs: Entries, p: Path, denied: bool): (r: Option<Bytes>)
    ensures r.Some? <==> !denied && IsFile(fs, p)
    ensures r.Some? ==> fs[p] == File(r.value)
  {
    if denied || !IsFile(fs, p) then None else Some(fs[p].data)
  }

  /** Everything outside the paths related to `at` is as it was. */
  ghost predicate UnchangedAwayFrom(before: Entries, after: Entries, at: Path) {
    forall q :: !Related(q, at) ==> (q in before <==> q in after) && (q in before ==> before[q] == after[q])
  }

  /** Directories stay directories, and a file stays unless it is at `at`. */
  ghost predicate KeptExcept(before: Entries, after: Entries, at: Path) {
    forall q :: q in before && (q != at || before[q].Dir?) ==> q in after && after[q] == before[q]
  }

  /** The machine's file tree, updated in place by the os calls. */
  class Disk {
    var entries: Entries

    constructor (initial: Entries)
      ensures entries == initial
    {
      entries := initial;
    }

    method MkdirAll(p: Path, denied: bool) returns (err: Option<Failure>)
      modifies this
      ensures Outcome(entries, err) == Mkdirs(old(entries), p, denied)
    {
      var r := Mkdirs(entries, p, denied);
      entries, err := r.fs, r.err;
    }

    method Create(p: Path, denied: bool) returns (err: Option<Failure>)
      modifies this
      ensures Outcome(entries, err) == Created(old(entries), p, denied)
    {
      var r := Created(entries, p, denied);
      entries, err := r.fs, r.err;
    }

    /** io.Copy into a file that os.Create has just opened. */
    method Fill(p: Path, data: Bytes)
      requires IsFile(entries, p)
      modifies this
      ensures entries == old(entries)[p := File(data)]
    {
      entries := entries[p := File(data)];
    }

    method WriteFile(p: Path, data: Bytes, denied: bool) returns (err: Option<Failure>)
      modifies this
      ensures Outcome(entries, err) == Written(old(entries), p, data, denied)
    {
      var r := Written(entries, p, data, denied);
      entries, err := r.fs, r.err;
    }
  }
}
