/**
 * CopyDir (utils/config.go) and its twin copyDir (cmd/build.go): a
 * filepath.Walk over `src` whose callback mirrors every entry at
 * Join(dst, Rel(src, path)), skips entries named ".gitkeep" and stops the
 * walk at the first error it returns.
 */
module CopyTree {
  import opened Paths
  import opened FileSystem

  /** The placeholder name that keeps an empty directory under version control. */
  const Sentinel := ".gitkeep"

  /** A directory exists at `p`; the working directory always does. */
  predicate DirAt(fs: Entries, p: Path) {
    p == [] || IsDir(fs, p)
  }

  /** `t` mirrors a source node: a directory for a directory, the same bytes for a file. */
  predicate Mirrors(node: Node, fs: Entries, t: Path) {
    if node.Dir? then DirAt(fs, t) else t in fs && fs[t] == node
  }

  /** The callback gets past the stat, Rel and ".gitkeep" checks for `p` and goes on to copy it. */
  predicate Copies(fs: Entries, src: Path, p: Path, faults: Faults) {
    p in fs && !Fails(faults, p, Lstat) && Within(src, p) && Name(p) != Sentinel
  }

  /** One call of the walk callback, for the entry at `p`. */
  function Visit(fs: Entries, src: Path, dst: Path, p: Path, faults: Faults): (r: Outcome)
    ensures p !in fs || Fails(faults, p, Lstat) ==> r == Outcome(fs, Some(IoFailure(Lstat, p)))
    ensures p in fs && !Fails(faults, p, Lstat) && !Within(src, p) ==> r == Outcome(fs, Some(IoFailure(Rel, p)))
    ensures p in fs && !Fails(faults, p, Lstat) && Within(src, p) && Name(p) == Sentinel ==> r == Outcome(fs, None)
    ensures Copies(fs, src, p, faults) && fs[p].Dir? ==>
              (r.err.None? <==> !Fails(faults, p, Mkdir) && !FileOnPath(fs, Target(src, dst, p))) &&
              (r.err.Some? ==> r == Outcome(fs, Some(IoFailure(Mkdir, Target(src, dst, p)))))
    ensures Copies(fs, src, p, faults) && fs[p].File? ==>
              (r.err.None? <==> !Fails(faults, p, Open) && !Fails(faults, p, Create) &&
                                CanCreate(fs, Target(src, dst, p)) && !Fails(faults, p, Copy))
    ensures Copies(fs, src, p, faults) && fs[p].File? && Fails(faults, p, Open) ==>
              r == Outcome(fs, Some(IoFailure(Open, p)))
    ensures Copies(fs, src, p, faults) && fs[p].File? && !Fails(faults, p, Open) &&
            (Fails(faults, p, Create) || !CanCreate(fs, Target(src, dst, p))) ==>
              r == Outcome(fs, Some(IoFailure(Create, Target(src, dst, p))))
    ensures Copies(fs, src, p, faults) && fs[p].File? && Fails(faults, p, Copy) && CanCreate(fs, Target(src, dst, p)) ==>
              r == Outcome(fs[Target(src, dst, p) := File([])], Some(IoFailure(Copy, Target(src, dst, p))))
    ensures r.err.None? ==> p in fs && Within(src, p)
    ensures r.err.None? && Name(p) != Sentinel && src != dst ==> Mirrors(fs[p], r.fs, Target(src, dst, p))
    ensures r.err.None? && Name(p) != Sentinel && src != dst && fs[p].File? ==> r.fs == fs[Target(src, dst, p) := fs[p]]
    ensures !Within(src, p) ==> r.fs == fs
    ensures Within(src, p) ==> KeptExcept(fs, r.fs, Target(src, dst, p))
    ensures forall q :: q in r.fs && q !in fs ==>
              Within(src, p) && Name(p) != Sentinel && q != [] && q <= Target(src, dst, p)
    ensures UnchangedAwayFrom(fs, r.fs, dst)
  {
    if p !in fs || Fails(faults, p, Lstat) then Outcome(fs, Some(IoFailure(Lstat, p)))
    else if !Within(src, p) then Outcome(fs, Some(IoFailure(Rel, p)))
    else if Name(p) == Sentinel then Outcome(fs, None)
    else
      var target := Target(src, dst, p);
      assert forall q | q <= target :: Related(q, dst);
      if fs[p].Dir? then Mkdirs(fs, target, Fails(faults, p, Mkdir))
      else if Fails(faults, p, Open) then Outcome(fs, Some(IoFailure(Open, p)))
      else
        var c := Created(fs, target, Fails(faults, p, Create));
        if c.err.Some? then c
        else if Fails(faults, p, Copy) then Outcome(c.fs, Some(IoFailure(Copy, target)))
        else Outcome(c.fs[target := File(c.fs[p].data)], None)
  }

  /** The walk over `order`, the paths filepath.Walk hands to the callback. */
  function Walk(fs: Entries, src: Path, dst: Path, order: seq<Path>, faults: Faults): (r: Outcome)
    ensures r.err.None? ==> forall i | 0 <= i < |order| :: Within(src, order[i])
    ensures r.err.Some? ==> r.err.value.IoFailure? && exists i | 0 <= i < |order| ::
              r.err.value.path == order[i] || (Within(src, order[i]) && r.err.value.path == Target(src, dst, order[i]))
    decreases |order|
  {
    if order == [] then Outcome(fs, None)
    else
      var v := Visit(fs, src, dst, order[0], faults);
      if v.err.Some? then v
      else
        var w := Walk(v.fs, src, dst, order[1..], faults);
        assert forall i | 1 <= i < |order| :: order[i] == order[1..][i - 1];
        w
  }

  /**
   * The order filepath.Walk visits the tree at `src` in: `src` itself, then
   * every entry below it, each exactly once, in lexical order.
   */
  ghost predicate IsWalkOrder(fs: Entries, src: Path, order: seq<Path>) {
    && (forall i, j | 0 <= i < j < |order| :: PathLess(order[i], order[j]))
    && (forall p :: p in order <==> p == src || (p in fs && Within(src, p)))
  }

  /** The walk callback, acting on the disk. */
  method VisitEntry(disk: Disk, src: Path, dst: Path, p: Path, faults: Faults) returns (err: Option<Failure>)
    modifies disk
    ensures Outcome(disk.entries, err) == Visit(old(disk.entries), src, dst, p, faults)
  {
    if p !in disk.entries || Fails(faults, p, Lstat) {
      return Some(IoFailure(Lstat, p));
    }
    if !Within(src, p) {
      return Some(IoFailure(Rel, p));
    }
    if Name(p) == Sentinel {
      return None;
    }
    var target := Target(src, dst, p);
    if disk.entries[p].Dir? {
      err := disk.MkdirAll(target, Fails(faults, p, Mkdir));
      return;
    }
    if Fails(faults, p, Open) {
      return Some(IoFailure(Open, p));
    }
    err := disk.Create(target, Fails(faults, p, Create));
    if err.Some? {
      return;
    }
    if Fails(faults, p, Copy) {
      return Some(IoFailure(Copy, target));
    }
    disk.Fill(target, disk.entries[p].data);
  }

  /** CopyDir(src, dst): walks `order` and stops at the first error, which it returns. */
  method CopyDir(disk: Disk, src: Path, dst: Path, order: seq<Path>, faults: Faults) returns (err: Option<Failure>)
    modifies disk
    ensures Outcome(disk.entries, err) == Walk(old(disk.entries), src, dst, order, faults)
  {
    ghost var start := disk.entries;
    err := None;
    var i := 0;
    while i < |order| && err.None?
      invariant 0 <= i <= |order|
      invariant err.None? ==> Walk(start, src, dst, order, faults) == Walk(disk.entries, src, dst, order[i..], faults)
      invariant err.Some? ==> Walk(start, src, dst, order, faults) == Outcome(disk.entries, err)
    {
      err := VisitEntry(disk, src, dst, order[i], faults);
      assert order[i..][1..] == order[i + 1..];
      i := i + 1;
    }
  }

  /** Whatever a walk does, and wherever it stops, no directory disappears. */
  lemma {:induction false} WalkKeepsDirs(fs: Entries, src: Path, dst: Path, order: seq<Path>, faults: Faults)
    ensures forall q | IsDir(fs, q) :: IsDir(Walk(fs, src, dst, order, faults).fs, q)
    decreases |order|
  {
    if order != [] {
      var v := Visit(fs, src, dst, order[0], faults);
      if v.err.None? {
        WalkKeepsDirs(v.fs, src, dst, order[1..], faults);
      }
    }
  }

  /** Walking `a + b` is walking `a`, then `b` only if `a` returned nil. */
  lemma {:induction false} WalkAppend(fs: Entries, src: Path, dst: Path, a: seq<Path>, b: seq<Path>, faults: Faults)
    ensures Walk(fs, src, dst, a + b, faults) ==
              var w := Walk(fs, src, dst, a, faults);
              if w.err.Some? then w else Walk(w.fs, src, dst, b, faults)
    decreases |a|
  {
    if a != [] {
      assert (a + b)[1..] == a[1..] + b;
      var v := Visit(fs, src, dst, a[0], faults);
      if v.err.None? {
        WalkAppend(v.fs, src, dst, a[1..], b, faults);
      }
    } else {
      assert a + b == b;
    }
  }

  /**
   * A walk that fails fails at one entry `order[k]`: every entry before it
   * returned nil, its error is the walk's, and no entry after it is visited.
   */
  lemma {:induction false} WalkStopsAtFirstError(fs: Entries, src: Path, dst: Path, order: seq<Path>, faults: Faults)
    returns (k: nat)
    requires Walk(fs, src, dst, order, faults).err.Some?
    ensures k < |order|
    ensures Walk(fs, src, dst, order[..k], faults).err.None?
    ensures Walk(fs, src, dst, order, faults) ==
              Visit(Walk(fs, src, dst, order[..k], faults).fs, src, dst, order[k], faults)
    decreases |order|
  {
    var v := Visit(fs, src, dst, order[0], faults);
    if v.err.Some? {
      k := 0;
    } else {
      var k' := WalkStopsAtFirstError(v.fs, src, dst, order[1..], faults);
      k := k' + 1;
      assert order[..k][1..] == order[1..][..k'];
      assert order[1..][k'] == order[k];
    }
  }

  /** Nothing outside `dst`, its ancestors and its contents is modified. */
  lemma {:induction false} WalkConfined(fs: Entries, src: Path, dst: Path, order: seq<Path>, faults: Faults)
    ensures UnchangedAwayFrom(fs, Walk(fs, src, dst, order, faults).fs, dst)
    decreases |order|
  {
    if order != [] {
      var v := Visit(fs, src, dst, order[0], faults);
      if v.err.None? {
        WalkConfined(v.fs, src, dst, order[1..], faults);
      }
    }
  }

  /**
   * A successful walk keeps every directory, and keeps a file at `t` when no
   * visited entry is copied onto `t`.
   */
  lemma {:induction false} WalkKeeps(fs: Entries, src: Path, dst: Path, order: seq<Path>, faults: Faults, t: Path)
    requires Walk(fs, src, dst, order, faults).err.None?
    requires t in fs
    requires fs[t].File? ==> forall q | q in order && Within(src, q) :: Target(src, dst, q) != t
    ensures t in Walk(fs, src, dst, order, faults).fs
    ensures Walk(fs, src, dst, order, faults).fs[t] == fs[t]
    decreases |order|
  {
    if order != [] {
      var v := Visit(fs, src, dst, order[0], faults);
      assert order[0] in order;
      WalkKeeps(v.fs, src, dst, order[1..], faults, t);
    }
  }

  lemma {:induction false} WalkMirrors(fs: Entries, src: Path, dst: Path, order: seq<Path>, faults: Faults, p: Path)
    requires !Related(src, dst)
    requires forall i, j | 0 <= i < j < |order| :: order[i] != order[j]
    requires Walk(fs, src, dst, order, faults).err.None?
    requires p in order && p in fs && Within(src, p) && Name(p) != Sentinel
    ensures Mirrors(fs[p], Walk(fs, src, dst, order, faults).fs, Target(src, dst, p))
    decreases |order|
  {
    var v := Visit(fs, src, dst, order[0], faults);
    var t := Target(src, dst, p);
    if order[0] == p {
      assert p !in order[1..] by {
        forall j | 0 <= j < |order[1..]| ensures order[1..][j] != p {
          assert order[1..][j] == order[j + 1];
        }
      }
      forall q | q in order[1..] && Within(src, q) ensures Target(src, dst, q) != t {
        TargetInjective(src, dst, p, q);
      }
      if t != [] {
        WalkKeeps(v.fs, src, dst, order[1..], faults, t);
      }
    } else {
      assert !Related(p, dst);
      assert forall i, j | 0 <= i < j < |order[1..]| :: order[1..][i] != order[1..][j] by {
        forall i, j | 0 <= i < j < |order[1..]| ensures order[1..][i] != order[1..][j] {
          assert order[1..][i] == order[i + 1] && order[1..][j] == order[j + 1];
        }
      }
      WalkMirrors(v.fs, src, dst, order[1..], faults, p);
    }
  }

  /**
   * After a walk over the lexical walk order that returned nil, every entry
   * of the source tree not named ".gitkeep" is mirrored under `dst`: a file
   * with identical bytes, a directory as a directory, `src` itself as `dst`.
   */
  lemma CopyDirMirrorsSource(fs: Entries, src: Path, dst: Path, order: seq<Path>, faults: Faults)
    requires !Related(src, dst)
    requires IsWalkOrder(fs, src, order)
    requires Walk(fs, src, dst, order, faults).err.None?
    ensures forall p | p in fs && Within(src, p) && Name(p) != Sentinel ::
              Mirrors(fs[p], Walk(fs, src, dst, order, faults).fs, Target(src, dst, p))
  {
    forall i, j | 0 <= i < j < |order| ensures order[i] != order[j] {
      PathLessIrreflexive(order[i]);
    }
    forall p | p in fs && Within(src, p) && Name(p) != Sentinel
      ensures Mirrors(fs[p], Walk(fs, src, dst, order, faults).fs, Target(src, dst, p))
    {
      WalkMirrors(fs, src, dst, order, faults, p);
    }
  }

  /**
   * A new entry strictly below `dst` is never named ".gitkeep", provided no
   * visited path passes through a ".gitkeep" directory below `src`.
   */
  lemma {:induction false} NoSentinelCreated(fs: Entries, src: Path, dst: Path, order: seq<Path>, faults: Faults)
    requires forall p, i | p in order && |src| <= i < |p| - 1 :: p[i] != Sentinel
    ensures forall q | q in Walk(fs, src, dst, order, faults).fs && q !in fs && Below(dst, q) :: Name(q) != Sentinel
    decreases |order|
  {
    if order != [] {
      var p := order[0];
      var v := Visit(fs, src, dst, p, faults);
      forall q | q in v.fs && q !in fs && Below(dst, q) ensures Name(q) != Sentinel {
        var t := Target(src, dst, p);
        assert q == t[..|q|];
        if |q| < |t| {
          assert Name(q) == p[|src| + |q| - |dst| - 1];
        }
      }
      if v.err.None? {
        NoSentinelCreated(v.fs, src, dst, order[1..], faults);
      }
    }
  }

  /** A ".gitkeep" directory with a subdirectory is recreated under `dst` by the subdirectory's os.MkdirAll. */
  lemma SentinelDirectoryLeaks(fs: Entries, order: seq<Path>)
    requires fs == map[["s"] := Dir, ["s", Sentinel] := Dir, ["s", Sentinel, "sub"] := Dir]
    requires order == [["s"], ["s", Sentinel], ["s", Sentinel, "sub"]]
    ensures IsWalkOrder(fs, ["s"], order)
    ensures Walk(fs, ["s"], ["d"], order, map[]).err.None?
    ensures IsDir(Walk(fs, ["s"], ["d"], order, map[]).fs, ["d", Sentinel])
  {
    LeakOrder(fs, order);
    var v1 := LeakRoot(fs);
    var v2 := Visit(v1.fs, ["s"], ["d"], order[1], map[]);
    assert v2 == v1;
    var v3 := LeakChild(v2.fs);
    assert order[1..][1..][0] == ["s", Sentinel, "sub"] && order[1..][1..][1..] == [];
    assert Walk(v2.fs, ["s"], ["d"], order[1..][1..], map[]) == v3;
  }

  lemma LeakRoot(fs: Entries) returns (v: Outcome)
    requires fs == map[["s"] := Dir, ["s", Sentinel] := Dir, ["s", Sentinel, "sub"] := Dir]
    ensures v == Visit(fs, ["s"], ["d"], ["s"], map[]) && v.err.None?
    ensures IsDir(v.fs, ["s", Sentinel]) && IsDir(v.fs, ["s", Sentinel, "sub"])
    ensures !IsFile(v.fs, ["d"]) && ["d", Sentinel] !in v.fs && ["d", Sentinel, "sub"] !in v.fs
  {
    assert !FileOnPath(fs, ["d"]) by {
      assert ["d"][..1] == ["d"];
    }
    v := Visit(fs, ["s"], ["d"], ["s"], map[]);
  }

  lemma LeakChild(fs: Entries) returns (v: Outcome)
    requires IsDir(fs, ["s", Sentinel, "sub"])
    requires !IsFile(fs, ["d"]) && ["d", Sentinel] !in fs && ["d", Sentinel, "sub"] !in fs
    ensures v == Visit(fs, ["s"], ["d"], ["s", Sentinel, "sub"], map[]) && v.err.None?
    ensures IsDir(v.fs, ["d", Sentinel])
  {
    var leaf: Path := ["d", Sentinel, "sub"];
    assert Target(["s"], ["d"], ["s", Sentinel, "sub"]) == leaf;
    assert !FileOnPath(fs, leaf) by {
      assert leaf[..1] == ["d"] && leaf[..2] == ["d", Sentinel] && leaf[..3] == leaf;
    }
    v := Visit(fs, ["s"], ["d"], ["s", Sentinel, "sub"], map[]);
    assert leaf[..2] == ["d", Sentinel];
  }

  lemma LeakOrder(fs: Entries, order: seq<Path>)
    requires fs == map[["s"] := Dir, ["s", Sentinel] := Dir, ["s", Sentinel, "sub"] := Dir]
    requires order == [["s"], ["s", Sentinel], ["s", Sentinel, "sub"]]
    ensures IsWalkOrder(fs, ["s"], order)
  {
    AncestorFirst(["s"], ["s", Sentinel]);
    AncestorFirst(["s", Sentinel], ["s", Sentinel, "sub"]);
    AncestorFirst(["s"], ["s", Sentinel, "sub"]);
    assert forall p :: p in order <==> p in fs;
  }

  /** Two strictly sorted sequences with the same elements are equal. */
  lemma {:induction false} SortedUnique(a: seq<Path>, b: seq<Path>)
    requires forall i, j | 0 <= i < j < |a| :: PathLess(a[i], a[j])
    requires forall i, j | 0 <= i < j < |b| :: PathLess(b[i], b[j])
    requires forall p :: p in a <==> p in b
    ensures a == b
  {
    assert a != [] ==> a[0] in b;
    assert b != [] ==> b[0] in a;
    if a != [] && b != [] {
      if a[0] != b[0] {
        assert b[0] in a && a[0] in b;
        var i :| 0 <= i < |a| && a[i] == b[0];
        var j :| 0 <= j < |b| && b[j] == a[0];
        PathLessTransitive(a[0], b[0], a[0]);
        PathLessIrreflexive(a[0]);
        assert false;
      }
      assert a == [a[0]] + a[1..] && b == [b[0]] + b[1..];
      forall p ensures p in a[1..] <==> p in b[1..] {
        if p in a[1..] {
          var i :| 0 <= i < |a[1..]| && a[1..][i] == p;
          assert PathLess(a[0], a[i + 1]);
          PathLessIrreflexive(p);
          assert p in b && p != b[0];
        }
        if p in b[1..] {
          var j :| 0 <= j < |b[1..]| && b[1..][j] == p;
          assert PathLess(b[0], b[j + 1]);
          PathLessIrreflexive(p);
          assert p in a && p != a[0];
        }
      }
      SortedUnique(a[1..], b[1..]);
      assert a == [a[0]] + a[1..] && b == [b[0]] + b[1..];
    }
  }

  /** The walk order of a tree is determined by the tree. */
  lemma WalkOrderUnique(fs: Entries, src: Path, a: seq<Path>, b: seq<Path>)
    requires IsWalkOrder(fs, src, a) && IsWalkOrder(fs, src, b)
    ensures a == b
  {
    SortedUnique(a, b);
  }
}
