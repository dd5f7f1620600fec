/**
 * The `init` command (cmd/init.go): pick a template from the embedded
 * catalog, refuse an unknown one before touching the disk, create the
 * project directory and extract the template tree into it.
 */
module Scaffold {
  import opened Paths
  import opened FileSystem

  /** An entry of the embedded file system; a directory lists its children in ReadDir order. */
  datatype EmbedEntry =
    | EmbedFile(name: string, content: Bytes)
    | EmbedDir(name: string, children: seq<EmbedEntry>)

  /** The embedded catalog: the entries of its root, in ReadDir order. */
  type Catalog = seq<EmbedEntry>

  /** The template used when --template is empty. */
  const DefaultTemplate := "default"

  /** The index of the first `c` in `s`. */
  function IndexOf(s: string, c: char): (i: nat)
    requires c in s
    ensures i < |s| && s[i] == c && c !in s[..i]
  {
    if s[0] == c then 0
    else
      assert s == [s[0]] + s[1..];
      var i := IndexOf(s[1..], c);
      assert s[..i + 1] == [s[0]] + s[1..][..i];
      i + 1
  }

  /** strings.Split(s, "/"). */
  function SplitSlash(s: string): (parts: seq<string>)
    ensures |parts| >= 1
    ensures forall k | 0 <= k < |parts| :: '/' !in parts[k]
    decreases |s|
  {
    if '/' !in s then [s]
    else
      var i := IndexOf(s, '/');
      [s[..i]] + SplitSlash(s[i + 1..])
  }

  /** strings.Join(parts, "/"). */
  function JoinSlash(parts: seq<string>): string {
    if |parts| <= 1 then (if parts == [] then "" else parts[0])
    else parts[0] + "/" + JoinSlash(parts[1..])
  }

  lemma {:induction false} SplitJoin(s: string)
    ensures JoinSlash(SplitSlash(s)) == s
    decreases |s|
  {
    if '/' in s {
      var i := IndexOf(s, '/');
      SplitJoin(s[i + 1..]);
      assert s == s[..i] + "/" + s[i + 1..];
    }
  }

  /**
   * The path fs.ValidPath accepts for a name: "." is the root; otherwise
   * slash-separated elements, none of them empty, "." or "..".
   */
  function EmbedPath(name: string): (r: Option<Path>)
    ensures name == "." ==> r == Some([])
    ensures r.Some? && name != "." ==> JoinSlash(r.value) == name
    ensures r.Some? ==> forall k | 0 <= k < |r.value| :: ValidElement(r.value[k])
    ensures r.None? ==> exists k | 0 <= k < |SplitSlash(name)| :: !ValidElement(SplitSlash(name)[k])
  {
    if name == "." then Some([])
    else
      var parts := SplitSlash(name);
      SplitJoin(name);
      if forall k | 0 <= k < |parts| :: ValidElement(parts[k]) then Some(parts)
      else None
  }

  /** An element fs.ValidPath allows between slashes. */
  predicate ValidElement(e: string) {
    e != "" && e != "." && e != ".." && '/' !in e
  }

  /** Joining elements with "/" and splitting the result again gives the elements back. */
  lemma {:induction false} JoinSplit(parts: seq<string>)
    requires |parts| >= 1 && forall k | 0 <= k < |parts| :: '/' !in parts[k]
    ensures SplitSlash(JoinSlash(parts)) == parts
    decreases |parts|
  {
    if |parts| > 1 {
      var s := JoinSlash(parts);
      var n := |parts[0]|;
      JoinFirst(parts);
      FirstIndex(s, '/', n);
      JoinSplit(parts[1..]);
      assert SplitSlash(s) == [parts[0]] + parts[1..];
    }
  }

  /** A join of several parts is the first part, a slash, and the join of the rest. */
  lemma JoinFirst(parts: seq<string>)
    requires |parts| > 1
    ensures var s := JoinSlash(parts);
            && |parts[0]| < |s| && s[|parts[0]|] == '/' && s[..|parts[0]|] == parts[0]
            && s[|parts[0]| + 1..] == JoinSlash(parts[1..])
  {
    assert JoinSlash(parts) == parts[0] + "/" + JoinSlash(parts[1..]);
  }

  /** The first occurrence is the one with none before it. */
  lemma FirstIndex(s: string, c: char, n: nat)
    requires n < |s| && s[n] == c && c !in s[..n]
    ensures IndexOf(s, c) == n
  {
    var i := IndexOf(s, c);
    assert forall j | 0 <= j < n :: s[..n][j] == s[j];
    assert forall j | 0 <= j < i :: s[..i][j] == s[j];
  }

  /** fs.ValidPath accepts every path made of valid elements: its joined name leads back to it. */
  lemma EmbedPathAccepts(parts: Path)
    requires |parts| >= 1 && forall k | 0 <= k < |parts| :: ValidElement(parts[k])
    ensures EmbedPath(JoinSlash(parts)) == Some(parts)
  {
    JoinSplit(parts);
    if |parts| > 1 {
      assert JoinSlash(parts)[|parts[0]|] == '/';
    }
  }

  /** The first entry called `name`. */
  function Find(dir: seq<EmbedEntry>, name: string): (r: Option<EmbedEntry>)
    ensures r.Some? ==> r.value in dir && r.value.name == name
    ensures r.None? ==> forall e | e in dir :: e.name != name
  {
    if dir == [] then None
    else if dir[0].name == name then Some(dir[0])
    else Find(dir[1..], name)
  }

  /** The entry at a non-empty path below `dir`. */
  function NodeAt(dir: seq<EmbedEntry>, r: Path): Option<EmbedEntry>
    decreases r
  {
    if r == [] then None
    else match Find(dir, r[0])
      case None => None
      case Some(e) =>
        if |r| == 1 then Some(e)
        else if e.EmbedDir? then NodeAt(e.children, r[1..])
        else None
  }

  /** ReadDir(path) on the embedded tree: the children of the directory there. */
  function ListDir(dir: seq<EmbedEntry>, path: Path): Option<seq<EmbedEntry>> {
    if path == [] then Some(dir)
    else match NodeAt(dir, path)
      case Some(EmbedDir(_, children)) => Some(children)
      case _ => None
  }

  /** templates.FS.ReadDir(name) succeeds: the name is "." or a valid path to a directory of the catalog. */
  function Known(catalog: Catalog, name: string): (b: bool)
    ensures b <==> name == "." ||
                   (EmbedPath(name).Some? && NodeAt(catalog, EmbedPath(name).value).Some? &&
                    NodeAt(catalog, EmbedPath(name).value).value.EmbedDir?)
  {
    EmbedPath(name).Some? && ListDir(catalog, EmbedPath(name).value).Some?
  }

  /** Every template the listing prints is one ReadDir accepts. */
  lemma ListedTemplatesKnown(catalog: Catalog)
    requires UniqueTree(catalog)
    requires forall e | e in catalog :: ValidElement(e.name)
    ensures forall n | n in AvailableTemplates(catalog) :: Known(catalog, n)
  {
    forall n | n in AvailableTemplates(catalog) ensures Known(catalog, n) {
      var e :| e in catalog && e.EmbedDir? && e.name == n;
      EmbedPathAccepts([n]);
      assert EmbedPath(n) == Some([n]);
      var i :| 0 <= i < |catalog| && catalog[i] == e;
      FindUnique(catalog, i);
      assert NodeAt(catalog, [n]) == Some(e);
    }
  }

  /** With distinct names, Find returns the entry carrying the name. */
  lemma {:induction false} FindUnique(dir: seq<EmbedEntry>, i: nat)
    requires i < |dir| && forall a, b | 0 <= a < b < |dir| :: dir[a].name != dir[b].name
    ensures Find(dir, dir[i].name) == Some(dir[i])
    decreases i
  {
    if i > 0 {
      assert dir[0].name != dir[i].name;
      FindUnique(dir[1..], i - 1);
    }
  }

  /** The names printed under "Available templates": the directories of the root, in order. */
  function AvailableTemplates(catalog: Catalog): (names: seq<string>)
    ensures forall n :: n in names <==> exists e | e in catalog :: e.EmbedDir? && e.name == n
    ensures |names| == |DirIndices(catalog)|
  {
    if catalog == [] then []
    else
      var rest := AvailableTemplates(catalog[1..]);
      assert forall e | e in catalog[1..] :: e in catalog;
      assert forall e | e in catalog :: e == catalog[0] || e in catalog[1..];
      DirIndicesSplit(catalog);
      if catalog[0].EmbedDir? then [catalog[0].name] + rest else rest
  }

  /** The positions of the directory entries of the catalog root. */
  function DirIndices(catalog: Catalog): set<nat> {
    set i: nat | i < |catalog| && catalog[i].EmbedDir?
  }

  lemma DirIndicesSplit(catalog: Catalog)
    requires catalog != []
    ensures |DirIndices(catalog)| == (if catalog[0].EmbedDir? then 1 else 0) + |DirIndices(catalog[1..])|
  {
    var rest := DirIndices(catalog[1..]);
    var shifted := set i: nat | i in rest :: i + 1;
    ShiftSize(rest);
    var head: set<nat> := if catalog[0].EmbedDir? then {0} else {};
    forall i: nat ensures i in DirIndices(catalog) <==> i in head + shifted {
      if i > 0 && i < |catalog| {
        assert catalog[1..][i - 1] == catalog[i];
        assert i - 1 in rest <==> i in shifted;
      }
    }
    assert DirIndices(catalog) == head + shifted;
  }

  lemma {:induction false} ShiftSize(s: set<nat>)
    ensures |set i: nat | i in s :: i + 1| == |s|
    decreases |s|
  {
    if s != {} {
      var x :| x in s;
      var t := set i: nat | i in s :: i + 1;
      var t' := set i: nat | i in s - {x} :: i + 1;
      ShiftSize(s - {x});
      forall y ensures y in t <==> y in t' + {x + 1} {
        if y in t {
          var i :| i in s && y == i + 1;
          assert i == x || i in s - {x};
        }
      }
      assert t == t' + {x + 1} && x + 1 !in t';
    }
  }

  /** Listing order follows catalog order. */
  lemma {:induction false} AvailableTemplatesInOrder(catalog: Catalog, i: nat, j: nat)
    requires i < j < |catalog| && catalog[i].EmbedDir? && catalog[j].EmbedDir?
    ensures exists a, b | 0 <= a < b < |AvailableTemplates(catalog)| ::
              AvailableTemplates(catalog)[a] == catalog[i].name && AvailableTemplates(catalog)[b] == catalog[j].name
  {
    var names := AvailableTemplates(catalog);
    if i == 0 {
      assert catalog[1..][j - 1] == catalog[j];
      assert catalog[j].name in AvailableTemplates(catalog[1..]);
      var b :| 0 <= b < |AvailableTemplates(catalog[1..])| && AvailableTemplates(catalog[1..])[b] == catalog[j].name;
      assert names[0] == catalog[0].name && names[b + 1] == catalog[j].name;
    } else {
      assert catalog[1..][i - 1] == catalog[i] && catalog[1..][j - 1] == catalog[j];
      AvailableTemplatesInOrder(catalog[1..], i - 1, j - 1);
      var rest := AvailableTemplates(catalog[1..]);
      var a, b :| 0 <= a < b < |rest| && rest[a] == catalog[i].name && rest[b] == catalog[j].name;
      var off := if catalog[0].EmbedDir? then 1 else 0;
      assert names[a + off] == rest[a] && names[b + off] == rest[b];
    }
  }

  /** Sibling names are distinct, at every level, as in any real directory tree. */
  predicate UniqueTree(dir: seq<EmbedEntry>) {
    && (forall i, j | 0 <= i < j < |dir| :: dir[i].name != dir[j].name)
    && (forall e | e in dir && e.EmbedDir? :: UniqueTree(e.children))
  }

  /** The disk node an embedded entry becomes. */
  function AsNode(e: EmbedEntry): Node {
    if e.EmbedDir? then Dir else File(e.content)
  }

  // ----- extraction -----

  /** extractDir(embedPath, dest), given the entries ReadDir(embedPath) returns. */
  function ExtractDir(fs: Entries, dir: seq<EmbedEntry>, embedPath: Path, dest: Path, faults: Faults): (r: Outcome)
    ensures forall q | q in fs :: q in r.fs
    ensures r.err.Some? ==> r.err.value.IoFailure? && r.err.value.op in {ReadDir, Mkdir, ReadFile, WriteFile}
    decreases dir, 1
  {
    if Fails(faults, embedPath, ReadDir) then Outcome(fs, Some(IoFailure(ReadDir, embedPath)))
    else ExtractEntries(fs, dir, embedPath, dest, faults)
  }

  /** The loop over the entries; the first error ends it and is returned. */
  function ExtractEntries(fs: Entries, entries: seq<EmbedEntry>, embedPath: Path, dest: Path, faults: Faults): (r: Outcome)
    ensures forall q | q in fs :: q in r.fs
    ensures r.err.Some? ==> r.err.value.IoFailure? && r.err.value.op in {ReadDir, Mkdir, ReadFile, WriteFile}
    decreases entries, 0
  {
    if entries == [] then Outcome(fs, None)
    else
      var o := ExtractEntry(fs, entries[0], embedPath, dest, faults);
      if o.err.Some? then o else ExtractEntries(o.fs, entries[1..], embedPath, dest, faults)
  }

  /** One loop iteration: a directory is created and recursed into, a file read and written. */
  function ExtractEntry(fs: Entries, e: EmbedEntry, embedPath: Path, dest: Path, faults: Faults): (r: Outcome)
    ensures forall q | q in fs :: q in r.fs
    ensures r.err.Some? ==> r.err.value.IoFailure? && r.err.value.op in {ReadDir, Mkdir, ReadFile, WriteFile}
    decreases e, 2
  {
    var srcPath := embedPath + [e.name];
    var dstPath := dest + [e.name];
    match e
    case EmbedDir(_, children) =>
      var m := Mkdirs(fs, dstPath, Fails(faults, srcPath, Mkdir));
      if m.err.Some? then m else ExtractDir(m.fs, children, srcPath, dstPath, faults)
    case EmbedFile(_, content) =>
      if Fails(faults, srcPath, ReadFile) then Outcome(fs, Some(IoFailure(ReadFile, srcPath)))
      else
        var m := Mkdirs(fs, dest, Fails(faults, srcPath, Mkdir));
        if m.err.Some? then m else Written(m.fs, dstPath, content, Fails(faults, srcPath, WriteFile))
  }

  /** extractDir on the disk: a loop over the entries that recurses into directories. */
  method ExtractDirInto(disk: Disk, dir: seq<EmbedEntry>, embedPath: Path, dest: Path, faults: Faults)
    returns (err: Option<Failure>)
    modifies disk
    ensures Outcome(disk.entries, err) == ExtractDir(old(disk.entries), dir, embedPath, dest, faults)
    decreases dir, 1
  {
    if Fails(faults, embedPath, ReadDir) {
      return Some(IoFailure(ReadDir, embedPath));
    }
    ghost var start := disk.entries;
    var i := 0;
    while i < |dir|
      invariant 0 <= i <= |dir|
      invariant ExtractEntries(start, dir, embedPath, dest, faults) == ExtractEntries(disk.entries, dir[i..], embedPath, dest, faults)
    {
      var e := dir[i];
      assert dir[i..][0] == e && dir[i..][1..] == dir[i + 1..];
      var srcPath := embedPath + [e.name];
      var dstPath := dest + [e.name];
      if e.EmbedDir? {
        err := disk.MkdirAll(dstPath, Fails(faults, srcPath, Mkdir));
        if err.Some? {
          return;
        }
        assert e in dir;
        err := ExtractDirInto(disk, e.children, srcPath, dstPath, faults);
        if err.Some? {
          return;
        }
      } else {
        if Fails(faults, srcPath, ReadFile) {
          return Some(IoFailure(ReadFile, srcPath));
        }
        err := disk.MkdirAll(dest, Fails(faults, srcPath, Mkdir));
        if err.Some? {
          return;
        }
        err := disk.WriteFile(dstPath, e.content, Fails(faults, srcPath, WriteFile));
        if err.Some? {
          return;
        }
      }
      i := i + 1;
    }
    return None;
  }

  /** Extracting `a + b` is extracting `a`, then `b` only if `a` returned nil. */
  lemma {:induction false} ExtractEntriesAppend(fs: Entries, a: seq<EmbedEntry>, b: seq<EmbedEntry>, embedPath: Path, dest: Path, faults: Faults)
    ensures ExtractEntries(fs, a + b, embedPath, dest, faults) ==
              var o := ExtractEntries(fs, a, embedPath, dest, faults);
              if o.err.Some? then o else ExtractEntries(o.fs, b, embedPath, dest, faults)
    decreases |a|
  {
    if a == [] {
      assert a + b == b;
    } else {
      assert (a + b)[0] == a[0] && (a + b)[1..] == a[1..] + b;
      var o := ExtractEntry(fs, a[0], embedPath, dest, faults);
      if o.err.None? {
        ExtractEntriesAppend(o.fs, a[1..], b, embedPath, dest, faults);
      }
    }
  }

  /**
   * An extraction that fails fails at one entry `entries[k]`: the entries
   * before it returned nil, its error is the result, later entries are not written.
   */
  lemma {:induction false} ExtractStopsAtFirstError(fs: Entries, entries: seq<EmbedEntry>, embedPath: Path, dest: Path, faults: Faults)
    returns (k: nat)
    requires ExtractEntries(fs, entries, embedPath, dest, faults).err.Some?
    ensures k < |entries|
    ensures ExtractEntries(fs, entries[..k], embedPath, dest, faults).err.None?
    ensures ExtractEntries(fs, entries, embedPath, dest, faults) ==
              ExtractEntry(ExtractEntries(fs, entries[..k], embedPath, dest, faults).fs, entries[k], embedPath, dest, faults)
    decreases |entries|
  {
    var o := ExtractEntry(fs, entries[0], embedPath, dest, faults);
    if o.err.Some? {
      k := 0;
    } else {
      var k' := ExtractStopsAtFirstError(o.fs, entries[1..], embedPath, dest, faults);
      k := k' + 1;
      assert entries[..k][0] == entries[0] && entries[..k][1..] == entries[1..][..k'];
      assert entries[1..][k'] == entries[k];
    }
  }

  /**
   * Directories stay, and so does every file that is not at or below
   * `base`; a new entry is at or below `base`, or a directory on the way to it.
   */
  ghost predicate KeptBeyond(before: Entries, after: Entries, base: Path) {
    && (forall q :: q in before && (before[q].Dir? || !Within(base, q)) ==> q in after && after[q] == before[q])
    && (forall q :: q in after && q !in before ==> Within(base, q) || (q <= base && after[q] == Dir))
  }

  /** Whatever happens, extraction into `dest` touches no existing directory and no file outside `dest`. */
  lemma {:induction false} ExtractDirKeeps(fs: Entries, dir: seq<EmbedEntry>, embedPath: Path, dest: Path, faults: Faults)
    ensures KeptBeyond(fs, ExtractDir(fs, dir, embedPath, dest, faults).fs, dest)
    decreases dir, 1
  {
    if !Fails(faults, embedPath, ReadDir) {
      ExtractEntriesKeeps(fs, dir, embedPath, dest, faults);
    }
  }

  lemma {:induction false} ExtractEntriesKeeps(fs: Entries, entries: seq<EmbedEntry>, embedPath: Path, dest: Path, faults: Faults)
    ensures KeptBeyond(fs, ExtractEntries(fs, entries, embedPath, dest, faults).fs, dest)
    decreases entries, 0
  {
    if entries != [] {
      var o := ExtractEntry(fs, entries[0], embedPath, dest, faults);
      ExtractEntryKeeps(fs, entries[0], embedPath, dest, faults);
      assert KeptBeyond(fs, o.fs, dest) by {
        forall q | !Within(dest, q) ensures !Within(dest + [entries[0].name], q) {
        }
      }
      if o.err.None? {
        ExtractEntriesKeeps(o.fs, entries[1..], embedPath, dest, faults);
      }
    }
  }

  /** One entry is extracted only at or below `dest + [name]`. */
  lemma {:induction false} ExtractEntryKeeps(fs: Entries, e: EmbedEntry, embedPath: Path, dest: Path, faults: Faults)
    ensures KeptBeyond(fs, ExtractEntry(fs, e, embedPath, dest, faults).fs, dest + [e.name])
    decreases e, 2
  {
    var srcPath := embedPath + [e.name];
    var dstPath := dest + [e.name];
    match e
    case EmbedDir(_, children) =>
      var m := Mkdirs(fs, dstPath, Fails(faults, srcPath, Mkdir));
      if m.err.None? {
        ExtractDirKeeps(m.fs, children, srcPath, dstPath, faults);
      }
    case EmbedFile(_, content) =>
  }

  /** A successful extraction of a sibling list keeps a file no sibling is extracted onto. */
  lemma {:induction false} ExtractEntriesKeepFile(fs: Entries, entries: seq<EmbedEntry>, embedPath: Path, dest: Path, faults: Faults, t: Path)
    requires t in fs
    requires forall e | e in entries :: !Within(dest + [e.name], t)
    ensures t in ExtractEntries(fs, entries, embedPath, dest, faults).fs
    ensures ExtractEntries(fs, entries, embedPath, dest, faults).fs[t] == fs[t]
    decreases |entries|
  {
    if entries != [] {
      var o := ExtractEntry(fs, entries[0], embedPath, dest, faults);
      ExtractEntryKeeps(fs, entries[0], embedPath, dest, faults);
      assert entries[0] in entries;
      if o.err.None? {
        assert forall e | e in entries[1..] :: e in entries;
        ExtractEntriesKeepFile(o.fs, entries[1..], embedPath, dest, faults, t);
      }
    }
  }

  /**
   * After an extraction that returned nil, every entry of the embedded tree
   * at `r` is at `dest + r`: a directory as a directory, a file with
   * identical bytes. No name is filtered out, ".gitkeep" included.
   */
  lemma {:induction false} ExtractDirMirrors(fs: Entries, dir: seq<EmbedEntry>, embedPath: Path, dest: Path, faults: Faults)
    requires UniqueTree(dir)
    requires ExtractDir(fs, dir, embedPath, dest, faults).err.None?
    ensures forall r | NodeAt(dir, r).Some? ::
              dest + r in ExtractDir(fs, dir, embedPath, dest, faults).fs &&
              ExtractDir(fs, dir, embedPath, dest, faults).fs[dest + r] == AsNode(NodeAt(dir, r).value)
    decreases dir, 1
  {
    ExtractEntriesMirrors(fs, dir, embedPath, dest, faults);
  }

  lemma {:induction false} ExtractEntriesMirrors(fs: Entries, entries: seq<EmbedEntry>, embedPath: Path, dest: Path, faults: Faults)
    requires UniqueTree(entries)
    requires ExtractEntries(fs, entries, embedPath, dest, faults).err.None?
    ensures forall r | NodeAt(entries, r).Some? ::
              dest + r in ExtractEntries(fs, entries, embedPath, dest, faults).fs &&
              ExtractEntries(fs, entries, embedPath, dest, faults).fs[dest + r] == AsNode(NodeAt(entries, r).value)
    decreases entries, 0
  {
    if entries != [] {
      var o := ExtractEntry(fs, entries[0], embedPath, dest, faults);
      UniqueRest(entries);
      ExtractEntriesMirrors(o.fs, entries[1..], embedPath, dest, faults);
      forall r | NodeAt(entries, r).Some?
        ensures dest + r in ExtractEntries(fs, entries, embedPath, dest, faults).fs
        ensures ExtractEntries(fs, entries, embedPath, dest, faults).fs[dest + r] == AsNode(NodeAt(entries, r).value)
      {
        MirrorOne(fs, entries, embedPath, dest, faults, r);
      }
    }
  }

  lemma UniqueRest(entries: seq<EmbedEntry>)
    requires entries != [] && UniqueTree(entries)
    ensures UniqueTree(entries[1..])
    ensures entries[0].EmbedDir? ==> UniqueTree(entries[0].children)
  {
    var rest := entries[1..];
    forall i, j | 0 <= i < j < |rest| ensures rest[i].name != rest[j].name {
      assert rest[i] == entries[i + 1] && rest[j] == entries[j + 1];
    }
    assert forall x | x in rest :: x in entries;
    assert entries[0] in entries;
  }

  /** One path of the tree, given what the extraction of the later siblings already guarantees. */
  lemma MirrorOne(fs: Entries, entries: seq<EmbedEntry>, embedPath: Path, dest: Path, faults: Faults, r: Path)
    requires entries != [] && UniqueTree(entries)
    requires ExtractEntries(fs, entries, embedPath, dest, faults).err.None?
    requires NodeAt(entries, r).Some?
    requires var o := ExtractEntry(fs, entries[0], embedPath, dest, faults);
             var final := ExtractEntries(o.fs, entries[1..], embedPath, dest, faults).fs;
             forall r' | NodeAt(entries[1..], r').Some? :: dest + r' in final && final[dest + r'] == AsNode(NodeAt(entries[1..], r').value)
    ensures dest + r in ExtractEntries(fs, entries, embedPath, dest, faults).fs
    ensures ExtractEntries(fs, entries, embedPath, dest, faults).fs[dest + r] == AsNode(NodeAt(entries, r).value)
    decreases entries, 0, 1
  {
    var e := entries[0];
    var o := ExtractEntry(fs, e, embedPath, dest, faults);
    if r[0] == e.name {
      UniqueRest(entries);
      ExtractEntryMirrors(fs, e, embedPath, dest, faults);
      assert Find(entries, r[0]) == Some(e);
      assert dest + r == (dest + [e.name]) + r[1..];
      if |r| > 1 {
        assert e.EmbedDir? && NodeAt(entries, r) == NodeAt(e.children, r[1..]);
      } else {
        assert r == [e.name];
      }
      SiblingsKeepHead(o.fs, entries, embedPath, dest, faults, r);
    } else {
      FindSkipsFirst(entries, r[0]);
      assert NodeAt(entries, r) == NodeAt(entries[1..], r);
    }
  }

  /** What the first entry put at `dest + r` survives the extraction of its siblings. */
  lemma SiblingsKeepHead(fs: Entries, entries: seq<EmbedEntry>, embedPath: Path, dest: Path, faults: Faults, r: Path)
    requires entries != [] && r != [] && r[0] == entries[0].name
    requires forall i, j | 0 <= i < j < |entries| :: entries[i].name != entries[j].name
    requires dest + r in fs
    ensures dest + r in ExtractEntries(fs, entries[1..], embedPath, dest, faults).fs
    ensures ExtractEntries(fs, entries[1..], embedPath, dest, faults).fs[dest + r] == fs[dest + r]
  {
    var rest := entries[1..];
    forall x | x in rest ensures !Within(dest + [x.name], dest + r) {
      var i :| 0 <= i < |rest| && rest[i] == x;
      assert entries[i + 1] == x;
      assert (dest + r)[|dest|] == r[0];
      assert (dest + [x.name])[|dest|] == x.name;
    }
    ExtractEntriesKeepFile(fs, rest, embedPath, dest, faults, dest + r);
  }

  lemma FindSkipsFirst(entries: seq<EmbedEntry>, name: string)
    requires entries != [] && entries[0].name != name
    ensures Find(entries, name) == Find(entries[1..], name)
  {
  }

  lemma {:induction false} ExtractEntryMirrors(fs: Entries, e: EmbedEntry, embedPath: Path, dest: Path, faults: Faults)
    requires e.EmbedDir? ==> UniqueTree(e.children)
    requires ExtractEntry(fs, e, embedPath, dest, faults).err.None?
    ensures dest + [e.name] in ExtractEntry(fs, e, embedPath, dest, faults).fs
    ensures ExtractEntry(fs, e, embedPath, dest, faults).fs[dest + [e.name]] == AsNode(e)
    ensures e.EmbedDir? ==> forall r | NodeAt(e.children, r).Some? ::
              (dest + [e.name]) + r in ExtractEntry(fs, e, embedPath, dest, faults).fs &&
              ExtractEntry(fs, e, embedPath, dest, faults).fs[(dest + [e.name]) + r] == AsNode(NodeAt(e.children, r).value)
    decreases e, 2
  {
    var srcPath := embedPath + [e.name];
    var dstPath := dest + [e.name];
    match e
    case EmbedDir(_, children) =>
      var m := Mkdirs(fs, dstPath, Fails(faults, srcPath, Mkdir));
      assert IsDir(m.fs, dstPath);
      ExtractDirKeeps(m.fs, children, srcPath, dstPath, faults);
      ExtractDirMirrors(m.fs, children, srcPath, dstPath, faults);
    case EmbedFile(_, content) =>
  }

  // ----- the command -----

  /** What `init` prints, in order; the exact wording is not modelled. */
  datatype InitEvent =
    | UnknownTemplate(name: string)
    | TemplateListing(names: seq<string>)
    | Creating(project: Path, template: string)
    | ProjectDirFailed(err: Failure)
    | ExtractFailed(err: Failure)
    | ProjectCreated(project: Path)

  datatype InitResult = InitResult(fs: Entries, log: seq<InitEvent>)

  /** extractTemplate: checks the template again, then extracts it into the project directory. */
  function ExtractTemplate(fs: Entries, catalog: Catalog, project: Path, name: string, faults: Faults): (r: Outcome)
    ensures !Known(catalog, name) ==> r == Outcome(fs, Some(TemplateNotFound(name)))
    ensures Known(catalog, name) ==> KeptBeyond(fs, r.fs, project)
  {
    if !Known(catalog, name) then Outcome(fs, Some(TemplateNotFound(name)))
    else
      var path := EmbedPath(name).value;
      ExtractDirKeeps(fs, ListDir(catalog, path).value, path, project, faults);
      ExtractDir(fs, ListDir(catalog, path).value, path, project, faults)
  }

  /** MkdirAll of `base` keeps what KeptBeyond asks for. */
  lemma MkdirsKept(fs: Entries, base: Path, denied: bool)
    ensures KeptBeyond(fs, Mkdirs(fs, base, denied).fs, base)
  {
  }

  /** Two steps that keep what is beyond `base` keep it together. */
  lemma KeptChain(a: Entries, b: Entries, c: Entries, base: Path)
    requires KeptBeyond(a, b, base) && KeptBeyond(b, c, base)
    ensures KeptBeyond(a, c, base)
  {
  }

  /** The Run function of initCmd, for project directory `project` and --template value `flag`. */
  function RunInit(fs: Entries, catalog: Catalog, project: Path, flag: string, mkdirDenied: bool, faults: Faults): (r: InitResult)
    ensures var name := if flag == "" then DefaultTemplate else flag;
            && (!Known(catalog, name) ==>
                  r == InitResult(fs, [UnknownTemplate(name), TemplateListing(AvailableTemplates(catalog))]))
            && (Known(catalog, name) ==> |r.log| == 2 && r.log[0] == Creating(project, name))
            && (ProjectCreated(project) in r.log <==>
                  Known(catalog, name) && !mkdirDenied && !FileOnPath(fs, project) &&
                  ExtractTemplate(Mkdirs(fs, project, false).fs, catalog, project, name, faults).err.None?)
            && (r.log[|r.log| - 1].ProjectCreated? ==> r.fs == ExtractTemplate(Mkdirs(fs, project, false).fs, catalog, project, name, faults).fs)
            && (Known(catalog, name) && (mkdirDenied || FileOnPath(fs, project)) ==>
                  r == InitResult(fs, [Creating(project, name), ProjectDirFailed(IoFailure(Mkdir, project))]))
            && (var x := ExtractTemplate(Mkdirs(fs, project, false).fs, catalog, project, name, faults);
                Known(catalog, name) && !mkdirDenied && !FileOnPath(fs, project) && x.err.Some? ==>
                  r == InitResult(x.fs, [Creating(project, name), ExtractFailed(x.err.value)]))
            && KeptBeyond(fs, r.fs, project)
  {
    var name := if flag == "" then DefaultTemplate else flag;
    if !Known(catalog, name) then
      InitResult(fs, [UnknownTemplate(name), TemplateListing(AvailableTemplates(catalog))])
    else
      CreateProjectLog(fs, catalog, project, name, mkdirDenied, faults);
      CreateProjectTree(fs, catalog, project, name, mkdirDenied, faults);
      CreateProject(fs, catalog, project, name, mkdirDenied, faults)
  }

  /** Run once the template name is known: MkdirAll of the project, then the extraction. */
  function CreateProject(fs: Entries, catalog: Catalog, project: Path, name: string, mkdirDenied: bool, faults: Faults): InitResult
    requires Known(catalog, name)
  {
    var m := Mkdirs(fs, project, mkdirDenied);
    if m.err.Some? then InitResult(fs, [Creating(project, name), ProjectDirFailed(m.err.value)])
    else
      var x := ExtractTemplate(m.fs, catalog, project, name, faults);
      if x.err.Some? then InitResult(x.fs, [Creating(project, name), ExtractFailed(x.err.value)])
      else InitResult(x.fs, [Creating(project, name), ProjectCreated(project)])
  }

  /** Which of the three outcomes Run reports for a known template, and what each leaves. */
  lemma CreateProjectLog(fs: Entries, catalog: Catalog, project: Path, name: string, mkdirDenied: bool, faults: Faults)
    requires Known(catalog, name)
    ensures var r := CreateProject(fs, catalog, project, name, mkdirDenied, faults);
            var x := ExtractTemplate(Mkdirs(fs, project, false).fs, catalog, project, name, faults);
            && |r.log| == 2 && r.log[0] == Creating(project, name)
            && (ProjectCreated(project) in r.log <==> !mkdirDenied && !FileOnPath(fs, project) && x.err.None?)
            && (r.log[|r.log| - 1].ProjectCreated? ==> r.fs == x.fs)
            && (mkdirDenied || FileOnPath(fs, project) ==>
                  r == InitResult(fs, [Creating(project, name), ProjectDirFailed(IoFailure(Mkdir, project))]))
            && (!mkdirDenied && !FileOnPath(fs, project) && x.err.Some? ==>
                  r == InitResult(x.fs, [Creating(project, name), ExtractFailed(x.err.value)]))
  {
  }

  /** For a known template, Run keeps every directory and every file outside the project. */
  lemma CreateProjectTree(fs: Entries, catalog: Catalog, project: Path, name: string, mkdirDenied: bool, faults: Faults)
    requires Known(catalog, name)
    ensures KeptBeyond(fs, CreateProject(fs, catalog, project, name, mkdirDenied, faults).fs, project)
  {
    var m := Mkdirs(fs, project, mkdirDenied);
    if m.err.None? {
      MkdirsKept(fs, project, mkdirDenied);
      KeptChain(fs, m.fs, ExtractTemplate(m.fs, catalog, project, name, faults).fs, project);
    }
  }

  /** initCmd's Run on the disk. */
  method Init(disk: Disk, catalog: Catalog, project: Path, flag: string, mkdirDenied: bool, faults: Faults)
    returns (log: seq<InitEvent>)
    modifies disk
    ensures InitResult(disk.entries, log) == RunInit(old(disk.entries), catalog, project, flag, mkdirDenied, faults)
  {
    var name := flag;
    if name == "" {
      name := DefaultTemplate;
    }
    if !Known(catalog, name) {
      return [UnknownTemplate(name), TemplateListing(AvailableTemplates(catalog))];
    }
    var err := disk.MkdirAll(project, mkdirDenied);
    if err.Some? {
      return [Creating(project, name), ProjectDirFailed(err.value)];
    }
    var path := EmbedPath(name).value;
    err := ExtractDirInto(disk, ListDir(catalog, path).value, path, project, faults);
    if err.Some? {
      return [Creating(project, name), ExtractFailed(err.value)];
    }
    log := [Creating(project, name), ProjectCreated(project)];
  }

  /** Every directory the catalog holds has children with distinct names too. */
  lemma {:induction false} UniqueTreeBelow(dir: seq<EmbedEntry>, path: Path)
    requires UniqueTree(dir) && ListDir(dir, path).Some?
    ensures UniqueTree(ListDir(dir, path).value)
    decreases path
  {
    if path != [] {
      var e := Find(dir, path[0]).value;
      if |path| > 1 {
        assert NodeAt(dir, path) == NodeAt(e.children, path[1..]);
        assert ListDir(dir, path) == ListDir(e.children, path[1..]);
        UniqueTreeBelow(e.children, path[1..]);
      }
    }
  }

  /**
   * When `init` reports success, the project directory holds the whole
   * template: every entry at `r` below it is at `project + r`.
   */
  lemma InitMirrorsTemplate(fs: Entries, catalog: Catalog, project: Path, flag: string, mkdirDenied: bool, faults: Faults)
    requires UniqueTree(catalog)
    requires ProjectCreated(project) in RunInit(fs, catalog, project, flag, mkdirDenied, faults).log
    ensures var name := if flag == "" then DefaultTemplate else flag;
            var template := ListDir(catalog, EmbedPath(name).value).value;
            var out := RunInit(fs, catalog, project, flag, mkdirDenied, faults).fs;
            && (project == [] || IsDir(out, project))
            && forall r | NodeAt(template, r).Some? :: project + r in out && out[project + r] == AsNode(NodeAt(template, r).value)
  {
    var name := if flag == "" then DefaultTemplate else flag;
    var path := EmbedPath(name).value;
    var template := ListDir(catalog, path).value;
    var m := Mkdirs(fs, project, false);
    UniqueTreeBelow(catalog, path);
    ExtractDirMirrors(m.fs, template, path, project, faults);
    ExtractDirKeeps(m.fs, template, path, project, faults);
    assert project != [] ==> IsDir(m.fs, project);
  }
}
