/** Paths, bytes and the lexical order in which filepath.Walk visits a tree. */
module Paths {

  datatype Option<+T> = None | Some(value: T)

  newtype byte = x: int | 0 <= x < 256

  type Bytes = seq<byte>

  /** A slash-separated path, split into its components; [] is the working directory. */
  type Path = seq<string>

  /** `root` is `p` itself or one of its ancestors. */
  predicate Within(root: Path, p: Path) {
    root <= p
  }

  /** `p` lies strictly below `root`. */
  predicate Below(root: Path, p: Path) {
    root < p
  }

  /** Ancestor-or-descendant: a change at one may be seen at the other. */
  predicate Related(a: Path, b: Path) {
    a <= b || b <= a
  }

  /** filepath.Base: the last component, "." for the working directory. */
  function Name(p: Path): string {
    if p == [] then "." else p[|p| - 1]
  }

  /** filepath.Join(dst, filepath.Rel(src, p)) for an entry `p` of the tree at `src`. */
  function Target(src: Path, dst: Path, p: Path): (t: Path)
    requires Within(src, p)
    ensures Within(dst, t) && |t| - |dst| == |p| - |src|
    ensures src == p ==> t == dst
    ensures p != src ==> Name(t) == Name(p)
  {
    dst + p[|src|..]
  }

  lemma TargetInjective(src: Path, dst: Path, p: Path, q: Path)
    requires Within(src, p) && Within(src, q)
    ensures Target(src, dst, p) == Target(src, dst, q) ==> p == q
  {
    if Target(src, dst, p) == Target(src, dst, q) {
      assert p[|src|..] == Target(src, dst, p)[|dst|..];
      assert p == src + p[|src|..];
      assert q == src + q[|src|..];
    }
  }

  /** Byte-wise string order; for UTF-8 text it is code-point order, which is the order of `char`s here. */
  predicate LexLess(a: string, b: string) {
    if |a| == 0 then |b| > 0
    else |b| > 0 && (a[0] < b[0] || (a[0] == b[0] && LexLess(a[1..], b[1..])))
  }

  /**
   * The order of filepath.Walk: a directory before its contents, siblings by name.
   * It is the lexical order of component sequences (a prefix comes first).
   */
  predicate PathLess(a: Path, b: Path) {
    if |a| == 0 then |b| > 0
    else |b| > 0 && (LexLess(a[0], b[0]) || (a[0] == b[0] && PathLess(a[1..], b[1..])))
  }

  lemma {:induction false} LexLessIrreflexive(a: string)
    ensures !LexLess(a, a)
  {
    if |a| > 0 {
      LexLessIrreflexive(a[1..]);
    }
  }

  lemma {:induction false} LexLessTransitive(a: string, b: string, c: string)
    requires LexLess(a, b) && LexLess(b, c)
    ensures LexLess(a, c)
  {
    if |a| > 0 && a[0] == b[0] && b[0] == c[0] {
      LexLessTransitive(a[1..], b[1..], c[1..]);
    }
  }

  lemma {:induction false} LexLessTotal(a: string, b: string)
    ensures a == b || LexLess(a, b) || LexLess(b, a)
  {
    if |a| > 0 && |b| > 0 && a[0] == b[0] {
      LexLessTotal(a[1..], b[1..]);
      if a[1..] == b[1..] {
        assert a == [a[0]] + a[1..] && b == [b[0]] + b[1..];
      }
    }
  }

  lemma {:induction false} PathLessIrreflexive(a: Path)
    ensures !PathLess(a, a)
  {
    if |a| > 0 {
      LexLessIrreflexive(a[0]);
      PathLessIrreflexive(a[1..]);
    }
  }

  lemma {:induction false} PathLessTransitive(a: Path, b: Path, c: Path)
    requires PathLess(a, b) && PathLess(b, c)
    ensures PathLess(a, c)
  {
    if |a| > 0 {
      if LexLess(a[0], b[0]) && LexLess(b[0], c[0]) {
        LexLessTransitive(a[0], b[0], c[0]);
      } else if a[0] == b[0] && b[0] == c[0] {
        PathLessTransitive(a[1..], b[1..], c[1..]);
      }
    }
  }

  lemma {:induction false} PathLessTotal(a: Path, b: Path)
    ensures a == b || PathLess(a, b) || PathLess(b, a)
  {
    if |a| > 0 && |b| > 0 {
      LexLessTotal(a[0], b[0]);
      if a[0] == b[0] {
        PathLessTotal(a[1..], b[1..]);
        if a[1..] == b[1..] {
          assert a == [a[0]] + a[1..] && b == [b[0]] + b[1..];
        }
      }
    }
  }

  /** A directory is visited before everything below it. */
  lemma {:induction false} AncestorFirst(a: Path, b: Path)
    requires Below(a, b)
    ensures PathLess(a, b)
  {
    if |a| > 0 {
      assert b[0] == a[0] && a[1..] < b[1..];
      LexLessIrreflexive(a[0]);
      AncestorFirst(a[1..], b[1..]);
    }
  }
}
