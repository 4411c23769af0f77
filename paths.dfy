/** The two `os.path` functions the filesystem uses, as POSIX Python defines them. */
module Paths {

  type Path = string

  /** `p` is absolute: it begins with the separator. */
  predicate StartsWithSep(p: Path) {
    |p| > 0 && p[0] == '/'
  }

  /** Python's `posixpath.join(a, b)`: an absolute `b` discards `a`. */
  function Join(a: Path, b: Path): (r: Path)
    ensures StartsWithSep(b) ==> r == b
    ensures !StartsWithSep(b) ==> r == a + b || r == a + "/" + b
  {
    if StartsWithSep(b) then b
    else if a == [] || a[|a| - 1] == '/' then a + b
    else a + "/" + b
  }

  /** What `posixpath.join` puts before a relative name: `a`, with a separator added unless it ends in one. */
  function DirPrefix(a: Path): (r: Path)
    ensures r == [] || r[|r| - 1] == '/'
  {
    if a == [] || a[|a| - 1] == '/' then a else a + "/"
  }

  /** A relative name is appended to the directory prefix. */
  lemma JoinRelative(a: Path, b: Path)
    requires !StartsWithSep(b)
    ensures Join(a, b) == DirPrefix(a) + b
  {
  }

  /** Joining onto one directory tells relative names apart. */
  lemma JoinInjective(a: Path, b1: Path, b2: Path)
    requires !StartsWithSep(b1) && !StartsWithSep(b2)
    requires Join(a, b1) == Join(a, b2)
    ensures b1 == b2
  {
    var r := Join(a, b1);
    var n := if a == [] || a[|a| - 1] == '/' then |a| else |a| + 1;
    assert r[n..] == b1;
    assert r[n..] == b2;
  }

  /** Python's `p.rfind(c)`: the last index holding `c`, or -1. */
  function RFind(p: string, c: char): (r: int)
    ensures -1 <= r < |p|
  {
    if p == [] then -1
    else if p[|p| - 1] == c then |p| - 1
    else RFind(p[..|p| - 1], c)
  }

  /** `RFind` answers an index holding `c` with no `c` after it, or -1 when `c` does not occur. */
  lemma {:induction false} RFindSpec(p: string, c: char)
    ensures RFind(p, c) >= 0 ==> p[RFind(p, c)] == c
    ensures forall i | RFind(p, c) < i < |p| :: p[i] != c
  {
    if p != [] && p[|p| - 1] != c {
      RFindSpec(p[..|p| - 1], c);
    }
  }

  /** `ext` has the shape of an extension: a dot, then neither dot nor separator. */
  predicate IsExtension(ext: string) {
    |ext| > 0 && ext[0] == '.' && forall i | 0 < i < |ext| :: ext[i] != '.' && ext[i] != '/'
  }

  /**
   * Python's `posixpath.splitext(p)`: the extension runs from the last dot of
   * the last path component, unless only dots precede that dot in the component.
   */
  function SplitExt(p: Path): (Path, string) {
    var sepIndex := RFind(p, '/');
    var dotIndex := RFind(p, '.');
    if dotIndex > sepIndex && exists i | sepIndex + 1 <= i < dotIndex :: p[i] != '.' then
      (p[..dotIndex], p[dotIndex..])
    else
      (p, [])
  }

  /** The root and the extension put together give back the path; the extension is empty or has an extension's shape. */
  lemma SplitExtSpec(p: Path)
    ensures SplitExt(p).0 + SplitExt(p).1 == p
    ensures SplitExt(p).1 == [] || IsExtension(SplitExt(p).1)
  {
    RFindSpec(p, '/');
    RFindSpec(p, '.');
    var sepIndex := RFind(p, '/');
    var dotIndex := RFind(p, '.');
    if SplitExt(p).1 != [] {
      assert p[..dotIndex] + p[dotIndex..] == p;
    }
  }

  /** `SplitExt` takes apart what a base name and an extension make. */
  lemma SplitExtOfName(base: string, ext: string)
    requires IsExtension(ext)
    requires '/' !in base
    requires exists i | 0 <= i < |base| :: base[i] != '.'
    ensures SplitExt(base + ext) == (base, ext)
  {
    var p := base + ext;
    assert p[|base|] == '.';
    RFindSpec(p, '/');
    RFindSpec(p, '.');
    var dotIndex := RFind(p, '.');
    assert dotIndex == |base|;
    var sepIndex := RFind(p, '/');
    assert sepIndex == -1;
    var i :| 0 <= i < |base| && base[i] != '.';
    assert p[i] != '.';
    assert p[..dotIndex] == base;
    assert p[dotIndex..] == ext;
  }
}
