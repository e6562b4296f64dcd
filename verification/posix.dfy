/** The two helpers of Python's `posixpath` module that the serializers use:
    `os.path.join`, and `os.path.relpath` in the one shape the serializers give it
    (a path lying inside the start directory). */
module Posix {

  /** A path that names a location from the file-system root. */
  predicate IsAbsolute(p: string) {
    |p| > 0 && p[0] == '/'
  }

  /** `p` as a directory prefix: a separator is appended unless `p` is empty or already ends in one. */
  function AsDir(p: string): (d: string)
    ensures p <= d
    ensures d == [] || d[|d| - 1] == '/'
    ensures p != [] ==> d != []
  {
    if p == [] || p[|p| - 1] == '/' then p else p + "/"
  }

  /** `os.path.join(a, b)`: an absolute `b` discards `a`; otherwise `b` is appended to `a`,
      with a separator in between when `a` is non-empty and does not end in one. */
  function Join(a: string, b: string): (r: string)
    ensures IsAbsolute(b) ==> r == b
    ensures !IsAbsolute(b) ==> r == AsDir(a) + b
    ensures !IsAbsolute(b) ==> a <= r && |r| <= |a| + 1 + |b|
    ensures |b| <= |r| && r[|r| - |b|..] == b
  {
    if IsAbsolute(b) then b
    else if a == [] || a[|a| - 1] == '/' then a + b
    else a + "/" + b
  }

  /** `rel[i..j]` is a whole segment of `rel`: it starts at the beginning or after a separator
      and ends at the end or before a separator. */
  predicate IsSegment(rel: string, i: int, j: int) {
    && 0 <= i <= j <= |rel|
    && (i == 0 || rel[i - 1] == '/')
    && (j == |rel| || rel[j] == '/')
  }

  /** A relative path in the form `os.path.relpath` returns it: non-empty, with no leading or
      trailing separator, no empty segment (no doubled separator) and no `.` or `..` segment,
      which normalisation would have folded away. */
  predicate IsNormalRelative(rel: string) {
    && rel != []
    && rel[0] != '/'
    && rel[|rel| - 1] != '/'
    && (forall i | 0 <= i < |rel| - 1 :: rel[i] == '/' ==> rel[i + 1] != '/')
    && (forall i, j | 0 <= i <= j <= |rel| && IsSegment(rel, i, j) :: rel[i..j] != "." && rel[i..j] != "..")
  }

  /** `path` lies strictly inside the directory `start`, and the part below `start` is already in
      normal form. An empty `start` is the working directory, so `path` is then a relative path. */
  predicate Inside(path: string, start: string) {
    var d := AsDir(start);
    && |d| < |path|
    && path[..|d|] == d
    && IsNormalRelative(path[|d|..])
  }

  /** `os.path.relpath(path, start)` for a path inside `start`: the part of `path` below `start`,
      in normal form, which joined back onto `start` gives `path` again. */
  function RelPath(path: string, start: string): (rel: string)
    requires Inside(path, start)
    ensures IsNormalRelative(rel) && !IsAbsolute(rel)
    ensures Join(start, rel) == path
  {
    var d := AsDir(start);
    var rel := path[|d|..];
    assert d + rel == path;
    rel
  }
}
