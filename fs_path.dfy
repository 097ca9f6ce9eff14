/**
 * The few `std::path` operations the page cache uses, on plain Unix path
 * strings: `file_name`, `file_stem`, `parent` and `join`.
 *
 * A path is plain when it has no empty component (no `//`, no trailing `/`)
 * and no `.` component; on such paths these operations work on the text
 * directly, as below, without the component normalisation the standard
 * library would otherwise apply.
 */
module FsPaths {
  import opened Wrappers

  /** The position of the last `c` in `s`, if any. */
  function LastIndex(s: string, c: char): (r: Option<nat>)
    ensures r.Some? ==> r.value < |s| && s[r.value] == c && c !in s[r.value + 1..]
    ensures r.None? ==> c !in s
    decreases |s|
  {
    if s == [] then None
    else if s[|s| - 1] == c then Some(|s| - 1)
    else
      var r := LastIndex(s[..|s| - 1], c);
      assert s == s[..|s| - 1] + [s[|s| - 1]];
      r
  }

  /** Appending text free of `c` after a `c` moves the last `c` to that position. */
  lemma {:induction false} LastIndexAfter(a: string, c: char, b: string)
    requires c !in b
    ensures LastIndex(a + [c] + b, c) == Some(|a|)
    decreases |b|
  {
    var s := a + [c] + b;
    if b != [] {
      assert s[|s| - 1] == b[|b| - 1];
      assert s[..|s| - 1] == a + [c] + b[..|b| - 1];
      LastIndexAfter(a, c, b[..|b| - 1]);
    }
  }

  /** A single component: non-empty, without a separator, neither `.` nor `..`. */
  predicate PlainName(c: string)
  {
    |c| > 0 && '/' !in c && c != "." && c != ".."
  }

  /**
   * A path whose text the standard library takes as it is: it is not empty,
   * has no empty and no `.` component, and ends in a plain file name.
   */
  predicate PlainPath(p: string)
  {
    && |p| > 0
    && p[|p| - 1] != '/'
    && (forall k :: 0 <= k < |p| - 1 ==> !(p[k] == '/' && p[k + 1] == '/'))
    && (forall k :: 0 <= k < |p| && p[k] == '.' ==>
          (0 < k && p[k - 1] != '/') || (k + 1 < |p| && p[k + 1] != '/'))
    && PlainName(FileName(p))
  }

  /** `Path::file_name`: the text after the last separator. */
  function FileName(p: string): (r: string)
    ensures '/' !in r
  {
    match LastIndex(p, '/')
    case None => p
    case Some(k) => p[k + 1..]
  }

  /**
   * `Path::parent`: the text before the last separator; the root when that
   * separator is the first character; the empty path when there is none.
   */
  function Parent(p: string): string
  {
    match LastIndex(p, '/')
    case None => ""
    case Some(k) => if k == 0 then "/" else p[..k]
  }

  /**
   * `Path::join` of a relative name: the name alone after an empty
   * directory, no separator added after one that already ends in `/`.
   */
  function Join(dir: string, name: string): (r: string)
    ensures |r| >= |name| && r[|r| - |name|..] == name
  {
    if dir == [] then name
    else if dir[|dir| - 1] == '/' then dir + name
    else dir + "/" + name
  }

  /**
   * `Path::file_stem` of a file name: the text before the last `.`, unless
   * there is none or the name starts with its only `.` (then the whole
   * name); `..` is its own stem.
   */
  function FileStem(name: string): (r: string)
    ensures |r| <= |name| && r == name[..|r|]
  {
    if name == ".." then name
    else match LastIndex(name, '.')
      case None => name
      case Some(d) => if d == 0 then name else name[..d]
  }

  /** The stem of a file name with a non-empty, dot-free stem and an extension. */
  lemma StemOfExtended(stem: string, ext: string)
    requires |stem| > 0 && stem != "." && '.' !in ext
    ensures FileStem(stem + "." + ext) == stem
  {
    assert (stem + "." + ext)[|stem|] == '.';
    LastIndexAfter(stem, '.', ext);
    assert (stem + "." + ext)[..|stem|] == stem;
  }

  /** The name joined to a directory is the file name of the result. */
  lemma {:induction false} JoinFileName(dir: string, name: string)
    requires PlainName(name)
    ensures FileName(Join(dir, name)) == name
  {
    if dir != [] {
      var r := Join(dir, name);
      var a := r[..|r| - |name| - 1];
      assert r == a + ['/'] + name;
      LastIndexAfter(a, '/', name);
    }
  }

  /** Joining a plain name to the parent of a plain path leaves that parent the parent. */
  lemma {:induction false} JoinParent(p: string, name: string)
    requires PlainPath(p) && PlainName(name)
    ensures Parent(Join(Parent(p), name)) == Parent(p)
  {
    var d := Parent(p);
    var r := Join(d, name);
    match LastIndex(p, '/')
    case None =>
      assert LastIndex(name, '/') == None;
    case Some(k) =>
      if k == 0 {
        assert r == [] + ['/'] + name;
        LastIndexAfter([], '/', name);
      } else {
        assert d == p[..k];
        assert p[k - 1] != '/';
        assert r == d + ['/'] + name;
        LastIndexAfter(d, '/', name);
      }
  }
}
