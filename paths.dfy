/** The parts of Python's `pathlib.PurePosixPath` the document processor
    reads: `Path(p).name` and `Path(p).suffix`, for paths written with '/'. */
module Paths {

  /** Python's `s.rfind(c)`: the index of the last `c` in `s`, or -1. */
  function LastIndexOf(s: string, c: char): (r: int)
    ensures -1 <= r < |s|
    ensures r >= 0 ==> s[r] == c
    ensures forall k :: r < k < |s| ==> s[k] != c
  {
    if s == [] then -1
    else if s[|s| - 1] == c then |s| - 1
    else LastIndexOf(s[..|s| - 1], c)
  }

  /** `Path(p).name`: the last component of `p` once empty components
      (from repeated or trailing slashes) and "." components are dropped,
      or "" when there is none (as for "", "." and "/"). */
  function Name(p: string): (r: string)
    ensures '/' !in r
    ensures r != "."
    decreases |p|
  {
    var i := LastIndexOf(p, '/');
    var last := p[i + 1..];
    if last != "" && last != "." then last
    else if i < 0 then ""
    else Name(p[..i])
  }

  /** A file name that `Name` gives back unchanged. */
  predicate IsComponent(n: string) {
    n != "" && n != "." && '/' !in n
  }

  /** A bare file name is its own name. */
  lemma NameOfBare(n: string)
    requires IsComponent(n)
    ensures Name(n) == n
  {
  }

  /** The name of `dir/n` is `n`, whatever the directory part. */
  lemma NameOfChild(dir: string, n: string)
    requires IsComponent(n)
    ensures Name(dir + "/" + n) == n
  {
    var p := dir + "/" + n;
    var i := LastIndexOf(p, '/');
    assert p[|dir|] == '/';
    assert i == |dir|;
    assert p[i + 1..] == n;
  }

  /** `Path(p).suffix` of a file name: from the last '.' to the end, unless
      that dot is the first character or the last one (then ""). The result
      is "" or a dot followed by at least one character and no other dot,
      and it is always a tail of the name. Case is kept. */
  function Suffix(name: string): (r: string)
    ensures r == "" || (|r| >= 2 && r[0] == '.' && '.' !in r[1..])
    ensures |r| <= |name| && r == name[|name| - |r|..]
  {
    var i := LastIndexOf(name, '.');
    if 0 < i < |name| - 1 then name[i..] else ""
  }

  /** The suffix of `stem.ext` is `.ext` when `ext` has no dot. */
  lemma SuffixOfStemExt(stem: string, ext: string)
    requires stem != "" && ext != "" && '.' !in ext
    ensures Suffix(stem + "." + ext) == "." + ext
  {
    var name := stem + "." + ext;
    var i := LastIndexOf(name, '.');
    assert name[|stem|] == '.';
    assert i == |stem|;
    assert name[i..] == "." + ext;
  }

  /** A name without a dot, or whose only dot leads it (".bashrc"), has
      no suffix. */
  lemma NoSuffixWithoutInnerDot(name: string)
    requires forall k :: 0 < k < |name| ==> name[k] != '.'
    ensures Suffix(name) == ""
  {
  }
}
