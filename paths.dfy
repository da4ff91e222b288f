// Small helpers shared by the model: an Option type, and absolute file-system
// paths with the three `std::path` operations the program uses.

module Wrappers {

  datatype Option<+T> = None | Some(value: T)
}

module Paths {
  import opened Wrappers

  /** The name of one component of a normalised path: never empty, never
      "." or "..", and free of the separator '/'. */
  type Name = s: string | s != "" && s != "." && s != ".." && '/' !in s witness "a"

  /** An absolute, normalised path, given by the names of its components
      below the root directory "/": the path /tmp/a.tar is ["tmp", "a.tar"],
      and the root itself is []. */
  type Path = seq<Name>

  /** s is a prefix of t: as paths, t is s itself or lies somewhere below s. */
  predicate IsPrefix<T(==)>(s: seq<T>, t: seq<T>)
  {
    |s| <= |t| && t[..|s|] == s
  }

  /** `Path::parent`: the directory holding p; the root has none. */
  function Parent(p: Path): (r: Option<Path>)
    ensures r.Some? <==> p != []
    ensures r.Some? ==> |r.value| + 1 == |p| && IsPrefix(r.value, p)
  {
    if p == [] then None else Some(p[..|p| - 1])
  }

  /** `Path::file_name`: the last component of p; the root has none. */
  function FileName(p: Path): (r: Option<Name>)
    ensures r.Some? <==> p != []
  {
    if p == [] then None else Some(p[|p| - 1])
  }

  /** `Path::join` with a single name: the entry called name inside dir. */
  function Join(dir: Path, name: Name): (r: Path)
    ensures Parent(r) == Some(dir) && FileName(r) == Some(name)
  {
    dir + [name]
  }

  /** Joining the parent and the file name of a path gives the path back. */
  lemma {:induction false} JoinParentFileName(p: Path)
    requires p != []
    ensures Join(Parent(p).value, FileName(p).value) == p
  {
    assert p[..|p| - 1] + [p[|p| - 1]] == p;
  }

  lemma {:induction false} PrefixTransitive<T>(a: seq<T>, b: seq<T>, c: seq<T>)
    requires IsPrefix(a, b) && IsPrefix(b, c)
    ensures IsPrefix(a, c)
  {
    assert c[..|a|] == c[..|b|][..|a|];
  }

  /** `std::path::Component`: how the standard library splits a path. */
  datatype Component = RootDir | CurDir | ParentDir | Prefix(prefix: string) | Normal(name: string)

  /** `Path::components` of an absolute, normalised path: the root
      directory followed by one Normal component per name. */
  function Components(p: Path): (cs: seq<Component>)
    ensures |cs| == |p| + 1 && cs[0] == RootDir
    ensures forall k :: 0 <= k < |p| ==> cs[k + 1] == Normal(p[k])
  {
    [RootDir] + seq(|p|, k requires 0 <= k < |p| => Normal(p[k]))
  }
}
