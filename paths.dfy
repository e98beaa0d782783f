/** Path strings and the two pure path helpers the synchronizer uses,
    Path.GetFileName and Path.Combine, over a single directory separator. */
module Paths {

  type Path = string

  const Separator: char := '/'

  /** Index just past the last separator in p, or 0 when p has none:
      the position where the file name begins. */
  function NameStart(p: Path): (k: nat)
    ensures k <= |p|
    ensures 0 < k ==> p[k - 1] == Separator
    ensures forall i :: k <= i < |p| ==> p[i] != Separator
  {
    if p == [] then 0
    else if p[|p| - 1] == Separator then |p|
    else NameStart(p[..|p| - 1])
  }

  /** Path.GetFileName: what follows the last separator of p. */
  function FileName(p: Path): (r: Path)
    ensures Separator !in r
  {
    p[NameStart(p)..]
  }

  /** The file name is the longest suffix of p that holds no separator: it is
      the whole of p or it follows a separator. */
  lemma FileNameIsLastSegment(p: Path)
    ensures |FileName(p)| <= |p| && FileName(p) == p[|p| - |FileName(p)|..]
    ensures |FileName(p)| < |p| ==> p[|p| - |FileName(p)| - 1] == Separator
  {
  }

  /** Path.Combine(dir, name): an empty part yields the other one, a rooted
      name replaces dir, and a separator is inserted only when dir does not
      already end with one. */
  function Combine(dir: Path, name: Path): (r: Path)
    ensures dir != [] && name != [] && name[0] != Separator ==> |dir| < |r|
    ensures |r| <= |dir| + 1 + |name|
  {
    if name == [] then dir
    else if dir == [] then name
    else if name[0] == Separator then name
    else ChildPrefix(dir) + name
  }

  /** dir written so that a child's name can be appended to it. */
  function ChildPrefix(dir: Path): (r: Path)
    ensures |r| > 0 && r[|r| - 1] == Separator
    ensures |r| == |dir| || r == dir + [Separator]
    ensures r[..|dir|] == dir
  {
    if |dir| > 0 && dir[|dir| - 1] == Separator then dir else dir + [Separator]
  }

  /** p lies somewhere beneath the directory root, at any depth. */
  predicate Beneath(p: Path, root: Path)
  {
    var prefix := ChildPrefix(root);
    |prefix| < |p| && p[..|prefix|] == prefix
  }

  /** p is an entry directly inside dir: beneath it, with no further separator. */
  predicate IsDirectChild(p: Path, dir: Path)
  {
    Beneath(p, dir) && Separator !in p[|ChildPrefix(dir)|..]
  }

  /** A relative name combined with a directory lies beneath it, and what
      follows the directory and its separator is exactly that name. */
  lemma CombineAppendsName(dir: Path, name: Path)
    requires dir != [] && name != [] && name[0] != Separator
    ensures Beneath(Combine(dir, name), dir)
    ensures Combine(dir, name)[|ChildPrefix(dir)|..] == name
  {
  }

  /** The file name of a path is determined by being a separator-free suffix
      that is either the whole path or preceded by a separator. */
  lemma FileNameUnique(p: Path, n: Path)
    requires Separator !in n
    requires |n| <= |p| && p[|p| - |n|..] == n
    requires |n| < |p| ==> p[|p| - |n| - 1] == Separator
    ensures FileName(p) == n
  {
    FileNameIsLastSegment(p);
  }

  /** Combining a directory with a plain name gives an entry directly inside
      that directory, whose file name is that name. */
  lemma CombineIsDirectChild(dir: Path, name: Path)
    requires dir != [] && name != [] && Separator !in name
    ensures IsDirectChild(Combine(dir, name), dir)
    ensures FileName(Combine(dir, name)) == name
  {
    assert name[0] in name;
    CombineAppendsName(dir, name);
    FileNameUnique(Combine(dir, name), name);
  }

  /** Within one directory, distinct plain names give distinct paths. */
  lemma CombineInjective(dir: Path, name1: Path, name2: Path)
    requires dir != []
    requires Separator !in name1 && Separator !in name2
    ensures Combine(dir, name1) == Combine(dir, name2) <==> name1 == name2
  {
    if Combine(dir, name1) == Combine(dir, name2) {
      if name1 != [] && name2 != [] {
        CombineIsDirectChild(dir, name1);
        CombineIsDirectChild(dir, name2);
      }
    }
  }
}
