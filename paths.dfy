/** Path strings and the child-path join of recursive_action. */
module Paths {
  import opened Util

  /** A C string: each char stands for one byte, so |p| is strlen(p) and a multi-byte character
      of some encoding is that many chars here. */
  type Path = string

  /** The platform's maximum path length, including the terminating NUL: the size of the
      stack buffer the child path is written into (PATH_MAX on Linux). */
  const PATH_MAX: nat := 4096

  predicate EndsInSlash(p: Path) {
    |p| > 0 && p[|p| - 1] == '/'
  }

  /** Directory entry names the walker never enters. */
  predicate IsDot(name: string) {
    name == "." || name == ".."
  }

  /** The child path: the name is appended after exactly one '/', which is added only when the
      parent does not already end in one. */
  function Join(parent: Path, name: string): (r: Path)
    requires parent != []
  {
    if EndsInSlash(parent) then parent + name else parent + "/" + name
  }

  /** The joined path starts with the parent, ends with the name, has a '/' right before the
      name, and is one character longer than parent and name together exactly when the parent
      did not already end in '/'. */
  lemma JoinShape(parent: Path, name: string)
    requires parent != []
    ensures var j := Join(parent, name);
            |j| == |parent| + |name| + (if EndsInSlash(parent) then 0 else 1)
            && j[..|parent|] == parent && j[|j| - |name|..] == name
            && |j| > |name| && j[|j| - |name| - 1] == '/'
  {
  }

  /** q is p itself or a path in the subtree rooted at p: p is a prefix of q, and the rest of q
      starts a new path component. */
  predicate InSubtree(p: Path, q: Path) {
    p <= q && (|q| == |p| || EndsInSlash(p) || q[|p|] == '/')
  }

  /** A child path lies in its parent's subtree. */
  lemma JoinInSubtree(parent: Path, name: string)
    requires parent != []
    ensures InSubtree(parent, Join(parent, name))
  {
    JoinShape(parent, name);
  }

  /** A sibling whose name merely extends the parent's last component is not in its subtree. */
  lemma SubtreeNeedsSeparator()
    ensures !InSubtree("/a", "/ab") && InSubtree("/a", "/a/b") && InSubtree("/a/", "/a/b")
  {
    assert "/ab"[2] == 'b';
  }

  lemma SubtreeTransitive(a: Path, b: Path, c: Path)
    requires InSubtree(a, b) && InSubtree(b, c)
    ensures InSubtree(a, c)
  {
    assert c[..|a|] == c[..|b|][..|a|];
    if |b| > |a| {
      assert c[|a|] == b[|a|];
    }
  }

  /** The length test as the source writes it: parent, name and one more byte must fit in
      PATH_MAX; the test does not depend on whether a separator is added. */
  predicate FitsAsWritten(parent: Path, name: string) {
    |parent| + |name| + 1 <= PATH_MAX
  }

  /** The test the buffer needs: the joined path and its terminating NUL fit in PATH_MAX bytes. */
  predicate Fits(parent: Path, name: string)
    requires parent != []
  {
    |Join(parent, name)| + 1 <= PATH_MAX
  }

  /** The child path the walker recurses into, or None when it is too long for the buffer. */
  function ChildPath(parent: Path, name: string): (r: Option<Path>)
    requires parent != []
    ensures r.Some? ==> r.value == Join(parent, name) && |r.value| < PATH_MAX
    ensures r.Some? ==> FitsAsWritten(parent, name)
    ensures !FitsAsWritten(parent, name) ==> r.None?
    ensures r.None? ==> |Join(parent, name)| >= PATH_MAX
  {
    if Fits(parent, name) then Some(Join(parent, name)) else None
  }

  /** The two tests disagree exactly on the boundary case where the source's test passes but a
      separator must be added: there the joined path plus its NUL is one byte too long. */
  lemma AsWrittenDiffersOnlyAtBoundary(parent: Path, name: string)
    requires parent != []
    ensures (FitsAsWritten(parent, name) && !Fits(parent, name))
        <==> (|parent| + |name| + 1 == PATH_MAX && !EndsInSlash(parent))
    ensures Fits(parent, name) ==> FitsAsWritten(parent, name)
  {
  }

  /** A concrete parent and name that pass the source's test although writing the joined path
      with its NUL needs PATH_MAX + 1 bytes. */
  lemma AsWrittenOverflowWitness()
    ensures var parent := seq(4000, _ => 'a');
            var name := seq(95, _ => 'b');
            parent != [] && FitsAsWritten(parent, name)
            && |Join(parent, name)| + 1 == PATH_MAX + 1
  {
    var parent := seq(4000, _ => 'a');
    assert parent[|parent| - 1] == 'a';
  }
}
