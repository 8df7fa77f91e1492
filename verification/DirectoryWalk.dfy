/**
 * Opening an absolute directory one component at a time,
 * docker/build-trust-runtime/secure_linux.go:168-204. Each descriptor is closed as soon as
 * the next is open; a call either keeps exactly the one it returns or none.
 */
module DirectoryWalk {

  import opened Wrappers

  type Node = nat
  type Fd = int

  /** The directory tree, and what the metadata checks demand of each directory on the way. */
  datatype Tree = Tree(root: Node, child: (Node, string) -> Option<Node>, admits: (seq<string>, Node) -> bool)

  /** The directory that a path names, none if a component is missing. */
  function Reached(tree: Tree, path: seq<string>): Option<Node> {
    if path == [] then Some(tree.root)
    else
      var parent := Reached(tree, path[..|path| - 1]);
      if parent.None? then None else tree.child(parent.value, path[|path| - 1])
  }

  const LONGEST_COMPONENT := 255

  predicate GoodComponent(component: string) {
    component != "" && component != "." && component != ".." && |component| <= LONGEST_COMPONENT
  }

  /** The directory after `n` components exists and is admitted. */
  predicate TrustedAt(tree: Tree, path: seq<string>, n: nat)
    requires 0 < n <= |path|
  {
    GoodComponent(path[n - 1]) && Reached(tree, path[..n]).Some?
    && tree.admits(path[..n], Reached(tree, path[..n]).value)
  }

  /** Every directory below the root and down to the named one. */
  predicate Trusted(tree: Tree, path: seq<string>) {
    forall n :: 0 < n <= |path| ==> TrustedAt(tree, path, n)
  }

  class Process {
    var held: map<Fd, Node>

    constructor ()
      ensures held == map[]
    {
      held := map[];
    }

    /** open or openat: a descriptor not yet held, unless the system refuses. */
    method Open(node: Option<Node>) returns (fd: Option<Fd>)
      modifies this
      ensures fd.None? ==> held == old(held)
      ensures fd.Some? ==> fd.value !in old(held) && node.Some? && held == old(held)[fd.value := node.value]
    {
      var n: Fd := *;
      if node.None? || n in held { return None; }
      held := held[n := node.value];
      return Some(n);
    }

    method Close(fd: Fd)
      modifies this
      ensures held == old(held) - {fd}
    {
      held := held - {fd};
    }

    /** fstat and the checks on it; reading the metadata may fail too. */
    method Validate(tree: Tree, path: seq<string>, fd: Fd) returns (ok: bool)
      requires fd in held
      ensures ok ==> tree.admits(path, held[fd])
    {
      var readable: bool := *;
      ok := readable && tree.admits(path, held[fd]);
    }

    method OpenAbsoluteDirectory(tree: Tree, path: seq<string>) returns (fd: Option<Fd>)
      modifies this
      ensures fd.None? ==> held == old(held)
      ensures fd.Some? ==> fd.value !in old(held) && Trusted(tree, path)
      ensures fd.Some? ==> Reached(tree, path).Some? && held == old(held)[fd.value := Reached(tree, path).value]
    {
      ghost var start := held;
      var here := Open(Some(tree.root));
      if here.None? { return None; }
      var current := here.value;
      for i := 0 to |path|
        invariant current !in start && Reached(tree, path[..i]).Some?
        invariant held == start[current := Reached(tree, path[..i]).value]
        invariant Trusted(tree, path[..i])
      {
        assert path[..i + 1][..i] == path[..i];
        if !GoodComponent(path[i]) {
          Close(current);
          return None;
        }
        var next := Open(tree.child(held[current], path[i]));
        Close(current);
        if next.None? { return None; }
        assert held == start[next.value := Reached(tree, path[..i + 1]).value];
        var ok := Validate(tree, path[..i + 1], next.value);
        if !ok {
          Close(next.value);
          return None;
        }
        TrustGrows(tree, path, i);
        current := next.value;
      }
      assert path[..|path|] == path;
      return Some(current);
    }
  }

  lemma TrustGrows(tree: Tree, path: seq<string>, i: nat)
    requires i < |path| && Trusted(tree, path[..i]) && GoodComponent(path[i])
    requires Reached(tree, path[..i + 1]).Some?
    requires tree.admits(path[..i + 1], Reached(tree, path[..i + 1]).value)
    ensures Trusted(tree, path[..i + 1])
  {
    var longer := path[..i + 1];
    forall n | 0 < n <= i + 1 ensures TrustedAt(tree, longer, n) {
      assert longer[..n] == path[..n];
      if n <= i {
        assert path[..i][..n] == path[..n];
        assert TrustedAt(tree, path[..i], n);
      }
    }
  }
}
