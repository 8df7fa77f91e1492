/**
 * Role-based clustering of tools, scripts/role-clusters.ts: union-find with path
 * compression over a mutable parent map, and the loops that feed it. The result
 * is shown to be the connected components of "shares a role other than none".
 */
module RoleClusters {

  import opened Wrappers

  // ---------------------------------------------------------------------
  // Chains: the reference notion of being connected
  // ---------------------------------------------------------------------

  type Edge = (string, string)

  predicate Joined(edges: set<Edge>, a: string, b: string) {
    (a, b) in edges || (b, a) in edges
  }

  predicate IsPath(edges: set<Edge>, path: seq<string>) {
    path != [] && forall i :: 0 <= i < |path| - 1 ==> Joined(edges, path[i], path[i + 1])
  }

  ghost predicate Linked(edges: set<Edge>, a: string, b: string) {
    exists path :: IsPath(edges, path) && path[0] == a && path[|path| - 1] == b
  }

  lemma LinkedSelf(edges: set<Edge>, a: string)
    ensures Linked(edges, a, a)
  {
    assert IsPath(edges, [a]);
  }

  lemma LinkedEdge(edges: set<Edge>, a: string, b: string)
    requires Joined(edges, a, b)
    ensures Linked(edges, a, b)
  {
    var path := [a, b];
    assert IsPath(edges, path);
  }

  lemma LinkedSymmetric(edges: set<Edge>, a: string, b: string)
    requires Linked(edges, a, b)
    ensures Linked(edges, b, a)
  {
    var path :| IsPath(edges, path) && path[0] == a && path[|path| - 1] == b;
    var n := |path|;
    var back := seq(n, i requires 0 <= i < n => path[n - 1 - i]);
    forall i | 0 <= i < n - 1 ensures Joined(edges, back[i], back[i + 1]) {
      assert Joined(edges, path[n - 2 - i], path[n - 2 - i + 1]);
    }
    assert IsPath(edges, back);
  }

  lemma LinkedTransitive(edges: set<Edge>, a: string, b: string, c: string)
    requires Linked(edges, a, b) && Linked(edges, b, c)
    ensures Linked(edges, a, c)
  {
    var p :| IsPath(edges, p) && p[0] == a && p[|p| - 1] == b;
    var q :| IsPath(edges, q) && q[0] == b && q[|q| - 1] == c;
    var path := p + q[1..];
    forall i | 0 <= i < |path| - 1 ensures Joined(edges, path[i], path[i + 1]) {
      if i < |p| - 1 {
        assert Joined(edges, p[i], p[i + 1]);
      } else {
        assert Joined(edges, q[i - |p| + 1], q[i - |p| + 2]);
      }
    }
    assert IsPath(edges, path);
  }

  lemma LinkedGrows(small: set<Edge>, large: set<Edge>, a: string, b: string)
    requires Linked(small, a, b)
    requires forall e :: e in small ==> Linked(large, e.0, e.1)
    ensures Linked(large, a, b)
  {
    var path :| IsPath(small, path) && path[0] == a && path[|path| - 1] == b;
    PathGrows(small, large, path);
  }

  lemma {:induction false} PathGrows(small: set<Edge>, large: set<Edge>, path: seq<string>)
    requires IsPath(small, path)
    requires forall e :: e in small ==> Linked(large, e.0, e.1)
    ensures Linked(large, path[0], path[|path| - 1])
    decreases |path|
  {
    if |path| == 1 {
      LinkedSelf(large, path[0]);
    } else {
      var front := path[..|path| - 1];
      var x, y := path[|path| - 2], path[|path| - 1];
      assert forall i :: 0 <= i < |front| ==> front[i] == path[i];
      assert forall i :: 0 <= i < |front| - 1 ==> Joined(small, path[i], path[i + 1]);
      PathGrows(small, large, front);
      assert Joined(small, x, y);
      if (x, y) in small {
        assert Linked(large, (x, y).0, (x, y).1);
      } else {
        assert Linked(large, (y, x).0, (y, x).1);
        LinkedSymmetric(large, y, x);
      }
      LinkedTransitive(large, path[0], x, y);
    }
  }

  // ---------------------------------------------------------------------
  // A partition given by representatives
  // ---------------------------------------------------------------------

  /** Two nodes have the same representative exactly when they are linked. */
  ghost predicate Represents(rep: map<string, string>, edges: set<Edge>) {
    (forall e :: e in edges ==> e.0 in rep && e.1 in rep)
    && forall a, b {:trigger Linked(edges, a, b)} ::
         a in rep && b in rep ==> (rep[a] == rep[b] <==> Linked(edges, a, b))
  }

  function Merge(rep: map<string, string>, ra: string, rb: string): map<string, string> {
    map x | x in rep :: if rep[x] == ra then rb else rep[x]
  }

  lemma MergeSame(rep: map<string, string>, r: string)
    ensures Merge(rep, r, r) == rep
  {
  }

  lemma {:induction false} SamePath(rep: map<string, string>, edges: set<Edge>, path: seq<string>)
    requires IsPath(edges, path) && path[0] in rep
    requires forall e :: e in edges ==> e.0 in rep && e.1 in rep && rep[e.0] == rep[e.1]
    ensures path[|path| - 1] in rep && rep[path[0]] == rep[path[|path| - 1]]
    decreases |path|
  {
    if |path| > 1 {
      assert Joined(edges, path[0], path[1]);
      if (path[0], path[1]) in edges {
        assert rep[(path[0], path[1]).0] == rep[(path[0], path[1]).1];
      } else {
        assert rep[(path[1], path[0]).0] == rep[(path[1], path[0]).1];
      }
      var tail := path[1..];
      forall i | 0 <= i < |tail| - 1 ensures Joined(edges, tail[i], tail[i + 1]) {
        assert Joined(edges, path[i + 1], path[i + 1 + 1]);
      }
      SamePath(rep, edges, tail);
    }
  }

  lemma LinkedHasSameRep(rep: map<string, string>, edges: set<Edge>, a: string, b: string)
    requires Linked(edges, a, b) && a in rep
    requires forall e :: e in edges ==> e.0 in rep && e.1 in rep && rep[e.0] == rep[e.1]
    ensures b in rep && rep[a] == rep[b]
  {
    var path :| IsPath(edges, path) && path[0] == a && path[|path| - 1] == b;
    SamePath(rep, edges, path);
  }

  /** Pointing one representative at another adds exactly one edge. */
  lemma MergeAddsEdge(rep: map<string, string>, edges: set<Edge>, a: string, b: string)
    returns (next: map<string, string>, more: set<Edge>)
    requires Represents(rep, edges) && a in rep && b in rep
    ensures next == Merge(rep, rep[a], rep[b]) && more == edges + {(a, b)}
    ensures Represents(next, more) && next.Keys == rep.Keys
  {
    next, more := Merge(rep, rep[a], rep[b]), edges + {(a, b)};
    forall e | e in more ensures e.0 in next && e.1 in next && next[e.0] == next[e.1] {
      if e in edges { LinkedEdge(edges, e.0, e.1); }
    }
    forall e | e in edges ensures Linked(more, e.0, e.1) { LinkedEdge(more, e.0, e.1); }
    forall x, y | x in next && y in next ensures next[x] == next[y] <==> Linked(more, x, y) {
      if Linked(more, x, y) { LinkedHasSameRep(next, more, x, y); }
      if next[x] == next[y] { MergedAreLinked(rep, edges, a, b, x, y); }
    }
  }

  lemma MergedAreLinked(rep: map<string, string>, edges: set<Edge>, a: string, b: string, x: string, y: string)
    requires Represents(rep, edges) && a in rep && b in rep && x in rep && y in rep
    requires Merge(rep, rep[a], rep[b])[x] == Merge(rep, rep[a], rep[b])[y]
    ensures Linked(edges + {(a, b)}, x, y)
  {
    var more := edges + {(a, b)};
    forall e | e in edges ensures Linked(more, e.0, e.1) { LinkedEdge(more, e.0, e.1); }
    LinkedEdge(more, a, b);
    if rep[x] == rep[y] {
      LinkedGrows(edges, more, x, y);
    } else if rep[x] == rep[a] {
      assert Linked(edges, x, a) && Linked(edges, b, y);
      LinkedGrows(edges, more, x, a);
      LinkedGrows(edges, more, b, y);
      LinkedTransitive(more, x, a, b);
      LinkedTransitive(more, x, b, y);
    } else {
      assert Linked(edges, x, b) && Linked(edges, a, y);
      LinkedGrows(edges, more, x, b);
      LinkedGrows(edges, more, a, y);
      LinkedSymmetric(more, a, b);
      LinkedTransitive(more, x, b, a);
      LinkedTransitive(more, x, a, y);
    }
  }

  // ---------------------------------------------------------------------
  // class UnionFind
  // ---------------------------------------------------------------------

  /** `xs` names every element of `keys` once. */
  ghost predicate Lists(xs: seq<string>, keys: set<string>) {
    Distinct(xs) && forall x :: x in xs <==> x in keys
  }

  /** The members of one cluster, in the order of the parent map's keys. */
  function Members(order: seq<string>, rep: map<string, string>, r: string): seq<string> {
    if order == [] then []
    else
      var n := |order| - 1;
      Members(order[..n], rep, r) + (if order[n] in rep && rep[order[n]] == r then [order[n]] else [])
  }

  type Links = map<string, string>

  /** Node `x` fits in: its link stays inside its own part and `depth` falls along it. */
  predicate NodeFits(parent: Links, rep: Links, depth: map<string, nat>, x: string)
    requires rep.Keys == parent.Keys && depth.Keys == parent.Keys && x in parent
  {
    && parent[x] in parent && rep[x] in parent
    && rep[parent[x]] == rep[x] && parent[rep[x]] == rep[x] && rep[rep[x]] == rep[x]
    && (parent[x] == x ==> rep[x] == x)
    && (parent[x] != x ==> depth[parent[x]] < depth[x])
    && (rep[x] != x ==> depth[rep[x]] < depth[x])
  }

  /** The links form a forest whose trees are the parts that `rep` describes. */
  ghost predicate Forest(parent: Links, rep: Links, depth: map<string, nat>) {
    rep.Keys == parent.Keys && depth.Keys == parent.Keys
    && forall x {:trigger NodeFits(parent, rep, depth, x)} :: x in parent ==> NodeFits(parent, rep, depth, x)
  }

  lemma ForestRegister(parent: Links, rep: Links, depth: map<string, nat>, x: string)
    requires Forest(parent, rep, depth) && x !in parent
    ensures Forest(parent[x := x], rep[x := x], depth[x := 0])
  {
    var p, r, d := parent[x := x], rep[x := x], depth[x := 0];
    forall y | y in p ensures NodeFits(p, r, d, y) {
      if y != x { assert NodeFits(parent, rep, depth, y); }
    }
  }

  /** Path compression: linking a node straight to its representative changes no part. */
  lemma ForestCompress(parent: Links, rep: Links, depth: map<string, nat>, x: string)
    requires Forest(parent, rep, depth) && x in parent && parent[x] != x
    ensures Forest(parent[x := rep[x]], rep, depth)
  {
    var next := parent[x := rep[x]];
    assert NodeFits(parent, rep, depth, x);
    assert NodeFits(parent, rep, depth, rep[x]);
    forall y | y in next ensures NodeFits(next, rep, depth, y) {
      assert NodeFits(parent, rep, depth, y);
      assert rep[y] != x;
    }
  }

  function Deeper(depth: map<string, nat>, rep: Links, ra: string, extra: nat): map<string, nat>
    requires rep.Keys == depth.Keys
  {
    map x | x in depth :: if rep[x] == ra then depth[x] + extra else depth[x]
  }

  /** Linking one root below another merges their two parts. */
  lemma ForestAttach(parent: Links, rep: Links, depth: map<string, nat>, ra: string, rb: string)
    returns (r: Links, d: map<string, nat>)
    requires Forest(parent, rep, depth) && ra in rep && rb in rep
    requires rep[ra] == ra && rep[rb] == rb && ra != rb
    ensures Forest(parent[ra := rb], r, d) && r == Merge(rep, ra, rb)
    ensures parent[ra := rb].Keys == parent.Keys
  {
    var p := parent[ra := rb];
    r, d := Merge(rep, ra, rb), Deeper(depth, rep, ra, depth[rb] + 1);
    assert NodeFits(parent, rep, depth, ra);
    assert NodeFits(parent, rep, depth, rb);
    forall x | x in p ensures NodeFits(p, r, d, x) {
      assert NodeFits(parent, rep, depth, x);
      assert NodeFits(parent, rep, depth, parent[x]);
    }
  }

  class UnionFind {
    var parent: Links
    /** The keys of `parent` in insertion order, as a JavaScript Map keeps them. */
    var order: seq<string>
    /** The partition: every node's representative. */
    ghost var rep: Links
    /** Falls along every parent link. */
    ghost var depth: map<string, nat>

    ghost predicate Valid()
      reads this
    {
      Lists(order, parent.Keys) && Forest(parent, rep, depth)
    }

    constructor ()
      ensures Valid() && parent == map[] && rep == map[] && order == []
    {
      parent, order, rep, depth := map[], [], map[], map[];
    }

    /** parent.set(x, x) for a new key. */
    method Register(x: string)
      requires Valid() && x !in rep
      modifies this
      ensures Valid() && rep == old(rep)[x := x] && order == old(order) + [x]
    {
      ForestRegister(parent, rep, depth, x);
      parent := parent[x := x];
      order := order + [x];
      rep := rep[x := x];
      depth := depth[x := 0];
    }

    /** Path compression leaves the partition as it is. */
    method Root(x: string) returns (r: string)
      requires Valid()
      modifies this
      ensures Valid() && x in rep && r == rep[x] && r in rep && rep[r] == r
      ensures x in old(rep) ==> rep == old(rep) && order == old(order) && depth == old(depth)
      ensures x !in old(rep) ==> rep == old(rep)[x := x] && order == old(order) + [x]
      decreases if x in depth then depth[x] + 1 else 0
    {
      if x !in parent {
        Register(x);
        return x;
      }
      assert NodeFits(parent, rep, depth, x);
      assert NodeFits(parent, rep, depth, rep[x]);
      if parent[x] != x {
        var top := Root(parent[x]);
        assert NodeFits(parent, rep, depth, x);
        CompressOne(x, top);
      }
      assert NodeFits(parent, rep, depth, x);
      r := parent[x];
    }

    method CompressOne(x: string, top: string)
      requires Valid() && x in rep && rep[x] == top
      modifies this`parent
      ensures Valid() && parent == old(parent)[x := top]
    {
      assert NodeFits(parent, rep, depth, x);
      if parent[x] != x { ForestCompress(parent, rep, depth, x); } else { assert parent[x := top] == parent; }
      parent := parent[x := top];
    }

    /** parent.set(ra, rb) for two different roots. */
    method Attach(ra: string, rb: string)
      requires Valid() && ra in rep && rb in rep
      requires rep[ra] == ra && rep[rb] == rb && ra != rb
      modifies this
      ensures Valid() && order == old(order) && rep == old(Merge(rep, ra, rb))
    {
      ghost var r, d := ForestAttach(parent, rep, depth, ra, rb);
      parent, rep, depth := parent[ra := rb], r, d;
    }

    method Union(a: string, b: string)
      requires Valid() && a in rep && b in rep
      modifies this
      ensures Valid() && order == old(order) && rep == old(Merge(rep, rep[a], rep[b]))
    {
      var ra := Root(a);
      var rb := Root(b);
      if ra != rb {
        Attach(ra, rb);
      } else {
        MergeSame(rep, ra);
      }
    }

    /** Every representative's cluster, complete and in key order. */
    method Clusters() returns (groups: map<string, seq<string>>)
      requires Valid()
      modifies this
      ensures Valid() && rep == old(rep) && order == old(order)
      ensures forall x :: x in rep ==> rep[x] in groups
      ensures forall r :: r in groups ==> groups[r] == Members(order, rep, r) && groups[r] != []
    {
      groups := map[];
      for i := 0 to |order|
        invariant Valid() && rep == old(rep) && order == old(order)
        invariant Grouped(groups, order[..i], rep)
      {
        var node := order[i];
        assert node in order;
        var r := Root(node);
        GroupedStep(groups, order, rep, i);
        groups := groups[r := (if r in groups then groups[r] else []) + [node]];
      }
      assert order[..|order|] == order;
      forall x | x in rep ensures rep[x] in groups {
        assert x in order;
      }
    }
  }

  /** The groups so far are the clusters of the nodes so far. */
  ghost predicate Grouped(groups: map<string, seq<string>>, nodes: seq<string>, rep: Links) {
    (forall x :: x in nodes && x in rep ==> rep[x] in groups)
    && (forall r :: r in groups ==> groups[r] == Members(nodes, rep, r) && groups[r] != [])
    && (forall r :: r !in groups ==> Members(nodes, rep, r) == [])
  }

  lemma GroupedStep(groups: map<string, seq<string>>, order: seq<string>, rep: Links, i: nat)
    requires i < |order| && order[i] in rep && Grouped(groups, order[..i], rep)
    ensures var r := rep[order[i]];
      Grouped(groups[r := (if r in groups then groups[r] else []) + [order[i]]], order[..i + 1], rep)
  {
    var before, after := order[..i], order[..i + 1];
    assert after[..i] == before && after[i] == order[i];
    assert forall x :: x in after <==> x in before || x == order[i] by { assert after == before + [order[i]]; }
  }

  lemma {:induction false} MembersAre(order: seq<string>, rep: Links, r: string)
    requires Distinct(order)
    ensures forall x :: x in Members(order, rep, r) <==> x in order && x in rep && rep[x] == r
    ensures Distinct(Members(order, rep, r))
  {
    if order != [] {
      var n := |order| - 1;
      MembersAre(order[..n], rep, r);
      assert order == order[..n] + [order[n]];
    }
  }

  // ---------------------------------------------------------------------
  // From annotations to clusters
  // ---------------------------------------------------------------------

  datatype Tool = Tool(server: string, name: string, args: seq<seq<string>>)

  function Key(tool: Tool): string {
    tool.server + "__" + tool.name
  }

  predicate HasRole(tool: Tool, role: string) {
    role != "none" && exists i :: 0 <= i < |tool.args| && role in tool.args[i]
  }

  /** What a key stands for is its last annotation. */
  predicate Plays(tools: seq<Tool>, key: string, role: string) {
    tools != [] &&
    var n := |tools| - 1;
    if Key(tools[n]) == key then HasRole(tools[n], role) else Plays(tools[..n], key, role)
  }

  type Roles = map<string, set<string>>

  ghost predicate RolesAre(roles: Roles, tools: seq<Tool>) {
    && (forall t :: t in tools ==> Key(t) in roles)
    && (forall k :: k in roles ==> exists t :: t in tools && Key(t) == k)
    && (forall k, role :: k in roles ==> (role in roles[k] <==> Plays(tools, k, role)))
  }

  method RolesOf(tool: Tool) returns (roles: set<string>)
    ensures forall role :: role in roles <==> HasRole(tool, role)
  {
    roles := {};
    for i := 0 to |tool.args|
      invariant forall role :: role in roles <==> role != "none" && exists k :: 0 <= k < i && role in tool.args[k]
    {
      ghost var before := roles;
      for j := 0 to |tool.args[i]|
        invariant forall role :: role in roles <==> role in before || (role != "none" && role in tool.args[i][..j])
      {
        if tool.args[i][j] != "none" { roles := roles + {tool.args[i][j]}; }
      }
    }
  }

  /** The key-to-roles map and its keys in insertion order. */
  method CollectToolRoles(tools: seq<Tool>) returns (roles: Roles, keys: seq<string>)
    ensures RolesAre(roles, tools) && Lists(keys, roles.Keys)
  {
    roles, keys := map[], [];
    for i := 0 to |tools|
      invariant RolesAre(roles, tools[..i]) && Lists(keys, roles.Keys)
    {
      var key := Key(tools[i]);
      var own := RolesOf(tools[i]);
      CollectStep(roles, tools, i, own);
      if key !in roles { keys := keys + [key]; }
      roles := roles[key := own];
    }
    assert tools[..|tools|] == tools;
  }

  lemma CollectStep(roles: Roles, tools: seq<Tool>, i: nat, own: set<string>)
    requires i < |tools| && RolesAre(roles, tools[..i])
    requires forall role :: role in own <==> HasRole(tools[i], role)
    ensures RolesAre(roles[Key(tools[i]) := own], tools[..i + 1])
  {
    var before, after := tools[..i], tools[..i + 1];
    assert after[..i] == before && after == before + [tools[i]];
    var next := roles[Key(tools[i]) := own];
    forall k | k in next ensures exists t :: t in after && Key(t) == k {
      if k == Key(tools[i]) { assert tools[i] in after; }
      else { var t :| t in before && Key(t) == k; assert t in after; }
    }
  }

  /** The keys that play `role`, in key order. */
  function Holders(keys: seq<string>, roles: Roles, role: string): seq<string> {
    if keys == [] then []
    else
      var n := |keys| - 1;
      Holders(keys[..n], roles, role) + (if keys[n] in roles && role in roles[keys[n]] then [keys[n]] else [])
  }

  lemma {:induction false} HoldersAre(keys: seq<string>, roles: Roles, role: string)
    ensures forall x :: x in Holders(keys, roles, role) <==> x in keys && x in roles && role in roles[x]
  {
    if keys != [] {
      var n := |keys| - 1;
      HoldersAre(keys[..n], roles, role);
      assert keys == keys[..n] + [keys[n]];
    }
  }

  function Entry(index: map<string, seq<string>>, role: string): seq<string> {
    if role in index then index[role] else []
  }

  ghost predicate Indexes(index: map<string, seq<string>>, keys: seq<string>, roles: Roles) {
    forall role {:trigger Holders(keys, roles, role)} :: Entry(index, role) == Holders(keys, roles, role)
  }

  /** The role-to-tools index. */
  method IndexRoles(roles: Roles, keys: seq<string>) returns (index: map<string, seq<string>>)
    requires forall k :: k in keys ==> k in roles
    ensures Indexes(index, keys, roles)
  {
    index := map[];
    for i := 0 to |keys|
      invariant Indexes(index, keys[..i], roles)
    {
      var todo := roles[keys[i]];
      ghost var before := index;
      while todo != {}
        invariant todo <= roles[keys[i]]
        invariant forall role {:trigger Entry(index, role)} ::
            Entry(index, role) == Entry(before, role) + (if role in roles[keys[i]] - todo then [keys[i]] else [])
      {
        var role :| role in todo;
        ghost var last := index;
        index := index[role := Entry(index, role) + [keys[i]]];
        assert forall r :: Entry(index, r) == if r == role then Entry(last, r) + [keys[i]] else Entry(last, r);
        todo := todo - {role};
      }
      assert keys[..i + 1][..i] == keys[..i];
    }
    assert keys[..|keys|] == keys;
  }

  /** An edge between any two tools that share a role; "none" is never among the roles. */
  ghost function Sharing(roles: Roles): set<Edge> {
    set a, b | a in roles && b in roles && roles[a] * roles[b] != {} :: (a, b)
  }

  ghost predicate SpansTo(edges: set<Edge>, tools: seq<string>, n: nat) {
    forall i :: 0 < i < n && i < |tools| ==> (tools[0], tools[i]) in edges
  }

  ghost predicate Spans(edges: set<Edge>, tools: seq<string>) {
    SpansTo(edges, tools, |tools|)
  }

  /** `more` adds edges between `tools` alone. */
  ghost predicate AddsWithin(edges: set<Edge>, more: set<Edge>, tools: seq<string>) {
    edges <= more && forall e :: e in more && e !in edges ==> e.0 in tools && e.1 in tools
  }

  lemma StarGrows(edges: set<Edge>, last: set<Edge>, more: set<Edge>, tools: seq<string>, i: nat)
    requires 0 < i < |tools| && more == last + {(tools[0], tools[i])}
    requires SpansTo(last, tools, i) && AddsWithin(edges, last, tools)
    ensures SpansTo(more, tools, i + 1) && AddsWithin(edges, more, tools)
  {
  }

  method UnionEdge(uf: UnionFind, a: string, b: string, ghost edges: set<Edge>) returns (ghost more: set<Edge>)
    requires uf.Valid() && Represents(uf.rep, edges) && a in uf.rep && b in uf.rep
    modifies uf
    ensures uf.Valid() && uf.order == old(uf.order) && uf.rep.Keys == old(uf.rep.Keys)
    ensures Represents(uf.rep, more) && more == edges + {(a, b)}
  {
    ghost var next, grown := MergeAddsEdge(uf.rep, edges, a, b);
    uf.Union(a, b);
    more := grown;
  }

  /** union(tools[0], tools[i]) for each i from 1. */
  method UnionAll(uf: UnionFind, tools: seq<string>, ghost edges: set<Edge>) returns (ghost more: set<Edge>)
    requires uf.Valid() && Represents(uf.rep, edges)
    requires forall t :: t in tools ==> t in uf.rep
    modifies uf
    ensures uf.Valid() && uf.order == old(uf.order) && uf.rep.Keys == old(uf.rep.Keys)
    ensures Represents(uf.rep, more)
    ensures Spans(more, tools) && AddsWithin(edges, more, tools)
  {
    more := edges;
    var i := 1;
    while i < |tools|
      invariant 1 <= i && uf.Valid() && uf.order == old(uf.order) && uf.rep.Keys == old(uf.rep.Keys)
      invariant Represents(uf.rep, more) && SpansTo(more, tools, i) && AddsWithin(edges, more, tools)
    {
      ghost var last := more;
      more := UnionEdge(uf, tools[0], tools[i], more);
      StarGrows(edges, last, more, tools, i);
      i := i + 1;
    }
  }

  /** One part for each connected component of tools that share a role. */
  ghost predicate IsClustering(groups: map<string, seq<string>>, roles: Roles) {
    && (forall k :: k in roles ==> exists r :: r in groups && k in groups[r])
    && (forall r :: r in groups ==> groups[r] != [] && Distinct(groups[r]))
    && (forall r, k :: r in groups && k in groups[r] ==> k in roles)
    && (forall r, q, a, b :: r in groups && q in groups && a in groups[r] && b in groups[q]
          ==> (r == q <==> Linked(Sharing(roles), a, b)))
  }

  lemma IsolatedAtFirst(rep: Links)
    requires forall x :: x in rep ==> rep[x] == x
    ensures Represents(rep, {})
  {
    forall a, b | a in rep && b in rep ensures rep[a] == rep[b] <==> Linked({}, a, b) {
      if a == b { LinkedSelf({}, a); }
      if Linked({}, a, b) { LinkedHasSameRep(rep, {}, a, b); }
    }
  }

  /** Joining each role's tools in a star joins every two of them. */
  lemma StarsSuffice(rep: Links, edges: set<Edge>, roles: Roles, keys: seq<string>)
    requires Represents(rep, edges) && rep.Keys == roles.Keys && Lists(keys, roles.Keys)
    requires edges <= Sharing(roles)
    requires forall role :: Spans(edges, Holders(keys, roles, role))
    ensures Represents(rep, Sharing(roles))
  {
    var all := Sharing(roles);
    forall e | e in edges ensures Linked(all, e.0, e.1) { LinkedEdge(all, e.0, e.1); }
    forall e | e in all ensures Linked(edges, e.0, e.1) {
      var role :| role in roles[e.0] * roles[e.1];
      HoldersAre(keys, roles, role);
      StarLinks(edges, Holders(keys, roles, role), e.0);
      StarLinks(edges, Holders(keys, roles, role), e.1);
      LinkedSymmetric(edges, Holders(keys, roles, role)[0], e.0);
      LinkedTransitive(edges, e.0, Holders(keys, roles, role)[0], e.1);
    }
    forall a, b | a in rep && b in rep ensures rep[a] == rep[b] <==> Linked(all, a, b) {
      if Linked(all, a, b) { LinkedGrows(all, edges, a, b); }
      if Linked(edges, a, b) { LinkedGrows(edges, all, a, b); }
    }
  }

  lemma StarLinks(edges: set<Edge>, tools: seq<string>, x: string)
    requires Spans(edges, tools) && x in tools
    ensures Linked(edges, tools[0], x)
  {
    var i :| 0 <= i < |tools| && tools[i] == x;
    if i == 0 { LinkedSelf(edges, x); } else { LinkedEdge(edges, tools[0], x); }
  }

  /** Registers every tool, isolated. */
  method RegisterAll(uf: UnionFind, keys: seq<string>)
    requires uf.Valid() && uf.rep == map[] && uf.order == [] && Distinct(keys)
    modifies uf
    ensures uf.Valid() && uf.order == keys && Represents(uf.rep, {})
    ensures forall x :: x in uf.rep <==> x in keys
  {
    for i := 0 to |keys|
      invariant uf.Valid() && uf.order == keys[..i]
      invariant forall x :: x in uf.rep <==> x in keys[..i]
      invariant forall x :: x in uf.rep ==> uf.rep[x] == x
    {
      uf.Register(keys[i]);
      assert keys[..i + 1] == keys[..i] + [keys[i]];
    }
    assert keys[..|keys|] == keys;
    IsolatedAtFirst(uf.rep);
  }

  lemma WithinSharing(roles: Roles, keys: seq<string>, role: string, edges: set<Edge>, more: set<Edge>)
    requires edges <= Sharing(roles) && AddsWithin(edges, more, Holders(keys, roles, role))
    ensures more <= Sharing(roles)
  {
    HoldersAre(keys, roles, role);
    forall e | e in more && e !in edges ensures e in Sharing(roles) {
      assert role in roles[e.0] * roles[e.1];
    }
  }

  /** The union loop over the role index, in any order of the roles. */
  method UnionByRole(uf: UnionFind, ghost roles: Roles, ghost keys: seq<string>, index: map<string, seq<string>>)
    requires uf.Valid() && Represents(uf.rep, {}) && uf.rep.Keys == roles.Keys
    requires Lists(keys, roles.Keys) && Indexes(index, keys, roles)
    modifies uf
    ensures uf.Valid() && uf.order == old(uf.order) && uf.rep.Keys == roles.Keys
    ensures Represents(uf.rep, Sharing(roles))
  {
    ghost var edges: set<Edge> := {};
    var todo := index.Keys;
    while todo != {}
      invariant uf.Valid() && uf.order == old(uf.order) && uf.rep.Keys == roles.Keys
      invariant Represents(uf.rep, edges) && edges <= Sharing(roles) && todo <= index.Keys
      invariant forall role :: role in index && role !in todo ==> Spans(edges, index[role])
    {
      var role :| role in todo;
      assert index[role] == Holders(keys, roles, role);
      HoldersAre(keys, roles, role);
      ghost var more := UnionAll(uf, index[role], edges);
      WithinSharing(roles, keys, role, edges, more);
      edges := more;
      todo := todo - {role};
    }
    StarsSuffice(uf.rep, edges, roles, keys);
  }

  /** The whole script: clusters are exactly the chains of shared roles. */
  method ClusterTools(tools: seq<Tool>) returns (groups: map<string, seq<string>>, roles: Roles)
    ensures RolesAre(roles, tools)
    ensures IsClustering(groups, roles)
  {
    var keys;
    roles, keys := CollectToolRoles(tools);
    var index := IndexRoles(roles, keys);
    var uf := new UnionFind();
    RegisterAll(uf, keys);
    UnionByRole(uf, roles, keys, index);
    groups := uf.Clusters();
    GroupsAreClusters(groups, keys, uf.rep, roles);
  }

  lemma GroupsAreClusters(groups: map<string, seq<string>>, keys: seq<string>, rep: Links, roles: Roles)
    requires Lists(keys, roles.Keys) && rep.Keys == roles.Keys && Represents(rep, Sharing(roles))
    requires forall x :: x in rep ==> rep[x] in groups
    requires forall r :: r in groups ==> groups[r] == Members(keys, rep, r) && groups[r] != []
    ensures IsClustering(groups, roles)
  {
    forall r | r in groups
      ensures Distinct(groups[r])
      ensures forall x :: x in groups[r] <==> x in rep && rep[x] == r
    {
      MembersAre(keys, rep, r);
    }
    forall k | k in roles ensures exists r :: r in groups && k in groups[r] {
      assert rep[k] in groups && k in groups[rep[k]];
    }
    forall r, q, a, b | r in groups && q in groups && a in groups[r] && b in groups[q]
      ensures r == q <==> Linked(Sharing(roles), a, b)
    {
      assert rep[a] == rep[b] <==> Linked(Sharing(roles), a, b);
    }
  }

  /** Clusters are independent policy domains: no role spans two of them. */
  lemma ClustersShareNoRole(groups: map<string, seq<string>>, roles: Roles, r: string, q: string, a: string, b: string)
    requires IsClustering(groups, roles)
    requires r in groups && q in groups && a in groups[r] && b in groups[q] && r != q
    ensures roles[a] * roles[b] == {}
  {
    if roles[a] * roles[b] != {} { LinkedEdge(Sharing(roles), a, b); }
  }

  /** A tool whose roles are all "none" is a cluster of its own. */
  lemma RolelessToolsStayAlone(groups: map<string, seq<string>>, roles: Roles, r: string, a: string)
    requires IsClustering(groups, roles) && r in groups && a in groups[r] && roles[a] == {}
    ensures groups[r] == [a]
  {
    forall b | b in groups[r] ensures b == a {
      if b != a { LinkedPlaysRole(roles, a, b); }
    }
    OneKind(groups[r], a);
  }

  lemma OneKind(xs: seq<string>, a: string)
    requires Distinct(xs) && xs != [] && forall x :: x in xs ==> x == a
    ensures xs == [a]
  {
    var first, last := xs[0], xs[|xs| - 1];
    assert first in xs && last in xs;
  }

  lemma LinkedPlaysRole(roles: Roles, a: string, b: string)
    requires Linked(Sharing(roles), a, b) && a != b
    ensures a in roles && roles[a] != {}
  {
    var path :| IsPath(Sharing(roles), path) && path[0] == a && path[|path| - 1] == b;
    assert Joined(Sharing(roles), path[0], path[1]);
  }
}
