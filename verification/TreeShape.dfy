/** The shape of the node tree on values: child sequences, paths from the root, link fields as
    a map, what path lookup finds, and what each change of shape keeps. */
module TreeShape {
  import opened Common
  import opened Names

  datatype Rc = Ok | NoEntry | NotDir | IsDir | NotEmpty | Invalid | Exists | NoSpace | Unconvertible | Bug

  /** One component of a path between slashes; `allowed` is the verdict of is_allowed. */
  datatype Comp =
    | Dot
    | Plain(name: Name, allowed: bool)
    | Malformed(allowed: bool)

  class TreeNode {
    var parent: TreeNode?
    var child: TreeNode?
    var next: TreeNode?
    var prev: TreeNode?
    var name: Name
    const isDir: bool

    /** allocate_node: every link is zero. */
    constructor (name: Name, isDir: bool)
      ensures this.name == name && this.isDir == isDir
      ensures parent == child == next == prev == null
    {
      this.name, this.isDir := name, isDir;
      parent, child, next, prev := null, null, null, null;
    }
  }

  type Kids = map<TreeNode, seq<TreeNode>>
  type Paths = map<TreeNode, seq<TreeNode>>
  type Labels = map<TreeNode, Name>

  // ---- The shape of a tree, on values.

  function At(s: seq<TreeNode>, i: int): (n: TreeNode?)
    ensures n == null <==> !(0 <= i < |s|)
  {
    if 0 <= i < |s| then s[i] else null
  }

  ghost predicate Child(k: Kids, older d: TreeNode, older c: TreeNode) {
    d in k && c in k[d]
  }

  /** c is below d, and its path from the root is d's path and then c. */
  ghost predicate Below(k: Kids, p: Paths, root: TreeNode, d: TreeNode, c: TreeNode)
    requires p.Keys == k.Keys && d in k
  {
    c in k && c != root && p[c] == p[d] + [c]
  }

  /** x is the root, or a child of the last node but one of its path. */
  ghost predicate Hangs(k: Kids, p: Paths, root: TreeNode, x: TreeNode)
    requires p.Keys == k.Keys && x in k
  {
    x == root || (|p[x]| >= 2 && Child(k, p[x][|p[x]| - 2], x))
  }

  /** Every node is reached from the root by exactly the path p records for it. */
  ghost predicate Rooted(k: Kids, p: Paths, root: TreeNode) {
    && p.Keys == k.Keys
    && root in k && p[root] == [root]
    && (forall d, c :: Child(k, d, c) ==> Below(k, p, root, d, c))
    && (forall x :: x in k ==> Hangs(k, p, root, x))
  }

  /** Each node of a path has the path up to it, and is the parent of the one after it. */
  lemma {:induction false} PathsAreChains(k: Kids, p: Paths, root: TreeNode, x: TreeNode, i: nat)
    requires Rooted(k, p, root) && x in k && i < |p[x]|
    ensures |p[x]| > 0 && p[x][0] == root && p[x][|p[x]| - 1] == x
    ensures p[x][i] in k && p[p[x][i]] == p[x][..i + 1]
    ensures i + 1 < |p[x]| ==> p[x][i + 1] in k[p[x][i]]
    decreases |p[x]|
  {
    assert Hangs(k, p, root, x);
    if x != root {
      var n := |p[x]|;
      var d := p[x][n - 2];
      assert Child(k, d, x);
      assert Below(k, p, root, d, x);
      if i + 1 < n {
        PathsAreChains(k, p, root, d, i);
        assert p[d][..i + 1] == p[x][..i + 1];
      } else {
        PathsAreChains(k, p, root, d, 0);
        assert p[x][..i + 1] == p[x];
      }
    }
  }

  /** No node is its own ancestor, and a path meets no node twice. */
  lemma NoCycle(k: Kids, p: Paths, root: TreeNode, x: TreeNode, i: nat, j: nat)
    requires Rooted(k, p, root) && x in k && i < j < |p[x]|
    ensures p[x][i] != p[x][j]
  {
    PathsAreChains(k, p, root, x, i);
    PathsAreChains(k, p, root, x, j);
    assert |p[x][..i + 1]| != |p[x][..j + 1]|;
  }

  /** A node has one parent. */
  lemma OneParent(k: Kids, p: Paths, root: TreeNode, d: TreeNode, e: TreeNode, c: TreeNode)
    requires Rooted(k, p, root) && Child(k, d, c) && Child(k, e, c)
    ensures d == e
  {
    assert Below(k, p, root, d, c) && Below(k, p, root, e, c);
    assert p[d] == p[c][..|p[c]| - 1] == p[e];
    assert d in k && e in k;
    assert Hangs(k, p, root, d) && Hangs(k, p, root, e);
    LastOfPath(k, p, root, d);
    LastOfPath(k, p, root, e);
  }

  lemma LastOfPath(k: Kids, p: Paths, root: TreeNode, x: TreeNode)
    requires Rooted(k, p, root) && x in k
    ensures |p[x]| > 0 && p[x][|p[x]| - 1] == x
  {
    assert Hangs(k, p, root, x);
    PathsAreChains(k, p, root, x, 0);
  }

  /** A node with descendants has children. */
  lemma AncestorHasChildren(k: Kids, p: Paths, root: TreeNode, x: TreeNode, n: TreeNode)
    requires Rooted(k, p, root) && x in k && n in p[x] && n != x
    ensures n in k && k[n] != []
  {
    var i :| 0 <= i < |p[x]| && p[x][i] == n;
    PathsAreChains(k, p, root, x, i);
  }

  // ---- The three changes of shape.

  function Moved(k: Kids, from: TreeNode, i: nat, to: TreeNode): (moved: Kids)
    requires from in k && to in k && i < |k[from]|
    ensures moved.Keys == k.Keys
  {
    var off := k[from := Without(k[from], i)];
    off[to := [k[from][i]] + off[to]]
  }

  function Removed(k: Kids, from: TreeNode, i: nat): Kids
    requires from in k && i < |k[from]|
  {
    k[from := Without(k[from], i)] - {k[from][i]}
  }

  function Added(k: Kids, to: TreeNode, n: TreeNode): Kids
    requires to in k
  {
    k[n := []][to := [n] + k[to]]
  }

  ghost function MovedPath(p: Paths, n: TreeNode, to: TreeNode, x: TreeNode): seq<TreeNode>
    requires n in p && to in p && x in p
  {
    if n in p[x] && 0 < |p[n]| <= |p[x]| then p[to] + p[x][|p[n]| - 1..] else p[x]
  }

  ghost function MovedPaths(p: Paths, n: TreeNode, to: TreeNode): Paths
    requires n in p && to in p
  {
    map x | x in p :: MovedPath(p, n, to, x)
  }

  lemma WithoutHas(s: seq<TreeNode>, i: nat, c: TreeNode)
    requires i < |s| && NoDup(s)
    ensures c in Without(s, i) <==> c in s && c != s[i]
    ensures NoDup(Without(s, i))
  {
    if c in s && c != s[i] {
      var j :| 0 <= j < |s| && s[j] == c;
      assert Without(s, i)[if j < i then j else j - 1] == c;
    }
  }

  /** The i-th child of `from` may go under `to`, which is not below it. */
  ghost predicate Movable(k: Kids, p: Paths, root: TreeNode, from: TreeNode, i: nat, to: TreeNode) {
    && Rooted(k, p, root)
    && from in k && i < |k[from]| && NoDup(k[from])
    && to in k
    && k[from][i] in k && k[from][i] !in p[to]
  }

  lemma ChildIsBelow(k: Kids, p: Paths, root: TreeNode, d: TreeNode, c: TreeNode)
    requires Rooted(k, p, root) && Child(k, d, c)
    ensures d in k && c in k && c != root && p[c] == p[d] + [c]
  {
    assert Below(k, p, root, d, c);
  }

  /** Children after a move: the moved node under its new directory, all others as before. */
  lemma MovedChild(k: Kids, p: Paths, root: TreeNode, from: TreeNode, i: nat, to: TreeNode, d: TreeNode, c: TreeNode)
    requires Movable(k, p, root, from, i, to)
    ensures Child(Moved(k, from, i, to), d, c)
        <==> if c == k[from][i] then d == to else Child(k, d, c)
  {
    hide Rooted;
    WithoutHas(k[from], i, c);
    if c == k[from][i] && Child(k, d, c) {
      OneParent(k, p, root, d, from, c);
    }
  }

  /** The nodes below n are those whose path goes through n. */
  lemma PathThrough(k: Kids, p: Paths, root: TreeNode, n: TreeNode, x: TreeNode)
    requires Rooted(k, p, root) && n in k && x in k && n in p[x]
    ensures 0 < |p[n]| <= |p[x]| && p[x][..|p[n]|] == p[n] && p[n][|p[n]| - 1] == n
  {
    var j :| 0 <= j < |p[x]| && p[x][j] == n;
    PathsAreChains(k, p, root, x, j);
  }

  /** A child other than the moved node keeps its place at the end of its parent's path. */
  lemma MovedStep(k: Kids, p: Paths, root: TreeNode, from: TreeNode, i: nat, to: TreeNode, d: TreeNode, c: TreeNode)
    requires Movable(k, p, root, from, i, to)
    requires if c == k[from][i] then d == to else Child(k, d, c)
    ensures d in k && c in k && c != root
    ensures p.Keys == k.Keys
    ensures MovedPath(p, k[from][i], to, c) == MovedPath(p, k[from][i], to, d) + [c]
  {
    hide Rooted, NoDup;
    RootKnown(k, p, root);
    var n := k[from][i];
    ChildIsBelow(k, p, root, from, n);
    if c == n {
      assert p[n][|p[n]| - 1..] == [n];
    } else {
      ChildIsBelow(k, p, root, d, c);
      SuffixOfExtended(p[c], p[d], c, n, p[to], |p[n]| - 1);
      if n in p[d] {
        PathThrough(k, p, root, n, d);
      }
    }
  }

  lemma LastButOne(q: seq<TreeNode>, r: seq<TreeNode>, x: TreeNode)
    requires q == r + [x] && |r| > 0
    ensures |q| >= 2 && q[|q| - 2] == r[|r| - 1]
  {
  }

  /** Extending a path extends what a move makes of it. */
  lemma SuffixOfExtended(q: seq<TreeNode>, r: seq<TreeNode>, x: TreeNode, n: TreeNode, head: seq<TreeNode>, j: nat)
    requires q == r + [x] && x != n
    ensures n in q <==> n in r
    ensures j <= |r| ==> head + q[j..] == (head + r[j..]) + [x]
  {
    if j <= |r| {
      assert q[j..] == r[j..] + [x];
    }
  }

  lemma HangsBelow(k: Kids, p: Paths, root: TreeNode, x: TreeNode)
    requires Rooted(k, p, root) && x in k && x != root
    ensures p.Keys == k.Keys
    ensures |p[x]| >= 2 && Child(k, p[x][|p[x]| - 2], x)
  {
    assert Hangs(k, p, root, x);
  }

  lemma MovedHangs(k: Kids, p: Paths, root: TreeNode, from: TreeNode, i: nat, to: TreeNode, x: TreeNode)
    requires Movable(k, p, root, from, i, to) && x in k && x != root
    ensures p.Keys == k.Keys
    ensures var q := MovedPath(p, k[from][i], to, x); |q| >= 2 && Child(Moved(k, from, i, to), q[|q| - 2], x)
  {
    hide Rooted, Moved, MovedPath, Child, NoDup;
    RootKnown(k, p, root);
    var n := k[from][i];
    HangsBelow(k, p, root, x);
    var d := if x == n then to else p[x][|p[x]| - 2];
    MovedChild(k, p, root, from, i, to, d, x);
    MovedStep(k, p, root, from, i, to, d, x);
    LastOfMoved(k, p, root, from, i, to, d);
    var q, r := MovedPath(p, n, to, x), MovedPath(p, n, to, d);
    LastButOne(q, r, x);
  }

  lemma LastOfMoved(k: Kids, p: Paths, root: TreeNode, from: TreeNode, i: nat, to: TreeNode, d: TreeNode)
    requires Movable(k, p, root, from, i, to) && d in k
    ensures p.Keys == k.Keys
    ensures var q := MovedPath(p, k[from][i], to, d); |q| > 0 && q[|q| - 1] == d
  {
    hide Rooted, NoDup;
    RootKnown(k, p, root);
    var n := k[from][i];
    LastOfPath(k, p, root, d);
    if n in p[d] {
      PathThrough(k, p, root, n, d);
    }
  }

  lemma MovedRoot(k: Kids, p: Paths, root: TreeNode, from: TreeNode, i: nat, to: TreeNode)
    requires Movable(k, p, root, from, i, to)
    ensures p.Keys == k.Keys && root in k
    ensures MovedPath(p, k[from][i], to, root) == [root]
  {
    ChildIsBelow(k, p, root, from, k[from][i]);
  }

  /** A node that goes under a directory not below it takes its subtree along. */
  lemma MoveKeepsRooted(k: Kids, p: Paths, root: TreeNode, from: TreeNode, i: nat, to: TreeNode)
    requires Movable(k, p, root, from, i, to)
    ensures p.Keys == k.Keys
    ensures Rooted(Moved(k, from, i, to), MovedPaths(p, k[from][i], to), root)
  {
    hide Rooted, NoDup, Moved, MovedPath;
    MovedRoot(k, p, root, from, i, to);
    var n := k[from][i];
    var k', p' := Moved(k, from, i, to), MovedPaths(p, n, to);
    assert p'.Keys == p.Keys && p'[root] == [root];
    forall d, c | Child(k', d, c)
      ensures Below(k', p', root, d, c)
    {
      MovedChild(k, p, root, from, i, to, d, c);
      MovedStep(k, p, root, from, i, to, d, c);
    }
    forall x | x in k'
      ensures Hangs(k', p', root, x)
    {
      if x != root {
        MovedHangs(k, p, root, from, i, to, x);
      }
    }
    RootedFrom(k', p', root);
  }

  /** A new state of the tree has the two properties node by node. */
  lemma RootedFrom(k: Kids, p: Paths, root: TreeNode)
    requires p.Keys == k.Keys && root in k && p[root] == [root]
    requires forall d, c :: Child(k, d, c) ==> Below(k, p, root, d, c)
    requires forall x :: x in k ==> Hangs(k, p, root, x)
    ensures Rooted(k, p, root)
  {
  }

  lemma RemovedBelow(k: Kids, p: Paths, root: TreeNode, from: TreeNode, i: nat, d: TreeNode, c: TreeNode)
    requires Rooted(k, p, root) && from in k && i < |k[from]| && NoDup(k[from])
    requires k[from][i] in k && k[k[from][i]] == [] && Child(Removed(k, from, i), d, c)
    ensures d in k && c in k && d != k[from][i] && c != k[from][i] && c != root
    ensures p.Keys == k.Keys && p[c] == p[d] + [c]
  {
    hide Rooted, NoDup;
    RootKnown(k, p, root);
    WithoutHas(k[from], i, c);
    ChildIsBelow(k, p, root, d, c);
    if c == k[from][i] {
      OneParent(k, p, root, d, from, c);
    }
  }

  lemma RemovedHangs(k: Kids, p: Paths, root: TreeNode, from: TreeNode, i: nat, x: TreeNode)
    requires Rooted(k, p, root) && from in k && i < |k[from]| && NoDup(k[from])
    requires k[from][i] in k && k[k[from][i]] == [] && x in k && x != k[from][i] && x != root
    ensures p.Keys == k.Keys && |p[x]| >= 2 && Child(Removed(k, from, i), p[x][|p[x]| - 2], x)
  {
    hide Rooted, NoDup;
    HangsBelow(k, p, root, x);
    WithoutHas(k[from], i, x);
  }

  /** Dropping a childless node leaves every other node where it was. */
  lemma RemoveKeepsRooted(k: Kids, p: Paths, root: TreeNode, from: TreeNode, i: nat)
    requires Rooted(k, p, root) && from in k && i < |k[from]| && NoDup(k[from])
    requires k[from][i] in k && k[k[from][i]] == []
    ensures Rooted(Removed(k, from, i), p - {k[from][i]}, root)
  {
    hide Rooted, NoDup, Removed;
    RootKnown(k, p, root);
    RemovedKeys(k, from, i);
    var n := k[from][i];
    ChildIsBelow(k, p, root, from, n);
    var k', p' := Removed(k, from, i), p - {n};
    forall d, c | Child(k', d, c)
      ensures Below(k', p', root, d, c)
    {
      RemovedBelow(k, p, root, from, i, d, c);
    }
    forall x | x in k'
      ensures Hangs(k', p', root, x)
    {
      if x != root {
        RemovedHangs(k, p, root, from, i, x);
      }
    }
    RootedFrom(k', p', root);
  }

  lemma RemovedKeys(k: Kids, from: TreeNode, i: nat)
    requires from in k && i < |k[from]|
    ensures Removed(k, from, i).Keys == k.Keys - {k[from][i]}
  {
  }

  /** A new childless node under a directory leaves every other node where it was. */
  lemma AddKeepsRooted(k: Kids, p: Paths, root: TreeNode, to: TreeNode, n: TreeNode)
    requires Rooted(k, p, root) && to in k && n !in k
    ensures Rooted(Added(k, to, n), p[n := p[to] + [n]], root)
  {
    var k', p' := Added(k, to, n), p[n := p[to] + [n]];
    forall d, c | Child(k', d, c)
      ensures Below(k', p', root, d, c)
    {
      if c != n || d != to {
        assert Child(k, d, c);
        assert Below(k, p, root, d, c);
      }
    }
    LastOfPath(k, p, root, to);
    forall x | x in k'
      ensures Hangs(k', p', root, x)
    {
      if x == n {
        assert Child(k', to, n);
      } else {
        assert Hangs(k, p, root, x);
        if x != root {
          assert Child(k', p[x][|p[x]| - 2], x);
        }
      }
    }
  }

  // ---- Walking paths, on values.

  datatype Found = Got(node: TreeNode) | Lost(rc: Rc)

  /** What a path names for an operation that creates or replaces its last component. */
  datatype Target = Spot(dir: TreeNode, existing: TreeNode?, name: Name) | Nowhere(rc: Rc)

  ghost predicate Closed(k: Kids, names: Labels) {
    && names.Keys == k.Keys
    && (forall d, c :: Child(k, d, c) ==> c in k)
  }

  ghost predicate Labelled(names: Labels, s: seq<TreeNode>) {
    forall c :: c in s ==> c in names
  }

  /** lookup_name: the first child whose name compares equal. */
  ghost function First(t: UpcaseTable, names: Labels, s: seq<TreeNode>, name: Name): TreeNode?
    requires Labelled(names, s)
  {
    if s == [] then null
    else if Comparison(t, name, names[s[0]]) == 0 then s[0]
    else First(t, names, s[1..], name)
  }

  /** No two of the nodes have names that differ in case only. */
  ghost predicate Apart(t: UpcaseTable, names: Labels, s: seq<TreeNode>)
    requires Labelled(names, s)
  {
    forall i, j :: 0 <= i < j < |s| ==> !SameName(t, names[s[i]], names[s[j]])
  }

  lemma {:induction false} FirstIs(t: UpcaseTable, names: Labels, s: seq<TreeNode>, name: Name)
    requires Labelled(names, s) && Proper(t)
    ensures var c := First(t, names, s, name);
      if c == null then forall e :: e in s ==> !SameName(t, name, names[e])
      else c in s && SameName(t, name, names[c])
  {
    if s != [] {
      ComparesEqual(t, name, names[s[0]]);
      FirstIs(t, names, s[1..], name);
      assert s == [s[0]] + s[1..];
    }
  }

  /** Among nodes whose names are apart, lookup finds the one with the name. */
  lemma FirstIsUnique(t: UpcaseTable, names: Labels, s: seq<TreeNode>, name: Name, c: TreeNode)
    requires Labelled(names, s) && Proper(t) && Apart(t, names, s)
    requires c in s && SameName(t, name, names[c])
    ensures First(t, names, s, name) == c
  {
    FirstIs(t, names, s, name);
    var e := First(t, names, s, name);
    var i :| 0 <= i < |s| && s[i] == c;
    var j :| 0 <= j < |s| && s[j] == e;
    assert names[s[i]] == names[c] && names[s[j]] == names[e];
  }

  ghost function Step(t: UpcaseTable, k: Kids, names: Labels, d: TreeNode, comp: Comp): (f: Found)
    requires Closed(k, names) && d in k && !comp.Dot?
    ensures f.Got? ==> Child(k, d, f.node)
    ensures f.Lost? ==> f.rc != Ok && f.rc != NoSpace
  {
    if comp.Malformed? then Lost(Unconvertible)
    else if !d.isDir then Lost(Bug)
    else
      assert forall c :: c in k[d] ==> Child(k, d, c);
      assert Labelled(names, k[d]);
      var c := First(t, names, k[d], comp.name);
      if c == null then Lost(NoEntry) else FirstInside(t, names, k[d], comp.name); Got(c)
  }

  lemma {:induction false} FirstInside(t: UpcaseTable, names: Labels, s: seq<TreeNode>, name: Name)
    requires Labelled(names, s) && First(t, names, s, name) != null
    ensures First(t, names, s, name) in s
  {
    if s != [] && First(t, names, s, name) != s[0] {
      FirstInside(t, names, s[1..], name);
    }
  }

  /** exfat_lookup from a directory: "." stays, every other component goes to a child. */
  ghost function Resolve(t: UpcaseTable, k: Kids, names: Labels, d: TreeNode, path: seq<Comp>): (f: Found)
    requires Closed(k, names) && d in k
    ensures f.Lost? ==> f.rc != Ok && f.rc != NoSpace
    decreases |path|
  {
    if path == [] then Got(d)
    else if path[0].Dot? then Resolve(t, k, names, d, path[1..])
    else
      var f := Step(t, k, names, d, path[0]);
      if f.Lost? then f else Resolve(t, k, names, f.node, path[1..])
  }

  /** exfat_split from a directory: what comes before the last component is looked up, the last
      one names a place there. A path with no last name is the call the source halts on. */
  ghost function Split(t: UpcaseTable, k: Kids, names: Labels, d: TreeNode, path: seq<Comp>): (target: Target)
    requires Closed(k, names) && d in k
    ensures target.Nowhere? ==> target.rc != Ok && target.rc != NoSpace
  {
    if path == [] then Nowhere(Bug)
    else
      var c, f := path[|path| - 1], Resolve(t, k, names, d, path[..|path| - 1]);
      if f.Lost? then Nowhere(f.rc)
      else if c.Dot? then Nowhere(Bug)
      else if !c.allowed then Nowhere(NoEntry)
      else if c.Malformed? then Nowhere(Unconvertible)
      else
        ResolveInside(t, k, names, d, path[..|path| - 1]);
        if !f.node.isDir then Nowhere(Bug)
        else ListLabelled(k, names, f.node); Spot(f.node, First(t, names, k[f.node], c.name), c.name)
  }

  lemma ListLabelled(k: Kids, names: Labels, d: TreeNode)
    requires Closed(k, names) && d in k
    ensures Labelled(names, k[d])
  {
    assert forall c :: c in k[d] ==> Child(k, d, c);
  }

  lemma {:induction false} ResolveInside(t: UpcaseTable, k: Kids, names: Labels, d: TreeNode, path: seq<Comp>)
    requires Closed(k, names) && d in k
    ensures Resolve(t, k, names, d, path).Got? ==> Resolve(t, k, names, d, path).node in k
    decreases |path|
  {
    if path != [] {
      if path[0].Dot? {
        ResolveInside(t, k, names, d, path[1..]);
      } else if Step(t, k, names, d, path[0]).Got? {
        ResolveInside(t, k, names, Step(t, k, names, d, path[0]).node, path[1..]);
      }
    }
  }

  /** The last component is the last step. */
  lemma {:induction false} ResolveLast(t: UpcaseTable, k: Kids, names: Labels, d: TreeNode, path: seq<Comp>)
    requires Closed(k, names) && d in k && path != []
    ensures var c, f := path[|path| - 1], Resolve(t, k, names, d, path[..|path| - 1]);
      && (f.Got? ==> f.node in k)
      && Resolve(t, k, names, d, path) == if f.Lost? || c.Dot? then f else Step(t, k, names, f.node, c)
    decreases |path|
  {
    var front := path[..|path| - 1];
    ResolveInside(t, k, names, d, front);
    if |path| == 1 {
      assert path[1..] == [] && front == [];
    } else {
      assert front[1..] == path[1..][..|path| - 2] && front[0] == path[0];
      if path[0].Dot? {
        ResolveLast(t, k, names, d, path[1..]);
      } else if Step(t, k, names, d, path[0]).Got? {
        ResolveLast(t, k, names, Step(t, k, names, d, path[0]).node, path[1..]);
      }
    }
  }

  lemma StayHere(t: UpcaseTable, k: Kids, names: Labels, d: TreeNode)
    requires Closed(k, names) && d in k
    ensures forall path: seq<Comp> :: Resolve(t, k, names, d, path[..0]) == Got(d)
  {
  }

  /** What is lost stays lost. */
  lemma {:induction false} ResolveLost(t: UpcaseTable, k: Kids, names: Labels, d: TreeNode, path: seq<Comp>, i: nat)
    requires Closed(k, names) && d in k && i < |path| && Resolve(t, k, names, d, path[..i]).Lost?
    ensures Resolve(t, k, names, d, path[..|path| - 1]) == Resolve(t, k, names, d, path[..i])
    decreases |path|
  {
    if i + 1 < |path| {
      ResolveLast(t, k, names, d, path[..|path| - 1]);
      assert path[..|path| - 1][..i] == path[..i];
      ResolveLost(t, k, names, d, path[..|path| - 1], i);
    }
  }

  // ---- The linked lists in memory.

  /** The four link fields of a node. */
  datatype Links = Links(parent: TreeNode?, child: TreeNode?, next: TreeNode?, prev: TreeNode?)

  type Web = map<TreeNode, Links>

  /** A node in no list: what allocate_node and tree_detach leave. */
  ghost predicate Loose(l: Links) {
    l.parent == null && l.next == null && l.prev == null
  }

  /** The i-th node of the child list s of d has the links of that place. */
  ghost predicate NodeAt(w: Web, d: TreeNode, s: seq<TreeNode>, i: nat)
    requires i < |s|
  {
    && s[i] in w
    && w[s[i]].parent == d && w[s[i]].prev == At(s, i - 1) && w[s[i]].next == At(s, i + 1)
  }

  ghost predicate ListOk(w: Web, d: TreeNode, s: seq<TreeNode>)
    requires d in w
  {
    && w[d].child == At(s, 0)
    && (forall i :: 0 <= i < |s| ==> NodeAt(w, d, s, i))
    && NoDup(s)
  }

  /** Every child list in memory is the sequence of children recorded for its directory. */
  ghost predicate Linked(k: Kids, w: Web) {
    && w.Keys == k.Keys
    && (forall d :: d in k ==> ListOk(w, d, k[d]))
  }

  ghost function AttachedWeb(w: Web, dir: TreeNode, node: TreeNode): Web
    requires dir in w && node in w && (w[dir].child != null ==> w[dir].child in w)
  {
    var first := w[dir].child;
    var w1 := w[node := w[node].(parent := dir)];
    var w2 := if first == null then w1 else
      var behind := w1[first := w1[first].(prev := node)];
      behind[node := behind[node].(next := first)];
    w2[dir := w2[dir].(child := node)]
  }

  lemma ParentOfChild(k: Kids, w: Web, d: TreeNode, c: TreeNode)
    requires Linked(k, w) && Child(k, d, c)
    ensures c in k && w[c].parent == d
  {
    var i :| 0 <= i < |k[d]| && k[d][i] == c;
    assert NodeAt(w, d, k[d], i);
  }

  lemma AtFront(n: TreeNode, s: seq<TreeNode>)
    ensures forall i :: 0 <= i <= |s| + 1 ==> At([n] + s, i) == if i == 0 then n else At(s, i - 1)
    ensures n !in s && NoDup(s) ==> NoDup([n] + s)
  {
  }

  /** Attaching a loose node at the head of a list. */
  lemma AttachKeepsLinked(k: Kids, w: Web, dir: TreeNode, node: TreeNode)
    requires Linked(k, w) && dir in k && node in k && node != dir && Loose(w[node])
    requires w[dir].child != null ==> w[dir].child in w
    ensures Linked(k[dir := [node] + k[dir]], AttachedWeb(w, dir, node))
  {
    var s, w' := k[dir], AttachedWeb(w, dir, node);
    var k' := k[dir := [node] + s];
    assert node in s ==> Child(k, dir, node);
    if node in s {
      ParentOfChild(k, w, dir, node);
    }
    forall d | d in k
      ensures ListOk(w', d, k'[d])
    {
      if d == dir {
        AttachedList(w, dir, node, s);
      } else {
        AttachedOther(k, w, dir, node, d);
      }
    }
  }

  lemma AttachedList(w: Web, dir: TreeNode, node: TreeNode, s: seq<TreeNode>)
    requires dir in w && node in w && node != dir && Loose(w[node]) && ListOk(w, dir, s)
    requires w[dir].child != null ==> w[dir].child in w
    requires node !in s
    ensures dir in AttachedWeb(w, dir, node) && ListOk(AttachedWeb(w, dir, node), dir, [node] + s)
  {
    var w' := AttachedWeb(w, dir, node);
    AtFront(node, s);
    forall i | 0 <= i < |[node] + s|
      ensures NodeAt(w', dir, [node] + s, i)
    {
      assert i > 0 ==> NodeAt(w, dir, s, i - 1);
    }
  }

  lemma AttachedOther(k: Kids, w: Web, dir: TreeNode, node: TreeNode, d: TreeNode)
    requires Linked(k, w) && dir in k && node in k && node != dir && Loose(w[node])
    requires w[dir].child != null ==> w[dir].child in w
    requires d in k && d != dir
    ensures d in AttachedWeb(w, dir, node) && ListOk(AttachedWeb(w, dir, node), d, k[d])
  {
    var w', s := AttachedWeb(w, dir, node), k[d];
    assert ListOk(w, dir, k[dir]);
    assert k[dir] != [] ==> NodeAt(w, dir, k[dir], 0);
    assert ListOk(w, d, s);
    forall i | 0 <= i < |s|
      ensures NodeAt(w', d, s, i)
    {
      assert NodeAt(w, d, s, i);
    }
  }

  ghost predicate Detachable(w: Web, node: TreeNode) {
    && node in w
    && (w[node].prev != null ==> w[node].prev in w)
    && (w[node].next != null ==> w[node].next in w)
    && (w[node].prev == null ==> w[node].parent != null && w[node].parent in w)
  }

  ghost function DetachedWeb(w: Web, node: TreeNode): Web
    requires Detachable(w, node)
  {
    var l := w[node];
    var w1 := if l.prev != null then w[l.prev := w[l.prev].(next := l.next)]
              else w[l.parent := w[l.parent].(child := l.next)];
    var w2 := if l.next != null then w1[l.next := w1[l.next].(prev := l.prev)] else w1;
    w2[node := w2[node].(parent := null, prev := null, next := null)]
  }

  lemma AtWithout(s: seq<TreeNode>, i: nat)
    requires i < |s| && NoDup(s)
    ensures forall j :: -1 <= j < |s| ==> At(Without(s, i), j) == At(s, if j < i then j else j + 1)
    ensures NoDup(Without(s, i)) && s[i] !in Without(s, i)
  {
  }

  lemma DetachableChild(k: Kids, w: Web, d: TreeNode, i: nat)
    requires Linked(k, w) && d in k && i < |k[d]|
    ensures Detachable(w, k[d][i]) && w[k[d][i]].parent == d
  {
    var s := k[d];
    assert ListOk(w, d, s);
    assert NodeAt(w, d, s, i);
    assert i > 0 ==> NodeAt(w, d, s, i - 1);
    assert i + 1 < |s| ==> NodeAt(w, d, s, i + 1);
  }

  /** Detaching the i-th child of a directory. */
  lemma DetachKeepsLinked(k: Kids, w: Web, dir: TreeNode, i: nat)
    requires Linked(k, w) && dir in k && i < |k[dir]| && k[dir][i] != dir
    ensures Detachable(w, k[dir][i])
    ensures var w' := DetachedWeb(w, k[dir][i]);
      Linked(k[dir := Without(k[dir], i)], w') && Loose(w'[k[dir][i]])
  {
    DetachableChild(k, w, dir, i);
    var node := k[dir][i];
    var s, w' := k[dir], DetachedWeb(w, node);
    var k' := k[dir := Without(s, i)];
    forall d | d in k
      ensures ListOk(w', d, k'[d])
    {
      if d == dir {
        DetachedList(w, dir, s, i);
      } else {
        DetachedOther(k, w, dir, i, d);
      }
    }
  }

  lemma DetachedList(w: Web, dir: TreeNode, s: seq<TreeNode>, i: nat)
    requires dir in w && ListOk(w, dir, s) && i < |s| && s[i] != dir
    requires Detachable(w, s[i])
    ensures dir in DetachedWeb(w, s[i]) && ListOk(DetachedWeb(w, s[i]), dir, Without(s, i))
  {
    var node, t := s[i], Without(s, i);
    var w' := DetachedWeb(w, node);
    AtWithout(s, i);
    assert NodeAt(w, dir, s, i);
    forall j | 0 <= j < |t|
      ensures NodeAt(w', dir, t, j)
    {
      var m := if j < i then j else j + 1;
      assert t[j] == At(t, j) == s[m];
      assert NodeAt(w, dir, s, m);
      DetachedOne(w, dir, s, i, m);
    }
  }

  /** What detaching s[i] does to the links of another node of the list. */
  lemma DetachedOne(w: Web, dir: TreeNode, s: seq<TreeNode>, i: nat, m: nat)
    requires dir in w && ListOk(w, dir, s) && i < |s| && m < |s| && m != i
    requires Detachable(w, s[i]) && s[i] != dir
    ensures s[m] in DetachedWeb(w, s[i])
    ensures var l := DetachedWeb(w, s[i])[s[m]];
      && l.parent == dir
      && l.prev == At(s, if m == i + 1 then m - 2 else m - 1)
      && l.next == At(s, if m == i - 1 then m + 2 else m + 1)
  {
    assert NodeAt(w, dir, s, i) && NodeAt(w, dir, s, m);
    if i > 0 {
      assert NodeAt(w, dir, s, i - 1);
    }
    if i + 1 < |s| {
      assert NodeAt(w, dir, s, i + 1);
    }
  }

  lemma DetachedOther(k: Kids, w: Web, dir: TreeNode, i: nat, d: TreeNode)
    requires Linked(k, w) && dir in k && i < |k[dir]| && k[dir][i] != dir
    requires Detachable(w, k[dir][i])
    requires d in k && d != dir
    ensures d in DetachedWeb(w, k[dir][i]) && ListOk(DetachedWeb(w, k[dir][i]), d, k[d])
  {
    var w', s := DetachedWeb(w, k[dir][i]), k[d];
    assert ListOk(w, dir, k[dir]);
    assert NodeAt(w, dir, k[dir], i);
    assert i > 0 ==> NodeAt(w, dir, k[dir], i - 1);
    assert i + 1 < |k[dir]| ==> NodeAt(w, dir, k[dir], i + 1);
    assert ListOk(w, d, s);
    forall j | 0 <= j < |s|
      ensures NodeAt(w', d, s, j)
    {
      assert NodeAt(w, d, s, j);
    }
  }

  // ---- What every operation keeps.

  ghost predicate FilesChildless(k: Kids) {
    forall d :: d in k && !d.isDir ==> k[d] == []
  }

  /** Lists closed under the domain and siblings told apart by name. */
  ghost predicate SiblingsApart(t: UpcaseTable, k: Kids, names: Labels) {
    && Closed(k, names)
    && (forall d :: d in k ==> Labelled(names, k[d]) && Apart(t, names, k[d]))
  }

  ghost predicate Good(t: UpcaseTable, root: TreeNode, k: Kids, p: Paths, w: Web, names: Labels) {
    && Proper(t)
    && Rooted(k, p, root)
    && Linked(k, w) && Loose(w[root])
    && root.isDir && FilesChildless(k)
    && SiblingsApart(t, k, names)
  }

  /** The list a node is in, and its place there. */
  ghost function ParentOf(p: Paths, n: TreeNode): TreeNode
    requires n in p && |p[n]| >= 2
  {
    p[n][|p[n]| - 2]
  }

  ghost function IndexOf(s: seq<TreeNode>, n: TreeNode): (i: nat)
    requires n in s
    ensures i < |s| && s[i] == n
  {
    var i :| 0 <= i < |s| && s[i] == n;
    i
  }

  /** Taking a node out of its list and, with its subtree, to the head of another. */
  ghost function MovedTo(k: Kids, p: Paths, n: TreeNode, to: TreeNode): Kids
    requires n in p && |p[n]| >= 2 && ParentOf(p, n) in k && n in k[ParentOf(p, n)] && to in k
  {
    Moved(k, ParentOf(p, n), IndexOf(k[ParentOf(p, n)], n), to)
  }

  ghost function TakenOut(k: Kids, p: Paths, n: TreeNode): Kids
    requires n in p && |p[n]| >= 2 && ParentOf(p, n) in k && n in k[ParentOf(p, n)]
  {
    Removed(k, ParentOf(p, n), IndexOf(k[ParentOf(p, n)], n))
  }

  /** Where a node other than the root hangs. */
  lemma Place(t: UpcaseTable, root: TreeNode, k: Kids, p: Paths, w: Web, names: Labels, n: TreeNode)
    requires Good(t, root, k, p, w, names) && n in k && n != root
    ensures p.Keys == k.Keys && |p[n]| >= 2
    ensures ParentOf(p, n) in k && n in k[ParentOf(p, n)] && ParentOf(p, n) != n
    ensures NoDup(k[ParentOf(p, n)])
    ensures Detachable(w, n)
  {
    HangsBelow(k, p, root, n);
    var d := ParentOf(p, n);
    ChildIsBelow(k, p, root, d, n);
    assert ListOk(w, d, k[d]);
    DetachableChild(k, w, d, IndexOf(k[d], n));
  }

  lemma SubsetApart(t: UpcaseTable, names: Labels, s: seq<TreeNode>, i: nat)
    requires i < |s| && Labelled(names, s) && Apart(t, names, s)
    ensures Labelled(names, Without(s, i)) && Apart(t, names, Without(s, i))
  {
    var r := Without(s, i);
    forall a, b | 0 <= a < b < |r|
      ensures !SameName(t, names[r[a]], names[r[b]])
    {
      var x, y := if a < i then a else a + 1, if b < i then b else b + 1;
      assert r[a] == s[x] && r[b] == s[y];
    }
  }

  /** A child list without one node, under names that differ at that node only. */
  lemma ApartWithout(t: UpcaseTable, names: Labels, names': Labels, s: seq<TreeNode>, i: nat)
    requires i < |s| && NoDup(s) && Labelled(names, s) && Apart(t, names, s)
    requires forall c :: c in s && c != s[i] ==> c in names' && names'[c] == names[c]
    ensures Labelled(names', Without(s, i)) && Apart(t, names', Without(s, i))
  {
    SubsetApart(t, names, s, i);
    forall c | c in Without(s, i)
      ensures c in names' && names'[c] == names[c]
    {
      WithoutHas(s, i, c);
    }
  }

  /** A node at the head of a list none of whose nodes has its name. */
  lemma ApartFront(t: UpcaseTable, names: Labels, names': Labels, s: seq<TreeNode>, n: TreeNode)
    requires Labelled(names, s) && Apart(t, names, s) && n in names'
    requires forall c :: c in s ==> c in names' && names'[c] == names[c]
    requires forall c :: c in s ==> !SameName(t, names'[n], names[c])
    ensures Labelled(names', [n] + s) && Apart(t, names', [n] + s)
  {
    var r := [n] + s;
    forall a, b | 0 <= a < b < |r|
      ensures !SameName(t, names'[r[a]], names'[r[b]])
    {
      assert r[b] == s[b - 1];
      assert a > 0 ==> r[a] == s[a - 1];
    }
  }

  /** n can move to dir and take the name. */
  ghost predicate MayMove(t: UpcaseTable, root: TreeNode, k: Kids, p: Paths, w: Web, names: Labels,
                          n: TreeNode, dir: TreeNode, name: Name) {
    && Good(t, root, k, p, w, names)
    && n in k && n != root && dir in k && dir.isDir && n !in p[dir]
    && (forall c :: c in k[dir] && c != n ==> c in names && !SameName(t, name, names[c]))
  }

  lemma MoveKeepsApart(t: UpcaseTable, k: Kids, names: Labels, from: TreeNode, i: nat, to: TreeNode, name: Name)
    requires SiblingsApart(t, k, names)
    requires from in k && i < |k[from]| && to in k && k[from][i] in k && NoDup(k[from])
    requires forall d :: Child(k, d, k[from][i]) ==> d == from
    requires forall c :: c in k[to] && c != k[from][i] ==> c in names && !SameName(t, name, names[c])
    ensures SiblingsApart(t, Moved(k, from, i, to), names[k[from][i] := name])
  {
    var n := k[from][i];
    var k', names' := Moved(k, from, i, to), names[n := name];
    assert forall d :: d in k && n in k[d] ==> Child(k, d, n);
    forall d | d in k
      ensures Labelled(names', k'[d]) && Apart(t, names', k'[d])
    {
      assert Labelled(names, k[d]) && Apart(t, names, k[d]);
      var s := if d == from then Without(k[d], i) else k[d];
      if d == from {
        ApartWithout(t, names, names', k[d], i);
      }
      forall c | c in s
        ensures c in k[d] && c != n
      {
        if d == from {
          WithoutHas(k[d], i, c);
        }
      }
      if d == to {
        ApartFront(t, names', names', s, n);
      }
    }
    forall d, c | Child(k', d, c)
      ensures c in k'
    {
      assert c in names';
    }
  }

  lemma MoveKeepsLinked(k: Kids, p: Paths, w: Web, root: TreeNode, from: TreeNode, i: nat, to: TreeNode)
    requires Movable(k, p, root, from, i, to) && Linked(k, w) && k[from][i] != from
    requires k[from][i] != root && Loose(w[root])
    ensures p.Keys == k.Keys && Detachable(w, k[from][i])
    ensures var w1 := DetachedWeb(w, k[from][i]);
      && (w1[to].child != null ==> w1[to].child in w1)
      && var w2 := AttachedWeb(w1, to, k[from][i]);
      Linked(Moved(k, from, i, to), w2) && Loose(w2[root])
  {
    var n := k[from][i];
    DetachKeepsLinked(k, w, from, i);
    var k1, w1 := k[from := Without(k[from], i)], DetachedWeb(w, n);
    assert n != to by {
      LastOfPath(k, p, root, to);
    }
    FirstKnown(k1, w1, to);
    assert Loose(w1[root]) by {
      RootStaysLoose(k, w, root, from, i);
    }
    AttachKeepsLinked(k1, w1, to, n);
    assert Moved(k, from, i, to) == k1[to := [n] + k1[to]];
    RootStaysUnlisted(k1, w1, to, n, root);
  }

  lemma FirstKnown(k: Kids, w: Web, d: TreeNode)
    requires Linked(k, w) && d in k
    ensures w[d].child != null ==> w[d].child in w && w[w[d].child].parent == d
  {
    assert ListOk(w, d, k[d]);
    if k[d] != [] {
      assert NodeAt(w, d, k[d], 0);
    }
  }

  lemma RootStaysUnlisted(k: Kids, w: Web, to: TreeNode, n: TreeNode, root: TreeNode)
    requires Linked(k, w) && to in k && n in k && root in k && Loose(w[root]) && n != root
    ensures w[to].child != null ==> w[to].child in w
    ensures Loose(AttachedWeb(w, to, n)[root])
  {
    FirstKnown(k, w, to);
  }

  lemma MoveKeepsFiles(k: Kids, from: TreeNode, i: nat, to: TreeNode)
    requires from in k && to in k && i < |k[from]| && to.isDir && FilesChildless(k)
    ensures FilesChildless(Moved(k, from, i, to))
  {
    assert k[from] != [];
  }

  /** A node in no list is not a neighbour of a detached one. */
  lemma RootStaysLoose(k: Kids, w: Web, root: TreeNode, from: TreeNode, i: nat)
    requires Linked(k, w) && root in k && Loose(w[root]) && from in k && i < |k[from]|
    requires Detachable(w, k[from][i])
    ensures Loose(DetachedWeb(w, k[from][i])[root])
  {
    var s := k[from];
    assert ListOk(w, from, s);
    assert NodeAt(w, from, s, i);
    assert i > 0 ==> NodeAt(w, from, s, i - 1);
    assert i + 1 < |s| ==> NodeAt(w, from, s, i + 1);
  }

  lemma MovePlaces(t: UpcaseTable, root: TreeNode, k: Kids, p: Paths, w: Web, names: Labels,
                   n: TreeNode, dir: TreeNode, name: Name)
    requires MayMove(t, root, k, p, w, names, n, dir, name)
    ensures p.Keys == k.Keys && |p[n]| >= 2 && ParentOf(p, n) in k && n in k[ParentOf(p, n)]
    ensures Detachable(w, n)
    ensures Movable(k, p, root, ParentOf(p, n), IndexOf(k[ParentOf(p, n)], n), dir)
    ensures ParentOf(p, n) != n
  {
    hide Rooted, Linked, SiblingsApart, Proper;
    Place(t, root, k, p, w, names, n);
  }

  lemma GoodMoved(t: UpcaseTable, root: TreeNode, k: Kids, p: Paths, w: Web, names: Labels,
                  n: TreeNode, dir: TreeNode, name: Name)
    requires MayMove(t, root, k, p, w, names, n, dir, name)
    ensures p.Keys == k.Keys && |p[n]| >= 2 && ParentOf(p, n) in k && n in k[ParentOf(p, n)]
    ensures Detachable(w, n) && var w1 := DetachedWeb(w, n);
      && (w1[dir].child != null ==> w1[dir].child in w1)
      && Good(t, root, MovedTo(k, p, n, dir), MovedPaths(p, n, dir), AttachedWeb(w1, dir, n), names[n := name])
  {
    MovePlaces(t, root, k, p, w, names, n, dir, name);
    var from := ParentOf(p, n);
    var i := IndexOf(k[from], n);
    MoveKeepsLinked(k, p, w, root, from, i, dir);
    MoveKeepsRooted(k, p, root, from, i, dir);
    forall d | Child(k, d, n)
      ensures d == from
    {
      assert Child(k, from, n);
      OneParent(k, p, root, d, from, n);
    }
    assert NoDup(k[from]) by {
      Place(t, root, k, p, w, names, n);
    }
    MoveKeepsApart(t, k, names, from, i, dir, name);
    MoveKeepsFiles(k, from, i, dir);
  }

  /** A node in no list is not needed by the lists. */
  lemma DropLoose(k: Kids, w: Web, n: TreeNode)
    requires Linked(k, w) && n in k && Loose(w[n])
    ensures Linked(k - {n}, w - {n})
  {
    var k', w' := k - {n}, w - {n};
    forall d | d in k'
      ensures ListOk(w', d, k'[d])
    {
      assert ListOk(w, d, k[d]);
      forall i | 0 <= i < |k[d]|
        ensures NodeAt(w', d, k[d], i)
      {
        assert NodeAt(w, d, k[d], i);
      }
    }
  }

  lemma TakeKeepsLinked(k: Kids, w: Web, root: TreeNode, from: TreeNode, i: nat)
    requires Linked(k, w) && from in k && i < |k[from]| && k[from][i] in k && k[from][i] != from
    requires root in k && Loose(w[root]) && root != k[from][i]
    ensures Detachable(w, k[from][i])
    ensures var w' := DetachedWeb(w, k[from][i]) - {k[from][i]};
      Linked(Removed(k, from, i), w') && Loose(w'[root])
  {
    var n := k[from][i];
    DetachKeepsLinked(k, w, from, i);
    RootStaysLoose(k, w, root, from, i);
    DropLoose(k[from := Without(k[from], i)], DetachedWeb(w, n), n);
  }

  lemma TakeKeepsApart(t: UpcaseTable, k: Kids, names: Labels, from: TreeNode, i: nat)
    requires SiblingsApart(t, k, names)
    requires from in k && i < |k[from]| && k[from][i] in k && NoDup(k[from])
    requires forall d :: Child(k, d, k[from][i]) ==> d == from
    ensures SiblingsApart(t, Removed(k, from, i), names - {k[from][i]})
  {
    var n := k[from][i];
    var k', names' := Removed(k, from, i), names - {n};
    assert forall d :: d in k && n in k[d] ==> Child(k, d, n);
    forall d | d in k'
      ensures Labelled(names', k'[d]) && Apart(t, names', k'[d])
    {
      assert Labelled(names, k[d]) && Apart(t, names, k[d]);
      if d == from {
        ApartWithout(t, names, names', k[d], i);
      }
    }
    forall d, c | Child(k', d, c)
      ensures c in k'
    {
      assert c in names';
    }
  }

  lemma TakeKeepsFiles(k: Kids, from: TreeNode, i: nat)
    requires from in k && i < |k[from]| && FilesChildless(k)
    ensures FilesChildless(Removed(k, from, i))
  {
    assert k[from] != [];
  }

  lemma GoodTaken(t: UpcaseTable, root: TreeNode, k: Kids, p: Paths, w: Web, names: Labels, n: TreeNode)
    requires Good(t, root, k, p, w, names) && n in k && n != root && k[n] == []
    ensures p.Keys == k.Keys && |p[n]| >= 2 && ParentOf(p, n) in k && n in k[ParentOf(p, n)]
    ensures Detachable(w, n)
    ensures Good(t, root, TakenOut(k, p, n), p - {n}, DetachedWeb(w, n) - {n}, names - {n})
  {
    Place(t, root, k, p, w, names, n);
    var from := ParentOf(p, n);
    var i := IndexOf(k[from], n);
    RootKnown(k, p, root);
    TakeKeepsLinked(k, w, root, from, i);
    RemoveKeepsRooted(k, p, root, from, i);
    forall d | Child(k, d, n)
      ensures d == from
    {
      assert Child(k, from, n);
      OneParent(k, p, root, d, from, n);
    }
    TakeKeepsApart(t, k, names, from, i);
    TakeKeepsFiles(k, from, i);
  }

  lemma RootKnown(k: Kids, p: Paths, root: TreeNode)
    requires Rooted(k, p, root)
    ensures p.Keys == k.Keys && root in k && p[root] == [root]
  {
  }

  ghost predicate MayAdd(t: UpcaseTable, root: TreeNode, k: Kids, p: Paths, w: Web, names: Labels,
                         n: TreeNode, dir: TreeNode, name: Name) {
    && Good(t, root, k, p, w, names)
    && n !in k && dir in k && dir.isDir
    && (forall c :: c in k[dir] ==> c in names && !SameName(t, name, names[c]))
  }

  const NO_LINKS := Links(null, null, null, null)

  lemma AddKeepsLinked(k: Kids, w: Web, root: TreeNode, dir: TreeNode, n: TreeNode)
    requires Linked(k, w) && dir in k && n !in k && root in k && Loose(w[root])
    ensures var w1 := w[n := NO_LINKS];
      && (w1[dir].child != null ==> w1[dir].child in w1)
      && var w2 := AttachedWeb(w1, dir, n);
      Linked(Added(k, dir, n), w2) && Loose(w2[root])
  {
    var k1, w1 := k[n := []], w[n := NO_LINKS];
    forall d | d in k1
      ensures ListOk(w1, d, k1[d])
    {
      if d != n {
        assert ListOk(w, d, k[d]);
        forall i | 0 <= i < |k[d]|
          ensures NodeAt(w1, d, k[d], i)
        {
          assert NodeAt(w, d, k[d], i);
        }
      }
    }
    FirstKnown(k1, w1, dir);
    AttachKeepsLinked(k1, w1, dir, n);
    assert Added(k, dir, n) == k1[dir := [n] + k1[dir]];
    RootStaysUnlisted(k1, w1, dir, n, root);
  }

  lemma AddKeepsApart(t: UpcaseTable, k: Kids, names: Labels, dir: TreeNode, n: TreeNode, name: Name)
    requires SiblingsApart(t, k, names) && dir in k && n !in k
    requires forall c :: c in k[dir] ==> c in names && !SameName(t, name, names[c])
    ensures SiblingsApart(t, Added(k, dir, n), names[n := name])
  {
    var k', names' := Added(k, dir, n), names[n := name];
    forall d | d in k'
      ensures Labelled(names', k'[d]) && Apart(t, names', k'[d])
    {
      if d != n {
        assert Labelled(names, k[d]) && Apart(t, names, k[d]);
      }
      if d == dir {
        ApartFront(t, names, names', k[d], n);
      }
    }
    forall d, c | Child(k', d, c)
      ensures c in k'
    {
      assert c in names';
    }
  }

  lemma GoodAdded(t: UpcaseTable, root: TreeNode, k: Kids, p: Paths, w: Web, names: Labels,
                  n: TreeNode, dir: TreeNode, name: Name)
    requires MayAdd(t, root, k, p, w, names, n, dir, name)
    ensures dir in p && dir in w
    ensures var w1 := w[n := NO_LINKS];
      && (w1[dir].child != null ==> w1[dir].child in w1)
      && Good(t, root, Added(k, dir, n), p[n := p[dir] + [n]], AttachedWeb(w1, dir, n), names[n := name])
  {
    RootKnown(k, p, root);
    assert dir in w;
    AddKeepsLinked(k, w, root, dir, n);
    AddKeepsRooted(k, p, root, dir, n);
    AddKeepsApart(t, k, names, dir, n, name);
    assert FilesChildless(Added(k, dir, n)) by {
      AddKeepsFiles(k, dir, n);
    }
  }

  lemma AddKeepsFiles(k: Kids, dir: TreeNode, n: TreeNode)
    requires dir in k && dir.isDir && FilesChildless(k)
    ensures FilesChildless(Added(k, dir, n))
  {
  }

  // ---- The same changes of shape, told without positions.

  function Minus(s: seq<TreeNode>, n: TreeNode): seq<TreeNode> {
    if s == [] then []
    else if s[0] == n then Minus(s[1..], n)
    else [s[0]] + Minus(s[1..], n)
  }

  /** n at the head of to's list and in no other; every other node where it was. */
  ghost function Relocated(k: Kids, n: TreeNode, to: TreeNode): Kids {
    map d | d in k :: (if d == to then [n] else []) + Minus(k[d], n)
  }

  /** The tree without n. */
  ghost function Cut(k: Kids, n: TreeNode): Kids {
    map d | d in k && d != n :: Minus(k[d], n)
  }

  lemma {:induction false} MinusAbsent(s: seq<TreeNode>, n: TreeNode)
    requires n !in s
    ensures Minus(s, n) == s
  {
    if s != [] {
      MinusAbsent(s[1..], n);
    }
  }

  lemma {:induction false} MinusIsWithout(s: seq<TreeNode>, i: nat)
    requires i < |s| && NoDup(s)
    ensures Minus(s, s[i]) == Without(s, i)
  {
    if i == 0 {
      MinusAbsent(s[1..], s[0]);
    } else {
      assert s[0] != s[i];
      MinusIsWithout(s[1..], i - 1);
    }
  }

  lemma {:induction false} MinusHas(s: seq<TreeNode>, n: TreeNode, c: TreeNode)
    ensures c in Minus(s, n) <==> c in s && c != n
  {
    if s != [] {
      MinusHas(s[1..], n, c);
    }
  }

  /** In a tree a node is in one list only, so taking it out of all is taking it out of one. */
  lemma MinusElsewhere(k: Kids, p: Paths, root: TreeNode, from: TreeNode, i: nat, d: TreeNode)
    requires Rooted(k, p, root) && from in k && i < |k[from]| && NoDup(k[from]) && d in k
    ensures Minus(k[d], k[from][i]) == if d == from then Without(k[from], i) else k[d]
  {
    var n := k[from][i];
    if d == from {
      MinusIsWithout(k[from], i);
    } else {
      if n in k[d] {
        assert Child(k, d, n) && Child(k, from, n);
        OneParent(k, p, root, d, from, n);
      }
      MinusAbsent(k[d], n);
    }
  }

  lemma MovedIsRelocated(k: Kids, p: Paths, root: TreeNode, from: TreeNode, i: nat, to: TreeNode)
    requires Rooted(k, p, root) && from in k && i < |k[from]| && NoDup(k[from]) && to in k
    ensures Moved(k, from, i, to) == Relocated(k, k[from][i], to)
  {
    hide Rooted, NoDup;
    var n, k' := k[from][i], Moved(k, from, i, to);
    forall d | d in k
      ensures k'[d] == (if d == to then [n] else []) + Minus(k[d], n)
    {
      MinusElsewhere(k, p, root, from, i, d);
    }
  }

  lemma RemovedIsCut(k: Kids, p: Paths, root: TreeNode, from: TreeNode, i: nat)
    requires Rooted(k, p, root) && from in k && i < |k[from]| && NoDup(k[from])
    ensures Removed(k, from, i) == Cut(k, k[from][i])
  {
    hide Rooted, NoDup;
    var n, k' := k[from][i], Removed(k, from, i);
    forall d | d in k && d != n
      ensures k'[d] == Minus(k[d], n)
    {
      MinusElsewhere(k, p, root, from, i, d);
    }
  }

  lemma CutIsTaken(t: UpcaseTable, root: TreeNode, k: Kids, p: Paths, w: Web, names: Labels, n: TreeNode)
    requires Good(t, root, k, p, w, names) && n in k && n != root
    ensures p.Keys == k.Keys && |p[n]| >= 2 && ParentOf(p, n) in k && n in k[ParentOf(p, n)]
    ensures TakenOut(k, p, n) == Cut(k, n)
  {
    hide Rooted, NoDup;
    Place(t, root, k, p, w, names, n);
    var from := ParentOf(p, n);
    RemovedIsCut(k, p, root, from, IndexOf(k[from], n));
  }

  lemma GoodCut(t: UpcaseTable, root: TreeNode, k: Kids, p: Paths, w: Web, names: Labels, n: TreeNode)
    requires Good(t, root, k, p, w, names) && n in k && n != root && k[n] == []
    ensures n in p && Detachable(w, n)
    ensures Good(t, root, Cut(k, n), p - {n}, DetachedWeb(w, n) - {n}, names - {n})
    ensures Cut(k, n).Keys == k.Keys - {n}
  {
    hide Good, Cut, DetachedWeb, Detachable;
    GoodTaken(t, root, k, p, w, names, n);
    CutIsTaken(t, root, k, p, w, names, n);
    CutKeys(k, n);
  }

  lemma CutKeys(k: Kids, n: TreeNode)
    ensures Cut(k, n).Keys == k.Keys - {n}
  {
  }

  lemma RelocatedIsMoved(t: UpcaseTable, root: TreeNode, k: Kids, p: Paths, w: Web, names: Labels, n: TreeNode, to: TreeNode)
    requires Good(t, root, k, p, w, names) && n in k && n != root && to in k
    ensures p.Keys == k.Keys && |p[n]| >= 2 && ParentOf(p, n) in k && n in k[ParentOf(p, n)]
    ensures MovedTo(k, p, n, to) == Relocated(k, n, to)
  {
    hide Rooted, NoDup;
    Place(t, root, k, p, w, names, n);
    var from := ParentOf(p, n);
    MovedIsRelocated(k, p, root, from, IndexOf(k[from], n), to);
  }

  // ---- What lookups find after a change.

  /** A walk ends at or below the directory it starts in. */
  lemma {:induction false} ResolveDescends(t: UpcaseTable, root: TreeNode, k: Kids, p: Paths, names: Labels, d: TreeNode, path: seq<Comp>)
    requires Rooted(k, p, root) && Closed(k, names) && d in k
    requires Resolve(t, k, names, d, path).Got?
    ensures var x := Resolve(t, k, names, d, path).node; x in k && d in p[x]
    ensures var x := Resolve(t, k, names, d, path).node; p[d] <= p[x]
    decreases |path|
  {
    LastOfPath(k, p, root, d);
    if path != [] {
      if path[0].Dot? {
        ResolveDescends(t, root, k, p, names, d, path[1..]);
      } else {
        var c := Step(t, k, names, d, path[0]).node;
        ChildIsBelow(k, p, root, d, c);
        ResolveDescends(t, root, k, p, names, c, path[1..]);
      }
    }
  }

  lemma SplitDescends(t: UpcaseTable, root: TreeNode, k: Kids, p: Paths, names: Labels, d: TreeNode, path: seq<Comp>)
    requires Rooted(k, p, root) && Closed(k, names) && d in k
    requires Split(t, k, names, d, path).Spot?
    ensures var s := Split(t, k, names, d, path);
      && s.dir in k && s.dir.isDir && d in p[s.dir] && p[d] <= p[s.dir]
      && Labelled(names, k[s.dir]) && s.existing == First(t, names, k[s.dir], s.name)
  {
    hide Rooted, Closed, Resolve;
    ResolveDescends(t, root, k, p, names, d, path[..|path| - 1]);
    ListLabelled(k, names, Split(t, k, names, d, path).dir);
  }

  /** The nodes on x's path are children of the same directories under the same names. */
  ghost predicate KeptUpTo(k: Kids, p: Paths, names: Labels, k': Kids, names': Labels, x: TreeNode)
    requires x in p
  {
    forall d, c :: Child(k, d, c) && c in p[x] ==>
      Child(k', d, c) && c in names && c in names' && names'[c] == names[c]
  }

  /** Lookup of a kept child finds it again, whatever else happened in its directory. */
  lemma StepKept(t: UpcaseTable, k: Kids, names: Labels, k': Kids, names': Labels, d: TreeNode, comp: Comp)
    requires Proper(t) && Closed(k, names) && d in k && SiblingsApart(t, k', names') && !comp.Dot?
    requires var f := Step(t, k, names, d, comp); f.Got? && Child(k', d, f.node) && names'[f.node] == names[f.node]
    ensures Step(t, k', names', d, comp) == Step(t, k, names, d, comp)
  {
    assert forall c :: c in k[d] ==> Child(k, d, c);
    assert Labelled(names, k[d]);
    FirstIs(t, names, k[d], comp.name);
    var c := First(t, names, k[d], comp.name);
    assert Labelled(names', k'[d]) && Apart(t, names', k'[d]);
    FirstIsUnique(t, names', k'[d], comp.name, c);
  }

  /** A path none of whose nodes moved still resolves to the same node. */
  lemma {:induction false} ResolveKept(t: UpcaseTable, root: TreeNode, k: Kids, p: Paths, names: Labels,
                                       k': Kids, names': Labels, d: TreeNode, path: seq<Comp>)
    requires Proper(t) && Rooted(k, p, root) && Closed(k, names) && d in k && d in k'
    requires SiblingsApart(t, k', names')
    requires var f := Resolve(t, k, names, d, path); f.Got? && f.node in p && KeptUpTo(k, p, names, k', names', f.node)
    ensures Resolve(t, k', names', d, path) == Resolve(t, k, names, d, path)
    decreases |path|
  {
    if path != [] {
      if path[0].Dot? {
        ResolveKept(t, root, k, p, names, k', names', d, path[1..]);
      } else {
        var c := Step(t, k, names, d, path[0]).node;
        ResolveDescends(t, root, k, p, names, c, path[1..]);
        assert Child(k, d, c) && Child(k', d, c);
        StepKept(t, k, names, k', names', d, path[0]);
        ResolveKept(t, root, k, p, names, k', names', c, path[1..]);
      }
    }
  }

  /** When the split directory's own path is kept, its new child of the name is what the path
      resolves to. */
  lemma SplitThenResolve(t: UpcaseTable, root: TreeNode, k: Kids, p: Paths, names: Labels,
                         k': Kids, names': Labels, d: TreeNode, path: seq<Comp>, n: TreeNode)
    requires Proper(t) && Rooted(k, p, root) && Closed(k, names) && d in k && d in k'
    requires SiblingsApart(t, k', names')
    requires var s := Split(t, k, names, d, path);
      s.Spot? && s.dir in p && KeptUpTo(k, p, names, k', names', s.dir)
      && Child(k', s.dir, n) && names'[n] == s.name
    ensures Resolve(t, k', names', d, path) == Got(n)
  {
    hide Rooted, KeptUpTo, Resolve, First;
    var s := Split(t, k, names, d, path);
    ResolveKept(t, root, k, p, names, k', names', d, path[..|path| - 1]);
    ResolveLast(t, k', names', d, path);
    assert Labelled(names', k'[s.dir]) && Apart(t, names', k'[s.dir]);
    FirstIsUnique(t, names', k'[s.dir], s.name, n);
  }

  // ---- What paths mean.

  /** Without its dots the path is the names of these nodes, one after the other. */
  ghost predicate Spells(t: UpcaseTable, names: Labels, path: seq<Comp>, s: seq<TreeNode>)
    decreases |path|
  {
    if path == [] then s == []
    else if path[0].Dot? then Spells(t, names, path[1..], s)
    else
      && s != [] && path[0].Plain? && s[0] in names && SameName(t, path[0].name, names[s[0]])
      && Spells(t, names, path[1..], s[1..])
  }

  /** A path leads from a directory to a node exactly when it spells the names on the way. */
  lemma {:induction false} ResolvesSpelled(t: UpcaseTable, root: TreeNode, k: Kids, p: Paths, names: Labels,
                                           d: TreeNode, path: seq<Comp>, x: TreeNode)
    requires Proper(t) && Rooted(k, p, root) && SiblingsApart(t, k, names) && FilesChildless(k) && d in k
    ensures Resolve(t, k, names, d, path) == Got(x)
        <==> x in k && p[d] <= p[x] && Spells(t, names, path, p[x][|p[d]|..])
    decreases |path|
  {
    hide Proper, Rooted, SiblingsApart, FilesChildless, SameName;
    RootKnown(k, p, root);
    ApartIs(t, k, names, d);
    if path == [] {
      SamePath(k, p, root, d, x);
    } else if path[0].Dot? {
      ResolvesSpelled(t, root, k, p, names, d, path[1..], x);
    } else {
      if Step(t, k, names, d, path[0]).Got? {
        var c := Step(t, k, names, d, path[0]).node;
        ChildIsBelow(k, p, root, d, c);
        ResolvesSpelled(t, root, k, p, names, c, path[1..], x);
        FirstIs(t, names, k[d], path[0].name);
        if x in k && p[c] <= p[x] {
          assert p[x][|p[d]|..] == [c] + p[x][|p[c]|..];
        }
      }
      if x in k && p[d] <= p[x] && Spells(t, names, path, p[x][|p[d]|..]) {
        var c := p[x][|p[d]|];
        NextOnPath(k, p, root, d, x);
        ChildrenOfDirs(k, d, c);
        FirstIsUnique(t, names, k[d], path[0].name, c);
        assert Step(t, k, names, d, path[0]) == Got(c);
      }
    }
  }

  lemma ApartIs(t: UpcaseTable, k: Kids, names: Labels, d: TreeNode)
    requires SiblingsApart(t, k, names) && d in k
    ensures Closed(k, names) && Labelled(names, k[d]) && Apart(t, names, k[d])
  {
  }

  lemma ChildrenOfDirs(k: Kids, d: TreeNode, c: TreeNode)
    requires FilesChildless(k) && Child(k, d, c)
    ensures d.isDir
  {
  }

  lemma SamePath(k: Kids, p: Paths, root: TreeNode, d: TreeNode, x: TreeNode)
    requires Rooted(k, p, root) && d in k
    ensures d == x <==> x in k && p[d] <= p[x] && p[x][|p[d]|..] == []
  {
    LastOfPath(k, p, root, d);
    if x in k {
      LastOfPath(k, p, root, x);
    }
  }

  /** The path of a node goes on with a child wherever it has not ended. */
  lemma NextOnPath(k: Kids, p: Paths, root: TreeNode, d: TreeNode, x: TreeNode)
    requires Rooted(k, p, root) && d in k && x in k && p[d] <= p[x] && |p[d]| < |p[x]|
    ensures Child(k, d, p[x][|p[d]|])
  {
    LastOfPath(k, p, root, d);
    PathsAreChains(k, p, root, x, |p[d]| - 1);
    assert p[x][|p[d]| - 1] == p[d][|p[d]| - 1] == d;
  }

  lemma SpelledIsFound(t: UpcaseTable, root: TreeNode, k: Kids, p: Paths, w: Web, names: Labels, path: seq<Comp>, x: TreeNode)
    requires Good(t, root, k, p, w, names) && root in k && Closed(k, names)
    requires x in k && x in p && |p[x]| > 0 && Spells(t, names, path, p[x][1..])
    ensures Resolve(t, k, names, root, path) == Got(x)
  {
    hide Linked, Proper, Spells, Resolve;
    PathsAreChains(k, p, root, x, 0);
    ResolvesSpelled(t, root, k, p, names, root, path, x);
  }

  /** The path of a node, by the names of its nodes. */
  ghost function NamesOf(names: Labels, s: seq<TreeNode>): (path: seq<Comp>)
    requires forall i :: 0 <= i < |s| ==> s[i] in names
    ensures |path| == |s|
  {
    seq(|s|, i requires 0 <= i < |s| => Plain(names[s[i]], true))
  }

  lemma {:induction false} NamesSpell(t: UpcaseTable, names: Labels, s: seq<TreeNode>)
    requires forall i :: 0 <= i < |s| ==> s[i] in names
    ensures Spells(t, names, NamesOf(names, s), s)
    decreases |s|
  {
    if s != [] {
      NamesSpell(t, names, s[1..]);
      assert NamesOf(names, s)[1..] == NamesOf(names, s[1..]);
    }
  }

  /** Every node of the tree can be named: the names on the way to it lead there. */
  lemma EveryNodeNamed(t: UpcaseTable, root: TreeNode, k: Kids, p: Paths, w: Web, names: Labels, x: TreeNode)
    requires Good(t, root, k, p, w, names) && x in k
    ensures root in k && Closed(k, names) && p.Keys == k.Keys && |p[x]| > 0
    ensures forall i :: 1 <= i < |p[x]| ==> p[x][i] in names
    ensures Resolve(t, k, names, root, NamesOf(names, p[x][1..])) == Got(x)
  {
    hide Linked, Proper;
    LastOfPath(k, p, root, x);
    forall i | 0 <= i < |p[x]|
      ensures p[x][i] in names
    {
      PathsAreChains(k, p, root, x, i);
    }
    NamesSpell(t, names, p[x][1..]);
    PathsAreChains(k, p, root, x, 0);
    ResolvesSpelled(t, root, k, p, names, root, NamesOf(names, p[x][1..]), x);
  }

  /** The way does not go on from here. */
  ghost predicate EndsAt(t: UpcaseTable, k: Kids, names: Labels, d: TreeNode, c: Comp, rc: Rc) {
    match c
    case Dot => false
    case Malformed(_) => rc == Unconvertible
    case Plain(name, _) =>
      if !d.isDir then rc == Bug
      else rc == NoEntry && d in k && Labelled(names, k[d]) && forall e :: e in k[d] ==> !SameName(t, name, names[e])
  }

  ghost predicate EndsAfter(t: UpcaseTable, k: Kids, names: Labels, d: TreeNode, path: seq<Comp>, rc: Rc, i: nat)
    requires Closed(k, names) && d in k
  {
    && i < |path| && Resolve(t, k, names, d, path[..i]).Got?
    && EndsAt(t, k, names, Resolve(t, k, names, d, path[..i]).node, path[i], rc)
  }

  /** A path is lost exactly where a component cannot be converted, has no child of its name, or
      has a file before it, on which the source halts. */
  lemma {:induction false} LostWhere(t: UpcaseTable, k: Kids, names: Labels, d: TreeNode, path: seq<Comp>, rc: Rc)
    requires Proper(t) && SiblingsApart(t, k, names) && d in k
    ensures Resolve(t, k, names, d, path) == Lost(rc) <==> exists i :: EndsAfter(t, k, names, d, path, rc, i)
    decreases |path|
  {
    hide Proper, SiblingsApart, EndsAt, Resolve, Closed, Labelled;
    ApartIs(t, k, names, d);
    StayHere(t, k, names, d);
    if path == [] {
      assert path[..0] == path;
      return;
    }
    var n := |path| - 1;
    var front := path[..n];
    ResolveLast(t, k, names, d, path);
    LostWhere(t, k, names, d, front, rc);
    forall i: nat | i < n
      ensures EndsAfter(t, k, names, d, front, rc, i) <==> EndsAfter(t, k, names, d, path, rc, i)
    {
      assert front[..i] == path[..i];
    }
    if Resolve(t, k, names, d, front).Got? {
      StepEnds(t, k, names, Resolve(t, k, names, d, front).node, path[n], rc);
      assert EndsAfter(t, k, names, d, path, rc, n) <==> Resolve(t, k, names, d, path) == Lost(rc);
    }
  }

  lemma StepEnds(t: UpcaseTable, k: Kids, names: Labels, d: TreeNode, c: Comp, rc: Rc)
    requires Proper(t) && SiblingsApart(t, k, names) && d in k && Closed(k, names)
    ensures EndsAt(t, k, names, d, c, rc) <==> !c.Dot? && Step(t, k, names, d, c) == Lost(rc)
  {
    ApartIs(t, k, names, d);
    if c.Plain? {
      FirstIs(t, names, k[d], c.name);
    }
  }

  /** What the last component of a path names: a directory that the rest spells, and its child
      of the name, if there is one. */
  ghost predicate Aims(t: UpcaseTable, k: Kids, p: Paths, names: Labels, path: seq<Comp>, older d: TreeNode, older e: TreeNode?) {
    && path != [] && path[|path| - 1].Plain? && path[|path| - 1].allowed
    && d in k && d in p && |p[d]| > 0 && d.isDir && Labelled(names, k[d])
    && Spells(t, names, path[..|path| - 1], p[d][1..])
    && if e == null then forall c :: c in k[d] ==> !SameName(t, path[|path| - 1].name, names[c])
       else e in k[d] && SameName(t, path[|path| - 1].name, names[e])
  }

  /** exfat_split finds a place exactly when the path aims at it. */
  lemma SplitAims(t: UpcaseTable, root: TreeNode, k: Kids, p: Paths, w: Web, names: Labels, path: seq<Comp>,
                  d: TreeNode, e: TreeNode?, name: Name)
    requires Good(t, root, k, p, w, names) && root in k && Closed(k, names)
    ensures Split(t, k, names, root, path) == Spot(d, e, name)
        <==> Aims(t, k, p, names, path, d, e) && name == path[|path| - 1].name
    ensures path != [] ==>
      var c, f := path[|path| - 1], Resolve(t, k, names, root, path[..|path| - 1]);
      && (f.Lost? ==> Split(t, k, names, root, path) == Nowhere(f.rc))
      && (f.Got? && !c.Dot? && !c.allowed ==> Split(t, k, names, root, path) == Nowhere(NoEntry))
  {
    hide Linked, Proper, Rooted, SiblingsApart, FilesChildless, Spells, Resolve, SameName;
    RootKnown(k, p, root);
    if path != [] {
      var front := path[..|path| - 1];
      ResolvesSpelled(t, root, k, p, names, root, front, d);
      if d in k && path[|path| - 1].Plain? {
        LastOfPath(k, p, root, d);
        PathsAreChains(k, p, root, d, 0);
        ApartIs(t, k, names, d);
        FirstIs(t, names, k[d], path[|path| - 1].name);
        if e != null && e in k[d] && SameName(t, path[|path| - 1].name, names[e]) {
          FirstIsUnique(t, names, k[d], path[|path| - 1].name, e);
        }
      }
    }
  }

  /** What exfat_rename answers before it looks for a slot. */
  ghost function RenameVerdict(k: Kids, p: Paths, n: TreeNode, dir: TreeNode, existing: TreeNode?): Rc
    requires dir in p && (existing != null ==> existing in k)
  {
    if n.isDir && n in p[dir] then Invalid
    else if existing == null || existing == n then Ok
    else if existing.isDir && !n.isDir then NotDir
    else if !existing.isDir && n.isDir then IsDir
    else if existing.isDir && k[existing] != [] then NotEmpty
    else Ok
  }

  /** The other children of the directory do not have the name. */
  lemma NameIsFree(t: UpcaseTable, root: TreeNode, k: Kids, p: Paths, w: Web, names: Labels, d: TreeNode, name: Name)
    requires Good(t, root, k, p, w, names) && d in k
    ensures Labelled(names, k[d])
    ensures var e := First(t, names, k[d], name);
      forall c :: c in k[d] && c != e ==> c in names && !SameName(t, name, names[c])
    ensures var e := First(t, names, k[d], name);
      e != null ==> Child(k, d, e)
  {
    hide Rooted, Linked;
    var s := k[d];
    assert Labelled(names, s) && Apart(t, names, s);
    FirstIs(t, names, s, name);
    var e := First(t, names, s, name);
    forall c | c in s && c != e
      ensures c in names && !SameName(t, name, names[c])
    {
      if SameName(t, name, names[c]) {
        FirstIsUnique(t, names, s, name, c);
      }
    }
  }

  /** The directory a node goes to is not below it: for a directory by the check, for a file
      because it has no children. */
  lemma NotBelow(t: UpcaseTable, root: TreeNode, k: Kids, p: Paths, w: Web, names: Labels, n: TreeNode, dir: TreeNode)
    requires Good(t, root, k, p, w, names) && n in k && dir in k && dir in p && dir.isDir
    requires n.isDir ==> n !in p[dir]
    ensures n !in p[dir]
  {
    if n in p[dir] {
      AncestorHasChildren(k, p, root, dir, n);
    }
  }

  /** Nothing between the root and a directory changes when its child e is cut and n is
      relocated to it. */
  lemma RenameKeepsUpTo(k: Kids, p: Paths, root: TreeNode, names: Labels, e: TreeNode?, n: TreeNode, dir: TreeNode, name: Name)
    requires Rooted(k, p, root) && Closed(k, names) && dir in k && n in k && n !in p[dir]
    requires e != null ==> Child(k, dir, e)
    ensures var k1 := if e != null && e != n then Cut(k, e) else k;
      var names1 := if e != null && e != n then names - {e} else names;
      KeptUpTo(k, p, names, Relocated(k1, n, dir), names1[n := name], dir)
  {
    var k1 := if e != null && e != n then Cut(k, e) else k;
    if e != null {
      ChildNotAbove(k, p, root, dir, e);
    }
    forall d, c | Child(k, d, c) && c in p[dir]
      ensures Child(Relocated(k1, n, dir), d, c)
    {
      if e != null && e != n {
        MinusHas(k[d], e, c);
        if d == e {
          KidOnPath(k, p, root, dir, d, c);
        }
      }
      MinusHas(k1[d], n, c);
    }
  }

  lemma ChildNotAbove(k: Kids, p: Paths, root: TreeNode, d: TreeNode, c: TreeNode)
    requires Rooted(k, p, root) && Child(k, d, c)
    ensures d in k && c in k && c !in p[d] && c != d
  {
    ChildIsBelow(k, p, root, d, c);
    LastOfPath(k, p, root, d);
    if c in p[d] {
      PathThrough(k, p, root, c, d);
    }
  }

  /** The parent of a node on a path is on the path. */
  lemma KidOnPath(k: Kids, p: Paths, root: TreeNode, x: TreeNode, d: TreeNode, c: TreeNode)
    requires Rooted(k, p, root) && x in k && Child(k, d, c) && c in p[x]
    ensures d in p[x]
  {
    PathThrough(k, p, root, c, x);
    ChildIsBelow(k, p, root, d, c);
    LastOfPath(k, p, root, d);
    assert p[x][..|p[c]|][|p[d]| - 1] == d;
  }

  /** Everything a rename does to the tree: cut e, relocate n to dir, name it. */
  ghost predicate RenameSteps(t: UpcaseTable, root: TreeNode, k: Kids, p: Paths, w: Web, names: Labels,
                              n: TreeNode, dir: TreeNode, existing: TreeNode?, name: Name) {
    && Good(t, root, k, p, w, names)
    && n in k && dir in k && dir.isDir && dir in p && n !in p[dir]
    && Labelled(names, k[dir]) && existing == First(t, names, k[dir], name)
  }

  ghost function CutFor(k: Kids, existing: TreeNode?, n: TreeNode): Kids {
    if existing != null && existing != n then Cut(k, existing) else k
  }

  ghost function NamesFor(names: Labels, existing: TreeNode?, n: TreeNode): Labels {
    if existing != null && existing != n then names - {existing} else names
  }

  ghost function PathsFor(p: Paths, existing: TreeNode?, n: TreeNode): Paths {
    if existing != null && existing != n then p - {existing} else p
  }

  /** After the target is gone the move is allowed. */
  lemma MayMoveAfterCut(t: UpcaseTable, root: TreeNode, k: Kids, p: Paths, w: Web, names: Labels,
                        n: TreeNode, dir: TreeNode, existing: TreeNode?, name: Name, w1: Web)
    requires RenameSteps(t, root, k, p, w, names, n, dir, existing, name)
    requires Good(t, root, CutFor(k, existing, n), PathsFor(p, existing, n), w1, NamesFor(names, existing, n))
    ensures MayMove(t, root, CutFor(k, existing, n), PathsFor(p, existing, n), w1, NamesFor(names, existing, n), n, dir, name)
  {
    hide Linked, SiblingsApart, Rooted;
    RootKnown(k, p, root);
    NameIsFree(t, root, k, p, w, names, dir, name);
    LastOfPath(k, p, root, dir);
    PathsAreChains(k, p, root, dir, 0);
    var k1, names1 := CutFor(k, existing, n), NamesFor(names, existing, n);
    if existing != null {
      ChildNotAbove(k, p, root, dir, existing);
    }
    assert n in k1 && n != root && dir in k1;
    forall c | c in k1[dir] && c != n
      ensures c in names1 && !SameName(t, name, names1[c])
    {
      if existing != null && existing != n {
        MinusHas(k[dir], existing, c);
      }
    }
  }

  /** The new path resolves to the moved node. */
  lemma RenamedResolves(t: UpcaseTable, root: TreeNode, k: Kids, p: Paths, w: Web, names: Labels,
                        n: TreeNode, path: seq<Comp>, k': Kids, names': Labels)
    requires Good(t, root, k, p, w, names) && root in k && root in k' && Closed(k, names)
    requires var s := Split(t, k, names, root, path);
      && s.Spot? && RenameSteps(t, root, k, p, w, names, n, s.dir, s.existing, s.name)
      && k' == Relocated(CutFor(k, s.existing, n), n, s.dir)
      && names' == NamesFor(names, s.existing, n)[n := s.name]
    requires SiblingsApart(t, k', names')
    ensures Resolve(t, k', names', root, path) == Got(n)
  {
    hide Linked, SiblingsApart, Rooted, KeptUpTo, First;
    var s := Split(t, k, names, root, path);
    NameIsFree(t, root, k, p, w, names, s.dir, s.name);
    RenameKeepsUpTo(k, p, root, names, s.existing, n, s.dir, s.name);
    if s.existing != null {
      ChildNotAbove(k, p, root, s.dir, s.existing);
    }
    assert Child(k', s.dir, n);
    SplitThenResolve(t, root, k, p, names, k', names', root, path, n);
  }

  lemma RelocatedKeys(k: Kids, n: TreeNode, to: TreeNode)
    ensures Relocated(k, n, to).Keys == k.Keys
  {
  }

  /** What exfat_rename does once both paths are resolved. Lack of space is met only where no
      target was removed; whatever fails changes nothing. */
  ghost predicate Replaced(k: Kids, p: Paths, names: Labels, n: TreeNode, dir: TreeNode, existing: TreeNode?, name: Name,
                           rc: Rc, k': Kids, names': Labels) {
    && dir in p && (existing != null ==> existing in k)
    && var verdict := RenameVerdict(k, p, n, dir, existing);
    if verdict != Ok then rc == verdict && k' == k && names' == names
    else if rc != Ok then rc == NoSpace && (existing == null || existing == n) && k' == k && names' == names
    else k' == Relocated(CutFor(k, existing, n), n, dir) && names' == NamesFor(names, existing, n)[n := name]
  }

  /** The outcome of exfat_rename in every case. */
  ghost predicate Renamed(k: Kids, p: Paths, names: Labels, src: Found, dst: Target,
                          rc: Rc, k': Kids, names': Labels) {
    if src.Lost? then rc == src.rc && k' == k && names' == names
    else if dst.Nowhere? then rc == dst.rc && k' == k && names' == names
    else Replaced(k, p, names, src.node, dst.dir, dst.existing, dst.name, rc, k', names')
  }

  lemma AddedKeys(k: Kids, to: TreeNode, n: TreeNode)
    requires to in k
    ensures Added(k, to, n).Keys == k.Keys + {n} == k[n := []].Keys
  {
  }

  lemma AddedResolves(t: UpcaseTable, root: TreeNode, k: Kids, p: Paths, w: Web, names: Labels,
                      n: TreeNode, path: seq<Comp>, k': Kids, names': Labels)
    requires Good(t, root, k, p, w, names) && root in k && root in k' && Closed(k, names)
    requires var s := Split(t, k, names, root, path);
      && s.Spot? && s.dir in k && n !in k
      && k' == Added(k, s.dir, n) && names' == names[n := s.name]
    requires SiblingsApart(t, k', names')
    ensures Resolve(t, k', names', root, path) == Got(n)
  {
    hide Linked, SiblingsApart, First;
    var s := Split(t, k, names, root, path);
    forall d, c | Child(k, d, c) && c in p[s.dir]
      ensures Child(k', d, c) && c in names && c in names' && names'[c] == names[c]
    {
      ChildIsBelow(k, p, root, d, c);
    }
    assert Child(k', s.dir, n);
    SplitThenResolve(t, root, k, p, names, k', names', root, path, n);
  }

  /** Two children of one directory never compare equal, and one name is found at most once. */
  lemma SiblingsCompareUnequal(t: UpcaseTable, root: TreeNode, k: Kids, p: Paths, w: Web, names: Labels,
                               d: TreeNode, i: nat, j: nat)
    requires Good(t, root, k, p, w, names) && d in k && i < j < |k[d]|
    ensures k[d][i] in names && k[d][j] in names && k[d][i] != k[d][j]
    ensures Comparison(t, names[k[d][i]], names[k[d][j]]) != 0
  {
    assert Labelled(names, k[d]) && Apart(t, names, k[d]);
    ComparesEqual(t, names[k[d][i]], names[k[d][j]]);
    assert ListOk(w, d, k[d]);
  }

  lemma ClearedOneByOne(w: Web, n: TreeNode)
    requires n in w
    ensures var w1 := w[n := w[n].(parent := null)];
      var w2 := w1[n := w1[n].(prev := null)];
      w2[n := w2[n].(next := null)] == w[n := w[n].(parent := null, prev := null, next := null)]
  {
  }
}
