/** The in-memory node tree: doubly linked child lists, path lookup, create, delete, rename. */
module Tree {
  import opened Names
  import opened TreeShape
  import opened Common

  ghost predicate UpAt(s: seq<TreeNode>, i: nat)
    requires i < |s|
    reads {s[i]}`parent
  {
    s[i].parent == At(s, i - 1)
  }

  ghost predicate NextAt(s: seq<TreeNode>, i: nat)
    requires i < |s|
    reads {s[i]}`next
  {
    s[i].next == At(s, i + 1)
  }

  class Tree {
    const root: TreeNode
    const table: UpcaseTable
    ghost var kids: Kids
    ghost var paths: Paths

    ghost function Snap(): Web
      reads this`kids, kids.Keys`parent, kids.Keys`child, kids.Keys`next, kids.Keys`prev
    {
      map n | n in kids :: Links(n.parent, n.child, n.next, n.prev)
    }

    ghost function Names(): Labels
      reads this`kids, kids.Keys`name
    {
      map n | n in kids :: n.name
    }

    ghost predicate Valid()
      reads this`kids, this`paths, kids.Keys
    {
      Good(table, root, kids, paths, Snap(), Names())
    }

    /** The mounted volume's tree before any directory entry is read or created. */
    constructor (root: TreeNode, table: UpcaseTable)
      requires root.isDir && root.parent == root.child == root.next == root.prev == null && Proper(table)
      ensures this.root == root && this.table == table && kids == map[root := []]
      ensures Valid()
    {
      this.root, this.table := root, table;
      kids, paths := map[root := []], map[root := [root]];
    }

    lemma SnapAt(n: TreeNode)
      requires n in kids
      ensures Snap().Keys == kids.Keys && Snap()[n] == Links(n.parent, n.child, n.next, n.prev)
    {
    }

    lemma NeighboursKnown(n: TreeNode)
      requires n in kids && Detachable(Snap(), n)
      ensures n.prev != null ==> n.prev in kids
      ensures n.next != null ==> n.next in kids
      ensures n.prev == null ==> n.parent != null && n.parent in kids
    {
      var w := Snap();
      assert forall m :: m in w ==> m in kids;
      assert w[n] == Links(n.parent, n.child, n.next, n.prev);
    }

    method SetNext(n: TreeNode, to: TreeNode?)
      requires n in kids
      modifies n`next
      ensures Snap() == old(Snap())[n := old(Snap())[n].(next := to)] && Names() == old(Names())
    {
      n.next := to;
    }

    method SetPrev(n: TreeNode, to: TreeNode?)
      requires n in kids
      modifies n`prev
      ensures Snap() == old(Snap())[n := old(Snap())[n].(prev := to)] && Names() == old(Names())
    {
      n.prev := to;
    }

    method SetChild(n: TreeNode, to: TreeNode?)
      requires n in kids
      modifies n`child
      ensures Snap() == old(Snap())[n := old(Snap())[n].(child := to)] && Names() == old(Names())
    {
      n.child := to;
    }

    method SetParent(n: TreeNode, to: TreeNode?)
      requires n in kids
      modifies n`parent
      ensures Snap() == old(Snap())[n := old(Snap())[n].(parent := to)] && Names() == old(Names())
    {
      n.parent := to;
    }

    /** tree_attach. The node's own `next` and `prev` are not reset. */
    method TreeAttach(dir: TreeNode, node: TreeNode)
      requires dir in kids && node in kids && (dir.child != null ==> dir.child in kids)
      modifies kids.Keys`child, kids.Keys`parent, kids.Keys`next, kids.Keys`prev
      ensures Snap() == AttachedWeb(old(Snap()), dir, node) && Names() == old(Names())
    {
      hide Snap, Names;
      SnapAt(dir);
      SnapAt(node);
      SetParent(node, dir);
      if dir.child != null {
        SetPrev(dir.child, node);
        SetNext(node, dir.child);
      }
      SetChild(dir, node);
    }

    method TreeDetach(node: TreeNode)
      requires node in kids && Detachable(Snap(), node)
      modifies kids.Keys`child, kids.Keys`parent, kids.Keys`next, kids.Keys`prev
      ensures Snap() == DetachedWeb(old(Snap()), node) && Names() == old(Names())
    {
      hide Snap, Names, Detachable;
      NeighboursKnown(node);
      SnapAt(node);
      ghost var w := Snap();
      if node.prev != null {
        SetNext(node.prev, node.next);
      } else {
        SetChild(node.parent, node.next);
      }
      SnapAt(node);
      if node.next != null {
        SetPrev(node.next, node.prev);
      }
      ghost var w2 := Snap();
      assert DetachedWeb(w, node) == w2[node := w2[node].(parent := null, prev := null, next := null)];
      ClearedOneByOne(w2, node);
      SetParent(node, null);
      SetPrev(node, null);
      SetNext(node, null);
    }

    lemma NodeLinks(d: TreeNode, i: nat)
      requires Linked(kids, Snap()) && d in kids && i < |kids[d]|
      ensures kids[d][i] in kids
      ensures kids[d][i].parent == d && kids[d][i].next == At(kids[d], i + 1)
    {
      var w := Snap();
      assert ListOk(w, d, kids[d]);
      assert NodeAt(w, d, kids[d], i);
      assert kids[d][i] in w;
    }

    lemma FirstChild(d: TreeNode)
      requires Linked(kids, Snap()) && d in kids
      ensures d.child == At(kids[d], 0)
    {
      assert ListOk(Snap(), d, kids[d]);
    }

    lemma Known()
      requires Valid()
      ensures root in kids && Closed(kids, Names()) && paths.Keys == kids.Keys && Proper(table) && root.isDir
      ensures Linked(kids, Snap())
      ensures forall d :: d in kids ==> Labelled(Names(), kids[d])
    {
      RootKnown(kids, paths, root);
    }

    /** lookup_name: walks the child list; the first name that compares equal wins. */
    method LookupName(d: TreeNode, name: Name) returns (c: TreeNode?)
      requires Valid() && d in kids
      ensures Valid() && Names() == old(Names())
      ensures Labelled(Names(), kids[d]) && c == First(table, Names(), kids[d], name)
    {
      hide Valid, Good, Rooted, Linked, Snap, Closed, Names, Proper, Loose, SiblingsApart, FilesChildless, Comparison;
      ghost var s, names := kids[d], Names();
      ListInMemory(d);
      c := d.child;
      ghost var i: nat := 0;
      while c != null
        invariant i <= |s| && c == At(s, i) && Labelled(names, s[i..])
        invariant First(table, names, s, name) == First(table, names, s[i..], name)
        decreases |s| - i
      {
        assert c == s[i] && NextAt(s, i);
        var rc := CompareName(table, name, c.name);
        assert s[i..][0] == c && s[i..][1..] == s[i + 1..];
        if rc == 0 {
          return;
        }
        c := c.next;
        i := i + 1;
      }
    }

    lemma ListInMemory(d: TreeNode)
      requires Valid() && d in kids
      ensures Labelled(Names(), kids[d]) && d.child == At(kids[d], 0)
      ensures forall i :: 0 <= i < |kids[d]| ==> kids[d][i] in Names() && kids[d][i].name == Names()[kids[d][i]]
      ensures forall i :: 0 <= i < |kids[d]| ==> NextAt(kids[d], i)
    {
      FirstChild(d);
      forall i | 0 <= i < |kids[d]|
        ensures kids[d][i] in kids && NextAt(kids[d], i)
      {
        NodeLinks(d, i);
      }
    }

    /** One step of a walk: conversion first, then the directory check that halts, then the search. */
    method TakeStep(d: TreeNode, comp: Comp) returns (f: Found)
      requires Valid() && d in kids && !comp.Dot?
      ensures Closed(kids, Names()) && f == Step(table, kids, Names(), d, comp)
      ensures f.Got? ==> f.node in kids
      ensures Valid() && Names() == old(Names())
    {
      if comp.Malformed? {
        return Lost(Unconvertible);
      }
      if !d.isDir {
        return Lost(Bug);
      }
      var c := LookupName(d, comp.name);
      if c == null {
        return Lost(NoEntry);
      }
      FirstInside(table, Names(), kids[d], comp.name);
      assert Child(kids, d, c);
      return Got(c);
    }

    /** exfat_lookup */
    method Lookup(path: seq<Comp>) returns (f: Found)
      requires Valid()
      ensures root in kids && Closed(kids, Names())
      ensures f == Resolve(table, kids, Names(), root, path)
      ensures f.Got? ==> f.node in kids
    {
      Known();
      ghost var k, names := kids, Names();
      f := Got(root);
      var i := 0;
      while i < |path|
        invariant i <= |path| && f.Got? && f.node in kids
        invariant Valid() && Names() == names
        invariant Resolve(table, k, names, root, path) == Resolve(table, k, names, f.node, path[i..])
      {
        assert path[i..][0] == path[i] && path[i..][1..] == path[i + 1..];
        if !path[i].Dot? {
          f := TakeStep(f.node, path[i]);
          if f.Lost? {
            return;
          }
        }
        i := i + 1;
      }
    }

    /** exfat_split */
    method SplitPath(path: seq<Comp>) returns (target: Target)
      requires Valid()
      ensures root in kids && Closed(kids, Names())
      ensures target == Split(table, kids, Names(), root, path)
    {
      hide Valid, Good, Rooted, Linked, Snap, Closed, Names, Proper, Resolve;
      Known();
      ghost var k, names := kids, Names();
      var parent := root;
      var i := 0;
      StayHere(table, k, names, root);
      while i < |path|
        invariant i <= |path| && parent in kids
        invariant Valid() && Names() == names
        invariant Resolve(table, k, names, root, path[..i]) == Got(parent)
        invariant i > 0 && i == |path| ==> path[i - 1].Dot? && Resolve(table, k, names, root, path[..i - 1]) == Got(parent)
      {
        assert path[..i + 1][..i] == path[..i];
        ResolveLast(table, k, names, root, path[..i + 1]);
        if !path[i].Dot? {
          if i == |path| - 1 {
            if !path[i].allowed {
              return Nowhere(NoEntry);
            }
            var last := TakeStep(parent, path[i]);
            if last.Lost? && (last.rc != NoEntry || path[i].Malformed?) {
              return Nowhere(last.rc);
            }
            return Spot(parent, if last.Got? then last.node else null, path[i].name);
          }
          var f := TakeStep(parent, path[i]);
          if f.Lost? {
            ResolveLost(table, k, names, root, path, i + 1);
            return Nowhere(f.rc);
          }
          parent := f.node;
        }
        i := i + 1;
      }
      return Nowhere(Bug);
    }

    /** The place of a node in its directory's list. */
    method Position(dir: TreeNode, node: TreeNode) returns (j: nat)
      requires Valid() && dir in kids && node in kids[dir]
      ensures j < |kids[dir]| && kids[dir][j] == node
    {
      hide Valid, Good, Rooted, Linked, Snap, Closed, Names, Proper, Loose, SiblingsApart, FilesChildless, Comparison;
      ghost var s := kids[dir];
      ListInMemory(dir);
      var c := dir.child;
      j := 0;
      while c != node
        invariant j <= |s| && c == At(s, j)
        invariant forall i :: 0 <= i < j ==> s[i] != node
        decreases |s| - j
      {
        assert j < |s| && NextAt(s, j);
        c := c.next;
        j := j + 1;
      }
    }

    /** A node other than the root is in the list of the directory its parent link names. */
    lemma UpLink(node: TreeNode)
      requires Valid() && node in kids && node != root
      ensures node.parent != null && node.parent in kids && node.parent.isDir && node in kids[node.parent]
    {
      hide Rooted, Linked, SiblingsApart;
      Place(table, root, kids, paths, Snap(), Names(), node);
      var d := ParentOf(paths, node);
      NodeLinks(d, IndexOf(kids[d], node));
    }

    /** The walk up the parent links that keeps a directory out of its own subtree. */
    method HasAncestor(dir: TreeNode, node: TreeNode) returns (found: bool)
      requires Valid() && dir in kids
      ensures dir in paths && found == (node in paths[dir])
    {
      hide Valid, Good, Rooted, Linked, Snap, Closed, Names, Proper, Labelled, Loose, SiblingsApart, FilesChildless, Comparison;
      AncestorsInMemory(dir);
      ghost var s := paths[dir];
      ghost var i: nat := |s|;
      var p: TreeNode? := dir;
      while p != null
        invariant i <= |s| && p == At(s, i - 1)
        invariant forall j :: i <= j < |s| ==> s[j] != node
        decreases i
      {
        if node == p {
          return true;
        }
        assert UpAt(s, i - 1) && s[i - 1] != node;
        p := p.parent;
        i := i - 1;
      }
      return false;
    }

    lemma AncestorsInMemory(x: TreeNode)
      requires Valid() && x in kids
      ensures x in paths && At(paths[x], |paths[x]| - 1) == x
      ensures forall j :: 0 <= j < |paths[x]| ==> UpAt(paths[x], j)
    {
      Known();
      LastOfPath(kids, paths, root, x);
      forall j | 0 <= j < |paths[x]|
        ensures UpAt(paths[x], j)
      {
        ParentOnPath(x, j);
      }
    }

    lemma ParentOnPath(x: TreeNode, i: nat)
      requires Valid() && x in kids && x in paths && i < |paths[x]|
      ensures paths[x][i].parent == At(paths[x], i - 1)
    {
      var s := paths[x];
      PathsAreChains(kids, paths, root, x, i);
      if i == 0 {
        SnapAt(root);
      } else {
        PathsAreChains(kids, paths, root, x, i - 1);
        var d := s[i - 1];
        var j := IndexOf(kids[d], s[i]);
        NodeLinks(d, j);
      }
    }

    /** The tree part of `delete`: the entry set is erased, the node leaves its list. */
    method Delete(node: TreeNode)
      requires Valid() && node in kids && node != root && kids[node] == []
      modifies this`kids, this`paths, kids.Keys`child, kids.Keys`parent, kids.Keys`next, kids.Keys`prev
      ensures Valid()
      ensures kids == Cut(old(kids), node) && node in old(paths) && paths == old(paths) - {node}
      ensures Names() == old(Names()) - {node}
    {
      hide Good, Cut, DetachedWeb, Detachable, Snap, Names;
      ghost var k, p, w, names := kids, paths, Snap(), Names();
      GoodCut(table, root, k, p, w, names, node);
      TreeDetach(node);
      assert k.Keys - (k.Keys - {node}) == {node};
      Record(Cut(k, node), p - {node});
    }

    /** Takes note of a changed tree; nodes that left it are no longer looked at. */
    ghost method Record(k: Kids, p: Paths)
      requires k.Keys <= kids.Keys
      modifies this`kids, this`paths
      ensures kids == k && paths == p
      ensures k.Keys == old(kids).Keys ==> Snap() == old(Snap()) && Names() == old(Names())
      ensures Snap() == old(Snap()) - (old(kids).Keys - k.Keys)
      ensures Names() == old(Names()) - (old(kids).Keys - k.Keys)
    {
      kids, paths := k, p;
    }

    method Unlink(node: TreeNode) returns (rc: Rc)
      requires Valid() && node in kids && node != root
      modifies this`kids, this`paths, kids.Keys`child, kids.Keys`parent, kids.Keys`next, kids.Keys`prev
      ensures Valid()
      ensures rc == if node.isDir then IsDir else Ok
      ensures rc == Ok ==> kids == Cut(old(kids), node) && paths == old(paths) - {node} && Names() == old(Names()) - {node}
      ensures rc != Ok ==> kids == old(kids) && paths == old(paths) && Snap() == old(Snap()) && Names() == old(Names())
    {
      if node.isDir {
        return IsDir;
      }
      Delete(node);
      return Ok;
    }

    method Rmdir(node: TreeNode) returns (rc: Rc)
      requires Valid() && node in kids && node != root
      modifies this`kids, this`paths, kids.Keys`child, kids.Keys`parent, kids.Keys`next, kids.Keys`prev
      ensures Valid()
      ensures rc == if !node.isDir then NotDir else if old(kids)[node] != [] then NotEmpty else Ok
      ensures rc == Ok ==> kids == Cut(old(kids), node) && paths == old(paths) - {node} && Names() == old(Names()) - {node}
      ensures rc != Ok ==> kids == old(kids) && paths == old(paths) && Snap() == old(Snap()) && Names() == old(Names())
    {
      if !node.isDir {
        return NotDir;
      }
      FirstChild(node);
      if node.child != null {
        return NotEmpty;
      }
      Delete(node);
      return Ok;
    }

    /** The end of rename_entry: the new name, then out of one list and into the other. */
    method MoveNode(dir: TreeNode, node: TreeNode, name: Name)
      requires MayMove(table, root, kids, paths, Snap(), Names(), node, dir, name)
      modifies this`kids, this`paths, kids.Keys
      ensures Valid()
      ensures kids == Relocated(old(kids), node, dir) && Names() == old(Names())[node := name]
    {
      hide Good, Relocated, MovedTo, DetachedWeb, Detachable, AttachedWeb, Snap, Names, MovedPaths, ParentOf;
      ghost var k, p, w, names := kids, paths, Snap(), Names();
      GoodMoved(table, root, k, p, w, names, node, dir, name);
      RelocatedIsMoved(table, root, k, p, w, names, node, dir);
      SetName(node, name);
      TreeDetach(node);
      SnapAt(dir);
      KeysOf();
      TreeAttach(dir, node);
      RelocatedKeys(k, node, dir);
      Record(Relocated(k, node, dir), MovedPaths(p, node, dir));
    }

    method SetName(n: TreeNode, name: Name)
      requires n in kids
      modifies n`name
      ensures Names() == old(Names())[n := name] && Snap() == old(Snap())
    {
      n.name := name;
    }

    lemma KeysOf()
      ensures Snap().Keys == kids.Keys && Names().Keys == kids.Keys
    {
    }

    /** The part of exfat_rename that makes room for the new name. */
    method RemoveTarget(node: TreeNode, existing: TreeNode) returns (rc: Rc)
      requires Valid() && existing in kids && existing != root && existing != node
      modifies this`kids, this`paths, kids.Keys`child, kids.Keys`parent, kids.Keys`next, kids.Keys`prev
      ensures Valid()
      ensures rc == if existing.isDir && !node.isDir then NotDir
                    else if !existing.isDir && node.isDir then IsDir
                    else if existing.isDir && old(kids)[existing] != [] then NotEmpty
                    else Ok
      ensures rc == Ok ==> kids == Cut(old(kids), existing)
      ensures rc == Ok ==> paths == old(paths) - {existing} && Names() == old(Names()) - {existing}
      ensures rc != Ok ==> kids == old(kids) && paths == old(paths) && Names() == old(Names())
    {
      hide Valid, Cut, Snap, Names;
      if existing.isDir {
        if node.isDir {
          rc := Rmdir(existing);
        } else {
          rc := NotDir;
        }
      } else {
        if !node.isDir {
          rc := Unlink(existing);
        } else {
          rc := IsDir;
        }
      }
    }

    lemma SpotKnown(path: seq<Comp>)
      requires Valid()
      ensures root in kids && Closed(kids, Names())
      ensures var s := Split(table, kids, Names(), root, path);
        s.Spot? ==>
          && s.dir in kids && s.dir in paths && s.dir.isDir
          && (s.existing != null ==> s.existing in kids && s.existing != root)
          && Labelled(Names(), kids[s.dir]) && s.existing == First(table, Names(), kids[s.dir], s.name)
    {
      Known();
      var s := Split(table, kids, Names(), root, path);
      if s.Spot? {
        SplitDescends(table, root, kids, paths, Names(), root, path);
        NameIsFree(table, root, kids, paths, Snap(), Names(), s.dir, s.name);
        if s.existing != null {
          ChildIsBelow(kids, paths, root, s.dir, s.existing);
        }
      }
    }

    lemma ReadyToRename(node: TreeNode, dir: TreeNode, existing: TreeNode?, name: Name)
      requires Valid() && node in kids && dir in kids && dir in paths && dir.isDir
      requires Labelled(Names(), kids[dir]) && existing == First(table, Names(), kids[dir], name)
      requires node.isDir ==> node !in paths[dir]
      ensures RenameSteps(table, root, kids, paths, Snap(), Names(), node, dir, existing, name)
    {
      hide Good;
      NotBelow(table, root, kids, paths, Snap(), Names(), node, dir);
    }

    lemma GoodNow()
      requires Valid()
      ensures Good(table, root, kids, paths, Snap(), Names()) && SiblingsApart(table, kids, Names())
    {
    }

    /** commit_entry: a new node at the head of its directory. */
    method CommitEntry(dir: TreeNode, name: Name, isDir: bool) returns (node: TreeNode)
      requires Valid() && dir in kids && dir.isDir
      requires Labelled(Names(), kids[dir]) && First(table, Names(), kids[dir], name) == null
      modifies this`kids, this`paths, kids.Keys`child, kids.Keys`parent, kids.Keys`next, kids.Keys`prev
      ensures Valid()
      ensures fresh(node) && node !in old(kids) && node.isDir == isDir
      ensures kids == Added(old(kids), dir, node) && Names() == old(Names())[node := name]
    {
      hide *;
      ghost var k, p, w, names := kids, paths, Snap(), Names();
      GoodNow();
      Known();
      node := new TreeNode(name, isDir);
      assert node !in k;
      ChildKnown(dir);
      ReadyToAdd(node, dir, name);
      GoodAdded(table, root, k, p, w, names, node, dir, name);
      AttachNew(dir, node);
      Record(Added(k, dir, node), p[node := p[dir] + [node]]);
      ValidNow();
    }

    method AttachNew(dir: TreeNode, node: TreeNode)
      requires dir in kids && (dir.child != null ==> dir.child in kids)
      requires node !in kids && node.parent == node.child == node.next == node.prev == null
      modifies this`kids, kids.Keys`child, kids.Keys`parent, kids.Keys`next, kids.Keys`prev
      modifies node`child, node`parent, node`next, node`prev
      ensures kids == old(kids)[node := []] && kids.Keys == Added(old(kids), dir, node).Keys
      ensures paths == old(paths)
      ensures dir in old(Snap()) && var w1 := old(Snap())[node := NO_LINKS];
        && (w1[dir].child != null ==> w1[dir].child in w1)
        && Snap() == AttachedWeb(w1, dir, node)
      ensures Names() == old(Names())[node := node.name] && node.name == old(node.name)
    {
      hide *;
      AddedKeys(kids, dir, node);
      KeysOf();
      Admit(node);
      SnapAt(dir);
      KeysOf();
      TreeAttach(dir, node);
    }

    lemma ChildKnown(d: TreeNode)
      requires Linked(kids, Snap()) && d in kids
      ensures d.child != null ==> d.child in kids
    {
      FirstChild(d);
      if kids[d] != [] {
        NodeLinks(d, 0);
      }
    }

    ghost method Admit(node: TreeNode)
      requires node !in kids && node.parent == node.child == node.next == node.prev == null
      modifies this`kids
      ensures kids == old(kids)[node := []] && kids.Keys == old(kids).Keys + {node}
      ensures Snap() == old(Snap())[node := NO_LINKS] && Names() == old(Names())[node := node.name]
    {
      kids := kids[node := []];
    }

    lemma ValidNow()
      requires Good(table, root, kids, paths, Snap(), Names())
      ensures Valid()
    {
    }

    lemma ReadyToAdd(node: TreeNode, dir: TreeNode, name: Name)
      requires Valid() && node !in kids && dir in kids && dir.isDir
      requires Labelled(Names(), kids[dir]) && First(table, Names(), kids[dir], name) == null
      ensures MayAdd(table, root, kids, paths, Snap(), Names(), node, dir, name)
    {
      hide Good;
      NameIsFree(table, root, kids, paths, Snap(), Names(), dir, name);
    }
  }
}
