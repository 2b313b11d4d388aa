/** The node tree and the entry sets of its directories together: create, mkdir, remove and
    rename with the space they need. */
module Namespaces {
  import opened Arith
  import opened Common
  import opened Names
  import opened TreeShape
  import Tree
  import Slots

  /** The entry sets of one directory, and the types of all its entries. */
  datatype Listing = Listing(kids: seq<Slots.Kid>, types: seq<Byte>)

  type Shelf = map<TreeNode, Listing>

  /** All there is: the tree, the names, the entry sets, the clusters of files, the free ones. */
  datatype Picture = Picture(kids: Kids, paths: Paths, names: Labels, shelf: Shelf, owned: map<TreeNode, nat>, free: nat)

  // ---- How the tree and the entry sets agree, on values.

  /** The i-th set belongs to the i-th child, and has room for its name. */
  ghost predicate ListMatches(names: Labels, s: seq<TreeNode>, kids: seq<Slots.Kid>) {
    && |s| == |kids|
    && (forall i :: 0 <= i < |s| ==> s[i] in names && kids[i].nameLength == |names[s[i]]|)
  }

  ghost predicate Matching(k: Kids, names: Labels, shelf: Shelf) {
    && (forall d :: d in shelf ==> d in k && d.isDir)
    && (forall d :: d in k && d.isDir ==> d in shelf)
    && (forall d :: d in shelf ==> ListMatches(names, k[d], shelf[d].kids))
  }

  ghost predicate OwnedByFiles(k: Kids, owned: map<TreeNode, nat>) {
    && (forall n :: n in owned ==> n in k && !n.isDir)
    && (forall n :: n in k && !n.isDir ==> n in owned)
  }

  ghost predicate Agree(k: Kids, names: Labels, shelf: Shelf, owned: map<TreeNode, nat>, perCluster: nat) {
    Matching(k, names, shelf) && OwnedByFiles(k, owned) && Tidy(shelf, perCluster)
  }

  ghost predicate Tidy(shelf: Shelf, perCluster: nat) {
    && perCluster >= 16
    && (forall d :: d in shelf ==>
          Slots.Good(shelf[d].kids, shelf[d].types, perCluster) && Slots.AllSnug(shelf[d].kids, perCluster))
  }

  /** The place of one child in a tree. */
  ghost predicate Hung(k: Kids, p: Paths, root: TreeNode, d: TreeNode, i: nat) {
    Rooted(k, p, root) && d in k && i < |k[d]| && NoDup(k[d])
  }

  lemma CutMatches(k: Kids, p: Paths, root: TreeNode, names: Labels, shelf: Shelf, d: TreeNode, i: nat, types: seq<Byte>)
    requires Hung(k, p, root, d, i) && Matching(k, names, shelf) && d in shelf
    ensures i < |shelf[d].kids|
    ensures Matching(Cut(k, k[d][i]), names - {k[d][i]},
                     shelf[d := Listing(Without(shelf[d].kids, i), types)] - {k[d][i]})
  {
    hide Rooted, NoDup, ListMatches, Without;
    var n := k[d][i];
    MatchesLength(names, k[d], shelf[d].kids);
    CutKeys(k, n);
    var shelf' := shelf[d := Listing(Without(shelf[d].kids, i), types)] - {n};
    forall e | e in shelf'
      ensures ListMatches(names - {n}, Cut(k, n)[e], shelf'[e].kids)
    {
      MinusElsewhere(k, p, root, d, i, e);
      AllButOne(k, p, root, d, i, e);
      if e == d {
        ListWithout(names, k[d], shelf[d].kids, i);
      }
      ListForgot(names, Minus(k[e], n), if e == d then Without(shelf[d].kids, i) else shelf[e].kids, n);
    }
  }

  /** A node that is not in the list may lose its name. */
  lemma ListForgot(names: Labels, s: seq<TreeNode>, kids: seq<Slots.Kid>, n: TreeNode)
    requires ListMatches(names, s, kids) && n !in s
    ensures ListMatches(names - {n}, s, kids)
  {
  }

  /** A child is in its own list once, and in no other. */
  lemma AllButOne(k: Kids, p: Paths, root: TreeNode, d: TreeNode, i: nat, e: TreeNode)
    requires Hung(k, p, root, d, i) && e in k
    ensures e != d ==> k[d][i] !in k[e]
    ensures k[d][i] !in Without(k[d], i)
  {
    WithoutHas(k[d], i, k[d][i]);
    if e != d && k[d][i] in k[e] {
      OneParent(k, p, root, d, e, k[d][i]);
    }
  }

  lemma AgreeCut(k: Kids, p: Paths, root: TreeNode, names: Labels, shelf: Shelf, owned: map<TreeNode, nat>, perCluster: nat,
                 d: TreeNode, i: nat, types: seq<Byte>)
    requires Hung(k, p, root, d, i) && Agree(k, names, shelf, owned, perCluster) && d in shelf
    requires i < |shelf[d].kids| && Tidy(shelf[d := Listing(Without(shelf[d].kids, i), types)], perCluster)
    ensures Agree(Cut(k, k[d][i]), names - {k[d][i]}, shelf[d := Listing(Without(shelf[d].kids, i), types)] - {k[d][i]},
                  owned - {k[d][i]}, perCluster)
  {
    hide Matching, Tidy, Rooted, NoDup;
    CutMatches(k, p, root, names, shelf, d, i, types);
    CutKeys(k, k[d][i]);
    TidyLess(shelf[d := Listing(Without(shelf[d].kids, i), types)], perCluster, k[d][i]);
  }

  lemma AgreeParts(k: Kids, names: Labels, shelf: Shelf, owned: map<TreeNode, nat>, perCluster: nat)
    requires Agree(k, names, shelf, owned, perCluster)
    ensures Matching(k, names, shelf) && OwnedByFiles(k, owned) && Tidy(shelf, perCluster)
  {
  }

  lemma ChildIsOther(k: Kids, p: Paths, root: TreeNode, d: TreeNode, i: nat)
    requires Hung(k, p, root, d, i)
    ensures k[d][i] != d
  {
    assert Child(k, d, k[d][i]);
    ChildIsBelow(k, p, root, d, k[d][i]);
  }

  /** The entry sets after a rename: the old set gone, a new one at the head of `to`. */
  ghost function Reshelved(shelf: Shelf, d: TreeNode, i: nat, to: TreeNode, k: Slots.Kid, from: seq<Byte>, into: seq<Byte>): Shelf
    requires d in shelf && to in shelf && i < |shelf[d].kids|
  {
    var off := shelf[d := Listing(Without(shelf[d].kids, i), from)];
    off[to := Listing([k] + off[to].kids, into)]
  }

  lemma RelistedIs(shelf: Shelf, d: TreeNode, i: nat, to: TreeNode, k: Slots.Kid, length: nat, shelf': Shelf)
    requires d in shelf && to in shelf && i < |shelf[d].kids| && d in shelf' && to in shelf'
    requires shelf' == shelf[d := shelf'[d]][to := shelf'[to]]
    requires |shelf'[to].kids| > 0 && shelf'[to].kids[0] == k == Slots.NewKid(k.offset, length)
    requires d != to ==> shelf'[d].kids == Without(shelf[d].kids, i)
    requires shelf'[to].kids[1..] == if d == to then Without(shelf[d].kids, i) else shelf[to].kids
    ensures shelf' == Reshelved(shelf, d, i, to, Slots.NewKid(k.offset, length), shelf'[d].types, shelf'[to].types)
  {
    hide Slots.NewKid;
    assert shelf'[to].kids == [k] + shelf'[to].kids[1..];
  }

  /** A new name for a node that is not in the list. */
  lemma ListKept(names: Labels, s: seq<TreeNode>, kids: seq<Slots.Kid>, n: TreeNode, name: Name)
    requires ListMatches(names, s, kids) && n !in s
    ensures ListMatches(names[n := name], s, kids)
  {
  }

  lemma ListWithout(names: Labels, s: seq<TreeNode>, kids: seq<Slots.Kid>, i: nat)
    requires ListMatches(names, s, kids) && i < |s|
    ensures ListMatches(names, Without(s, i), Without(kids, i))
  {
    forall m | 0 <= m < |s| - 1
      ensures Without(s, i)[m] in names && Without(kids, i)[m].nameLength == |names[Without(s, i)[m]]|
    {
      var o := if m < i then m else m + 1;
      assert Without(s, i)[m] == s[o] && Without(kids, i)[m] == kids[o];
    }
  }

  lemma ListFront(names: Labels, s: seq<TreeNode>, kids: seq<Slots.Kid>, n: TreeNode, kid: Slots.Kid)
    requires ListMatches(names, s, kids) && n in names && kid.nameLength == |names[n]|
    ensures ListMatches(names, [n] + s, [kid] + kids)
  {
  }

  lemma MoveMatches(k: Kids, p: Paths, root: TreeNode, names: Labels, shelf: Shelf, d: TreeNode, i: nat,
                    to: TreeNode, name: Name, kid: Slots.Kid, from: seq<Byte>, into: seq<Byte>)
    requires Hung(k, p, root, d, i) && Matching(k, names, shelf) && d in shelf && to in shelf
    requires kid.nameLength == |name|
    ensures i < |shelf[d].kids|
    ensures Matching(Relocated(k, k[d][i], to), names[k[d][i] := name], Reshelved(shelf, d, i, to, kid, from, into))
  {
    hide Rooted, NoDup, ListMatches, Without;
    var n, names' := k[d][i], names[k[d][i] := name];
    MatchesLength(names, k[d], shelf[d].kids);
    RelocatedKeys(k, n, to);
    var shelf' := Reshelved(shelf, d, i, to, kid, from, into);
    forall e | e in shelf'
      ensures ListMatches(names', Relocated(k, n, to)[e], shelf'[e].kids)
    {
      MinusElsewhere(k, p, root, d, i, e);
      AllButOne(k, p, root, d, i, e);
      var kept := if e == d then Without(shelf[d].kids, i) else shelf[e].kids;
      if e == d {
        ListWithout(names, k[d], shelf[d].kids, i);
      }
      ListKept(names, Minus(k[e], n), kept, n, name);
      if e == to {
        ListFront(names', Minus(k[e], n), kept, n, kid);
      } else {
        assert [] + Minus(k[e], n) == Minus(k[e], n);
      }
    }
  }

  lemma MatchesLength(names: Labels, s: seq<TreeNode>, kids: seq<Slots.Kid>)
    requires ListMatches(names, s, kids)
    ensures |s| == |kids|
  {
  }

  lemma AgreeMoved(k: Kids, p: Paths, root: TreeNode, names: Labels, shelf: Shelf, owned: map<TreeNode, nat>, perCluster: nat,
                   d: TreeNode, i: nat, to: TreeNode, name: Name, kid: Slots.Kid, shelf': Shelf)
    requires Hung(k, p, root, d, i) && Agree(k, names, shelf, owned, perCluster) && d in shelf && to in shelf
    requires i < |shelf[d].kids| && kid.nameLength == |name| && Tidy(shelf', perCluster)
    requires d in shelf' && to in shelf' && shelf' == Reshelved(shelf, d, i, to, kid, shelf'[d].types, shelf'[to].types)
    ensures Agree(Relocated(k, k[d][i], to), names[k[d][i] := name], shelf', owned, perCluster)
  {
    hide Matching, Tidy, Rooted, NoDup;
    MoveMatches(k, p, root, names, shelf, d, i, to, name, kid, shelf'[d].types, shelf'[to].types);
    RelocatedKeys(k, k[d][i], to);
  }

  /** The shelf with the entry set of a new node. */
  ghost function Shelved(shelf: Shelf, d: TreeNode, k: Slots.Kid, types: seq<Byte>): Shelf
    requires d in shelf
  {
    shelf[d := Listing([k] + shelf[d].kids, types)]
  }

  lemma AddMatches(k: Kids, names: Labels, shelf: Shelf, d: TreeNode, n: TreeNode, name: Name,
                   kid: Slots.Kid, types: seq<Byte>, fresher: Listing)
    requires Matching(k, names, shelf) && Closed(k, names) && d in shelf && n !in k && kid.nameLength == |name|
    requires fresher.kids == []
    ensures var shelf' := Shelved(shelf, d, kid, types);
      Matching(Added(k, d, n), names[n := name], if n.isDir then shelf'[n := fresher] else shelf')
  {
    hide ListMatches, Closed;
    AddedKeys(k, d, n);
    var names' := names[n := name];
    forall e | e in shelf
      ensures ListMatches(names', Added(k, d, n)[e], Shelved(shelf, d, kid, types)[e].kids)
    {
      NotListed(k, names, e, n);
      ListKept(names, k[e], shelf[e].kids, n, name);
      if e == d {
        ListFront(names', k[e], shelf[e].kids, n, kid);
      }
    }
    NothingListed(names');
  }

  lemma NotListed(k: Kids, names: Labels, d: TreeNode, n: TreeNode)
    requires Closed(k, names) && d in k && n !in k
    ensures n !in k[d]
  {
    assert n in k[d] ==> Child(k, d, n);
  }

  lemma NothingListed(names: Labels)
    ensures ListMatches(names, [], [])
  {
  }

  /** All that a new node still lacks is its own listing, or its cluster count. */
  ghost predicate Completable(k: Kids, names: Labels, shelf: Shelf, owned: map<TreeNode, nat>, perCluster: nat, n: TreeNode) {
    && Tidy(shelf, perCluster) && n !in shelf && n !in owned
    && if n.isDir then Agree(k, names, shelf[n := Listing([], Zeros(perCluster))], owned, perCluster)
       else Agree(k, names, shelf, owned[n := 0], perCluster)
  }

  lemma AgreeAdded(k: Kids, names: Labels, shelf: Shelf, owned: map<TreeNode, nat>, perCluster: nat,
                   d: TreeNode, n: TreeNode, name: Name, kid: Slots.Kid, types: seq<Byte>)
    requires Agree(k, names, shelf, owned, perCluster) && Closed(k, names) && d in shelf && n !in k
    requires kid.nameLength == |name| && Tidy(Shelved(shelf, d, kid, types), perCluster)
    ensures Completable(Added(k, d, n), names[n := name], Shelved(shelf, d, kid, types), owned, perCluster, n)
  {
    hide Slots.AllSnug, Slots.Good, Closed, ListMatches;
    AddMatches(k, names, shelf, d, n, name, kid, types, Listing([], Zeros(perCluster)));
    AddedKeys(k, d, n);
    BlankIsGood(perCluster);
  }

  lemma OnlyKnown(k: Kids, names: Labels, shelf: Shelf, owned: map<TreeNode, nat>, perCluster: nat, n: TreeNode)
    requires Agree(k, names, shelf, owned, perCluster)
    ensures n !in k ==> n !in shelf && n !in owned
  {
  }

  lemma BlankIsGood(perCluster: nat)
    requires perCluster >= 16
    ensures Slots.Good([], Zeros(perCluster), perCluster) && Slots.AllSnug([], perCluster)
  {
    DivModUnique(perCluster, perCluster, 1);
  }

  lemma CutAdded(k: Kids, names: Labels, d: TreeNode, n: TreeNode, name: Name)
    requires Closed(k, names) && d in k && n !in k
    ensures Cut(Added(k, d, n), n) == k && names[n := name] - {n} == names
  {
    AddedKeys(k, d, n);
    var k' := Added(k, d, n);
    forall e | e in k
      ensures Minus(k'[e], n) == k[e]
    {
      assert forall c :: c in k[e] ==> Child(k, e, c);
      MinusAbsent(k[e], n);
    }
  }

  /** Names that a directory takes for the same are equally long: a target that is replaced
      leaves room for the name that replaces it. */
  lemma ReplacedAsLong(t: UpcaseTable, names: Labels, s: seq<TreeNode>, name: Name)
    requires Labelled(names, s) && Proper(t) && First(t, names, s, name) != null
    ensures var e := First(t, names, s, name);
      e in s && |names[e]| == |name|
  {
    FirstIs(t, names, s, name);
    var e := First(t, names, s, name);
    assert |Upper(t, names[e])| == |Upper(t, name)|;
  }

  /** No slot for a name of this length, and no space to make one. */
  ghost predicate Full(shelf: Shelf, root: TreeNode, d: TreeNode, length: nat, perCluster: nat, free: nat) {
    && d in shelf && perCluster > 0
    && Slots.NoRoom(d == root, shelf[d].kids, shelf[d].types, Slots.SetLength(length), perCluster, free)
  }

  /** The slot for the name takes the last free cluster, or there was none. */
  ghost predicate Spent(shelf: Shelf, root: TreeNode, d: TreeNode, length: nat, perCluster: nat, free: nat) {
    && d in shelf && perCluster > 0
    && Slots.Spent(d == root, shelf[d].kids, shelf[d].types, Slots.SetLength(length), perCluster, free)
  }

  // ---- All clusters.

  ghost function Sum(m: map<TreeNode, nat>): nat {
    if m == map[] then 0
    else
      var k :| k in m;
      m[k] + Sum(m - {k})
  }

  lemma {:induction false} SumWithout(m: map<TreeNode, nat>, k: TreeNode)
    requires k in m
    ensures Sum(m) == m[k] + Sum(m - {k})
    decreases |m|
  {
    var c :| c in m && Sum(m) == m[c] + Sum(m - {c});
    if c != k {
      SumWithout(m - {c}, k);
      SumWithout(m - {k}, c);
      assert m - {c} - {k} == m - {k} - {c};
    }
  }

  lemma SumWith(m: map<TreeNode, nat>, k: TreeNode, v: nat)
    ensures Sum(m[k := v]) == Sum(m - {k}) + v
  {
    SumWithout(m[k := v], k);
    assert m[k := v] - {k} == m - {k};
  }

  /** The clusters of each directory. */
  ghost function Sizes(shelf: Shelf, perCluster: nat): (m: map<TreeNode, nat>)
    requires perCluster > 0
    ensures m.Keys == shelf.Keys
  {
    map d | d in shelf :: Quotient(|shelf[d].types|, perCluster)
  }

  /** The clusters of all directories and files, with those that are free. */
  ghost function TotalOf(shelf: Shelf, owned: map<TreeNode, nat>, free: nat, perCluster: nat): nat {
    if perCluster == 0 then 0 else Sum(Sizes(shelf, perCluster)) + Sum(owned) + free
  }

  /** A directory that is as long as before, or has paid for its clusters. */
  lemma TotalListed(shelf: Shelf, d: TreeNode, l: Listing, owned: map<TreeNode, nat>, free: nat, left: nat, perCluster: nat)
    requires d in shelf && perCluster > 0
    requires Slots.Room(left, |l.types|, perCluster) == Slots.Room(free, |shelf[d].types|, perCluster)
    ensures TotalOf(shelf[d := l], owned, left, perCluster) == TotalOf(shelf, owned, free, perCluster)
  {
    hide Quotient;
    var m := Sizes(shelf, perCluster);
    SumWithout(m, d);
    SumWith(m, d, Quotient(|l.types|, perCluster));
    assert Sizes(shelf[d := l], perCluster) == m[d := Quotient(|l.types|, perCluster)];
  }

  /** One directory keeps its length, then another pays. */
  lemma TotalRelisted(shelf: Shelf, d: TreeNode, to: TreeNode, from: Listing, into: Listing, owned: map<TreeNode, nat>,
                      free: nat, left: nat, perCluster: nat)
    requires d in shelf && to in shelf && perCluster > 0
    requires d != to ==> |from.types| == |shelf[d].types|
    requires Slots.Room(left, |into.types|, perCluster) == Slots.Room(free, |shelf[to].types|, perCluster)
    ensures TotalOf(shelf[d := from][to := into], owned, left, perCluster) == TotalOf(shelf, owned, free, perCluster)
  {
    hide TotalOf, Slots.Room;
    if d == to {
      assert shelf[d := from][to := into] == shelf[to := into];
      TotalListed(shelf, to, into, owned, free, left, perCluster);
    } else {
      TotalListed(shelf, d, from, owned, free, free, perCluster);
      TotalListed(shelf[d := from], to, into, owned, free, left, perCluster);
    }
  }

  lemma TotalDirGone(shelf: Shelf, n: TreeNode, owned: map<TreeNode, nat>, free: nat, perCluster: nat)
    requires n in shelf && perCluster > 0
    ensures TotalOf(shelf - {n}, owned, free + Quotient(|shelf[n].types|, perCluster), perCluster) == TotalOf(shelf, owned, free, perCluster)
  {
    hide Quotient;
    SumWithout(Sizes(shelf, perCluster), n);
    assert Sizes(shelf - {n}, perCluster) == Sizes(shelf, perCluster) - {n};
  }

  lemma TotalFileGone(shelf: Shelf, n: TreeNode, owned: map<TreeNode, nat>, free: nat, perCluster: nat)
    requires n in owned
    ensures TotalOf(shelf, owned - {n}, free + owned[n], perCluster) == TotalOf(shelf, owned, free, perCluster)
  {
    SumWithout(owned, n);
  }

  lemma TotalFileNew(shelf: Shelf, n: TreeNode, owned: map<TreeNode, nat>, free: nat, perCluster: nat)
    requires n !in owned
    ensures TotalOf(shelf, owned[n := 0], free, perCluster) == TotalOf(shelf, owned, free, perCluster)
  {
    SumWith(owned, n, 0);
    assert owned - {n} == owned;
  }

  lemma TotalDirNew(shelf: Shelf, n: TreeNode, l: Listing, owned: map<TreeNode, nat>, free: nat, perCluster: nat)
    requires n !in shelf && perCluster > 0 && |l.types| == perCluster && free > 0
    ensures TotalOf(shelf[n := l], owned, free - 1, perCluster) == TotalOf(shelf, owned, free, perCluster)
  {
    var m := Sizes(shelf, perCluster);
    DivModUnique(perCluster, perCluster, 1);
    SumWith(m, n, 1);
    assert m - {n} == m;
    assert Sizes(shelf[n := l], perCluster) == m[n := 1];
  }

  // ---- Entries of the root that belong to no child.

  ghost predicate Kept(b: Listing, a: Listing) {
    Slots.StraysKept(b.kids, b.types, a.kids, a.types)
  }

  ghost predicate NoneNew(b: Listing, a: Listing) {
    Slots.NoNewStray(b.kids, b.types, a.kids, a.types)
  }

  /** A run for the name that holds none, or a tail without one. */
  ghost predicate SlotClean(l: Listing, length: nat) {
    Slots.SlotClean(l.kids, l.types, Slots.SetLength(length))
  }

  /** `delete` of the j-th child. */
  ghost function Cleared(l: Listing, j: nat, perCluster: nat): Listing
    requires j < |l.kids| && perCluster > 0
  {
    var rest := Without(l.kids, j);
    Listing(rest, Slots.Shrunk(Slots.Erased(l.types, l.kids[j]), rest, l.kids[j].offset, perCluster))
  }

  /** All lie inside a directory of this size. */
  ghost predicate StraysBelow(l: Listing, size: nat) {
    forall e: nat :: Slots.Stray(l.kids, l.types, e) ==> e < size
  }

  /** What a slot for a name in `d` does to the entries of the root without a node. */
  ghost predicate SlotKeeps(b: Shelf, a: Shelf, root: TreeNode, d: TreeNode, length: nat) {
    && root in b && root in a && NoneNew(b[root], a[root])
    && (Kept(b[root], a[root]) <==> d != root || SlotClean(b[root], length))
  }

  /** The same when the set is erased again and the directory cut. */
  ghost predicate UndoneKeeps(b: Shelf, a: Shelf, root: TreeNode, d: TreeNode, length: nat) {
    && root in b && root in a && NoneNew(b[root], a[root])
    && (Kept(b[root], a[root]) <==>
          d != root || (SlotClean(b[root], length) && StraysBelow(b[root], |a[root].types|)))
  }

  lemma UndoneKept(b: Shelf, m: Shelf, a: Shelf, root: TreeNode, d: TreeNode, length: nat, perCluster: nat)
    requires SlotKeeps(b, m, root, d, length) && Tidy(m, perCluster) && perCluster > 0 && d in m && |m[d].kids| > 0
    requires a == m[d := Cleared(m[d], 0, perCluster)]
    ensures UndoneKeeps(b, a, root, d, length)
  {
    hide Kept, NoneNew, SlotClean, StraysBelow, Slots.CutClean, Slots.Good, Slots.AllSnug, Cleared;
    if d == root {
      ClearedKeeps(m[root], 0, perCluster);
      KeptTwice(b[root], m[root], a[root]);
      if Kept(b[root], m[root]) {
        SameBelow(b[root], m[root], |a[root].types|);
      }
    }
  }

  lemma SameBelow(b: Listing, a: Listing, size: nat)
    requires Kept(b, a) && NoneNew(b, a)
    ensures StraysBelow(b, size) <==> StraysBelow(a, size)
  {
    hide Slots.Stray;
  }

  /** What `delete` of the j-th child of `dir` and its clean-up leave. */
  ghost predicate Vacated(k: Kids, b: Shelf, root: TreeNode, gone: TreeNode, dir: TreeNode, j: nat, perCluster: nat, a: Shelf) {
    && perCluster > 0 && dir in k && j < |k[dir]| && k[dir][j] == gone
    && dir in b && j < |b[dir].kids|
    && a == b[dir := Cleared(b[dir], j, perCluster)] - {gone}
    && root in b && root in a && NoneNew(b[root], a[root])
    && (Kept(b[root], a[root]) <==> dir != root || Slots.CutClean(b[root].kids, b[root].types, j, perCluster))
  }

  /** What a rename over a target does to the entries of the root without a node: the target's
      set goes and the directory is cut, then a slot is taken in what is left. */
  ghost predicate ReplaceKeeps(k: Kids, b: Shelf, a: Shelf, root: TreeNode, gone: TreeNode, dir: TreeNode, j: nat,
                               length: nat, perCluster: nat) {
    && perCluster > 0 && dir in k && j < |k[dir]| && k[dir][j] == gone
    && root in b && root in a && NoneNew(b[root], a[root])
    && (dir == root ==> j < |b[root].kids|)
    && (Kept(b[root], a[root]) <==>
          dir != root || (&& Slots.CutClean(b[root].kids, b[root].types, j, perCluster)
                          && SlotClean(Cleared(b[root], j, perCluster), length)))
  }

  /** A target other than the node itself is removed first. */
  ghost predicate RenameKeeps(k: Kids, b: Shelf, a: Shelf, root: TreeNode, node: TreeNode, existing: TreeNode?, dir: TreeNode,
                              length: nat, perCluster: nat) {
    if existing == null || existing == node then SlotKeeps(b, a, root, dir, length)
    else exists j :: ReplaceKeeps(k, b, a, root, existing, dir, j, length, perCluster)
  }

  lemma VacatedThenSlot(k: Kids, b: Shelf, m: Shelf, a: Shelf, root: TreeNode, node: TreeNode, gone: TreeNode, dir: TreeNode,
                        j: nat, length: nat, perCluster: nat)
    requires Vacated(k, b, root, gone, dir, j, perCluster, m) && SlotKeeps(m, a, root, dir, length) && gone != node
    ensures RenameKeeps(k, b, a, root, node, gone, dir, length, perCluster)
  {
    hide Kept, NoneNew, SlotClean, Slots.CutClean, Cleared;
    KeptTwice(b[root], m[root], a[root]);
    assert ReplaceKeeps(k, b, a, root, gone, dir, j, length, perCluster);
  }

  lemma SlotKeepsRenamed(k: Kids, b: Shelf, a: Shelf, root: TreeNode, node: TreeNode, existing: TreeNode?, dir: TreeNode,
                         length: nat, perCluster: nat)
    requires SlotKeeps(b, a, root, dir, length) && (existing == null || existing == node)
    ensures RenameKeeps(k, b, a, root, node, existing, dir, length, perCluster)
  {
  }

  lemma VacatedNow(k: Kids, b: Shelf, root: TreeNode, gone: TreeNode, dir: TreeNode, j: nat, perCluster: nat, a: Shelf)
    requires Tidy(b, perCluster) && perCluster > 0 && dir in k && j < |k[dir]| && k[dir][j] == gone
    requires dir in b && j < |b[dir].kids| && root in b && gone != root
    requires a == b[dir := Cleared(b[dir], j, perCluster)] - {gone}
    ensures Vacated(k, b, root, gone, dir, j, perCluster, a)
  {
    hide Kept, NoneNew, Slots.CutClean, Cleared, Slots.Good, Slots.AllSnug;
    ClearedKeeps(b[dir], j, perCluster);
    KeptSelf(b[root]);
  }

  lemma ClearedIs(l: Listing, j: nat, perCluster: nat)
    requires j < |l.kids| && perCluster > 0
    ensures Cleared(l, j, perCluster) == Listing(Without(l.kids, j), Cleared(l, j, perCluster).types)
  {
  }

  lemma KeptSelf(l: Listing)
    ensures Kept(l, l) && NoneNew(l, l)
  {
  }

  lemma KeptTwice(l0: Listing, l1: Listing, l2: Listing)
    requires NoneNew(l0, l1) && NoneNew(l1, l2)
    ensures NoneNew(l0, l2) && (Kept(l0, l2) <==> Kept(l0, l1) && Kept(l1, l2))
  {
    hide Slots.StraysKept, Slots.NoNewStray;
    Slots.KeptTwice(l0.kids, l0.types, l1.kids, l1.types, l2.kids, l2.types);
  }

  lemma ClearedKeeps(l: Listing, j: nat, perCluster: nat)
    requires Slots.Good(l.kids, l.types, perCluster) && j < |l.kids|
    ensures NoneNew(l, Cleared(l, j, perCluster))
    ensures Kept(l, Cleared(l, j, perCluster)) <==> Slots.CutClean(l.kids, l.types, j, perCluster)
    ensures Kept(l, Cleared(l, j, perCluster)) <==> StraysBelow(l, |Cleared(l, j, perCluster).types|)
  {
    hide Slots.Good, Slots.CutClean, Slots.Stray, Slots.Shrunk, Slots.Erased, Slots.StraysKept, Slots.NoNewStray, Without;
    Slots.CutKeepsStrays(l.kids, l.types, j, perCluster);
  }

  lemma FullLess(shelf: Shelf, root: TreeNode, d: TreeNode, length: nat, perCluster: nat, free: nat, more: nat, gone: TreeNode)
    requires !Full(shelf, root, d, length, perCluster, free) && d != gone
    ensures !Full(shelf - {gone}, root, d, length, perCluster, free + more)
  {
    hide Slots.NoneAcceptable, Slots.AtTail, DivRoundUp, Quotient;
  }

  lemma TidyLess(shelf: Shelf, perCluster: nat, gone: TreeNode)
    requires Tidy(shelf, perCluster)
    ensures Tidy(shelf - {gone}, perCluster)
  {
    hide Slots.Good, Slots.AllSnug;
  }

  class Namespace {
    const tree: Tree.Tree
    const perCluster: nat
    var dirs: map<TreeNode, Slots.Directory>
    /** How many clusters each file owns. */
    var owned: map<TreeNode, nat>
    var free: nat

    ghost function Shelf(): Shelf
      reads this`dirs, dirs.Values
    {
      map d | d in dirs :: Listing(dirs[d].kids, dirs[d].types)
    }

    /** One object for each directory; only the root's knows that it is the root. */
    ghost predicate Separate()
      reads this`dirs
    {
      && (forall d :: d in dirs ==> dirs[d].perCluster == perCluster && dirs[d].root == (d == tree.root))
      && (forall d, e :: d in dirs && e in dirs && d != e ==> dirs[d] != dirs[e])
    }

    ghost predicate Valid()
      reads this, tree`kids, tree`paths, tree.kids.Keys, dirs.Values
    {
      tree.Valid() && Separate() && Agree(tree.kids, tree.Names(), Shelf(), owned, perCluster)
    }

    /** The volume of an empty root directory. */
    constructor (tree: Tree.Tree, dir: Slots.Directory, free: nat)
      requires tree.Valid() && tree.kids == map[tree.root := []]
      requires dir.Valid() && dir.kids == [] && dir.root
      ensures Valid() && this.tree == tree && this.free == free && dirs == map[tree.root := dir]
    {
      this.tree, this.perCluster, this.free := tree, dir.perCluster, free;
      dirs, owned := map[tree.root := dir], map[];
      new;
      tree.Known();
      assert tree.root.isDir;
    }

    ghost function Now(): Picture
      reads this, tree`kids, tree`paths, tree.kids.Keys, dirs.Values
    {
      Picture(tree.kids, tree.paths, tree.Names(), Shelf(), owned, free)
    }

    /** All clusters there are, in use or free. */
    ghost function Total(): nat
      reads this`dirs, this`owned, this`free, dirs.Values
    {
      TotalOf(Shelf(), owned, free, perCluster)
    }

    lemma TotalIs()
      ensures Total() == TotalOf(Shelf(), owned, free, perCluster)
    {
    }

    lemma NowIs()
      ensures Now() == Picture(tree.kids, tree.paths, tree.Names(), Shelf(), owned, free)
    {
    }

    lemma OnShelf(d: TreeNode)
      requires Separate() && Tidy(Shelf(), perCluster) && d in dirs
      ensures d in Shelf() && Shelf()[d] == Listing(dirs[d].kids, dirs[d].types)
      ensures dirs[d].Valid() && Slots.AllSnug(dirs[d].kids, perCluster) && dirs[d].perCluster == perCluster >= 16
    {
    }

    /** The shelf when only two directories may have changed. */
    lemma ShelfNow(before: Shelf, d: TreeNode, to: TreeNode)
      requires Separate() && Tidy(before, perCluster) && before.Keys == dirs.Keys && d in dirs && to in dirs
      requires forall e :: e in dirs && e != d && e != to ==> before[e] == Listing(dirs[e].kids, dirs[e].types)
      requires dirs[d].Valid() && dirs[to].Valid()
      requires Slots.AllSnug(dirs[d].kids, perCluster) && Slots.AllSnug(dirs[to].kids, perCluster)
      ensures Shelf() == before[d := Listing(dirs[d].kids, dirs[d].types)][to := Listing(dirs[to].kids, dirs[to].types)]
      ensures Tidy(Shelf(), perCluster)
    {
      hide Slots.Good, Slots.AllSnug;
    }

    lemma ShelfIs()
      ensures Shelf().Keys == dirs.Keys
      ensures forall e :: e in dirs ==> Shelf()[e] == Listing(dirs[e].kids, dirs[e].types)
    {
    }


    lemma Parts()
      requires Valid()
      ensures tree.Valid() && Separate() && Agree(tree.kids, tree.Names(), Shelf(), owned, perCluster)
      ensures Tidy(Shelf(), perCluster) && perCluster >= 16
    {
    }

    lemma Whole()
      requires tree.Valid() && Separate() && Agree(tree.kids, tree.Names(), Shelf(), owned, perCluster)
      ensures Valid()
    {
    }

    /** `delete` in one directory, as a change of the shelf. */
    method Unlist(d: TreeNode, j: nat)
      requires Separate() && Tidy(Shelf(), perCluster) && d in dirs && j < |dirs[d].kids|
      modifies this`free, dirs[d]
      ensures Tidy(Shelf(), perCluster) && d in Shelf() && Separate()
      ensures tree.Names() == old(tree.Names()) && (old(tree.Valid()) ==> tree.Valid())
      ensures perCluster > 0 && d in old(Shelf()) && j < |old(Shelf())[d].kids|
      ensures Shelf() == old(Shelf())[d := Cleared(old(Shelf())[d], j, perCluster)]
      ensures |Shelf()[d].types| <= |old(dirs[d].types)| && free >= old(free)
      ensures Slots.Room(free, |Shelf()[d].types|, perCluster) == Slots.Room(old(free), |old(dirs[d].types)|, perCluster)
      ensures !Full(Shelf(), tree.root, d, old(dirs[d].kids)[j].nameLength, perCluster, free)
      ensures Total() == old(Total())
    {
      hide tree.Valid, tree.Names, tree.Snap, TotalOf, Total,
        Slots.Good, Slots.AllSnug, Slots.NoRoom, Slots.Room, Slots.Shrunk, Slots.Erased, Without, Slots.SetLength, Tidy, Shelf;
      ShelfIs();
      TotalIs();
      OnShelf(d);
      ghost var before, kids, types := Shelf(), dirs[d].kids, dirs[d].types;
      free := dirs[d].Delete(j, free);
      DeletedRoom(d == tree.root, kids, types, j, perCluster, dirs[d].types, old(free), free);
      ShelfNow(before, d, d);
      TotalListed(before, d, Listing(dirs[d].kids, dirs[d].types), owned, old(free), free, perCluster);
      TotalIs();
    }

    /** find_slot and the entries of rename_entry, as a change of the shelf. */
    method Relist(d: TreeNode, i: nat, to: TreeNode, length: nat) returns (rc: Rc)
      requires Separate() && Tidy(Shelf(), perCluster) && d in dirs && to in dirs && i < |dirs[d].kids|
      modifies this`free, dirs[d], dirs[to]
      ensures rc == if old(Full(Shelf(), tree.root, to, length, perCluster, free)) then NoSpace else Ok
      ensures rc == NoSpace ==> Shelf() == old(Shelf()) && free == old(free)
      ensures Separate() && Tidy(Shelf(), perCluster) && d in Shelf() && to in Shelf()
      ensures rc == Ok ==>
        && i < |old(Shelf())[d].kids|
        && exists offset :: Shelf() == Reshelved(old(Shelf()), d, i, to, Slots.NewKid(offset, length),
                                                 Shelf()[d].types, Shelf()[to].types)
      ensures rc == Ok && tree.root in dirs ==> SlotKeeps(old(Shelf()), Shelf(), tree.root, to, length)
      ensures Total() == old(Total())
    {
      hide TotalOf, Total, Slots.Good, Slots.AllSnug, Slots.NoRoom, Slots.Room, Without, Slots.SetLength, Slots.NewKid, Slots.Taken,
        Tidy, Shelf, Slots.EraseType, Slots.Erased, Slots.StraysKept, Slots.NoNewStray, Slots.SlotClean;
      ShelfIs();
      TotalIs();
      OnShelf(d);
      OnShelf(to);
      ghost var before := Shelf();
      var slot;
      slot, free := dirs[d].Rename(i, dirs[to], length, free);
      ShelfNow(before, d, to);
      TotalRelisted(before, d, to, Listing(dirs[d].kids, dirs[d].types), Listing(dirs[to].kids, dirs[to].types),
                    owned, old(free), free, perCluster);
      TotalIs();
      rc := if slot == Slots.NoSpace then NoSpace else Ok;
      if rc == Ok {
        RelistedIs(before, d, i, to, dirs[to].kids[0], length, Shelf());
        if tree.root in dirs && tree.root != d && tree.root != to {
          KeptSelf(before[tree.root]);
        }
      }
    }

    /** find_slot and the entries of commit_entry, as a change of the shelf. */
    method Enlist(d: TreeNode, length: nat) returns (rc: Rc)
      requires Separate() && Tidy(Shelf(), perCluster) && d in dirs
      modifies this`free, dirs[d]
      ensures rc == if old(Full(Shelf(), tree.root, d, length, perCluster, free)) then NoSpace else Ok
      ensures rc == NoSpace ==> Shelf() == old(Shelf()) && free == old(free)
      ensures Separate() && Tidy(Shelf(), perCluster) && d in Shelf()
      ensures rc == Ok ==>
        exists offset :: Shelf() == Shelved(old(Shelf()), d, Slots.NewKid(offset, length), Shelf()[d].types)
      ensures rc == Ok && tree.root in dirs ==> SlotKeeps(old(Shelf()), Shelf(), tree.root, d, length)
      ensures rc == Ok ==> (free == 0 <==> Spent(old(Shelf()), tree.root, d, length, perCluster, old(free)))
      ensures Total() == old(Total())
    {
      hide TotalOf, Total, Slots.Good, Slots.AllSnug, Slots.NoRoom, Slots.Room, Slots.SetLength, Slots.NewKid, Slots.Taken, Tidy,
        Shelf, Slots.StraysKept, Slots.NoNewStray, Slots.SlotClean, Slots.Spent;
      ShelfIs();
      TotalIs();
      OnShelf(d);
      ghost var before := Shelf();
      var slot;
      slot, free := dirs[d].Create(length, free);
      ShelfNow(before, d, d);
      TotalListed(before, d, Listing(dirs[d].kids, dirs[d].types), owned, old(free), free, perCluster);
      TotalIs();
      rc := if slot == Slots.NoSpace then NoSpace else Ok;
      if rc == Ok {
        ghost var offset := dirs[d].kids[0].offset;
        assert dirs[d].kids == [dirs[d].kids[0]] + dirs[d].kids[1..];
        assert Shelf() == Shelved(before, d, Slots.NewKid(offset, length), Shelf()[d].types);
        if tree.root in dirs && tree.root != d {
          KeptSelf(before[tree.root]);
        }
      }
    }

    lemma HungNow(d: TreeNode, j: nat)
      requires tree.Valid() && d in tree.kids && j < |tree.kids[d]|
      ensures Hung(tree.kids, tree.paths, tree.root, d, j)
    {
      assert ListOk(tree.Snap(), d, tree.kids[d]);
    }

    lemma ListNow(d: TreeNode, j: nat)
      requires Agree(tree.kids, tree.Names(), Shelf(), owned, perCluster) && d in tree.kids && d.isDir && j < |tree.kids[d]|
      ensures d in dirs && d in Shelf() && Shelf()[d] == Listing(dirs[d].kids, dirs[d].types)
      ensures |tree.kids[d]| == |dirs[d].kids| && tree.kids[d][j] in tree.Names()
      ensures dirs[d].kids[j].nameLength == |tree.Names()[tree.kids[d][j]]|
    {
      ShelfIs();
      assert ListMatches(tree.Names(), tree.kids[d], dirs[d].kids);
    }

    lemma HomeNow(n: TreeNode)
      requires Agree(tree.kids, tree.Names(), Shelf(), owned, perCluster) && n in tree.kids
      ensures if n.isDir then n in dirs && n !in owned else n in owned && n !in dirs
    {
      ShelfIs();
    }

    lemma RootNow()
      requires tree.Valid() && Agree(tree.kids, tree.Names(), Shelf(), owned, perCluster)
      ensures tree.root in dirs
    {
      hide Agree, tree.Valid;
      tree.Known();
      HomeNow(tree.root);
    }

    /** exfat_cleanup_node: the clusters of an unlinked node become free. */
    method CleanupNode(node: TreeNode)
      requires perCluster > 0 && tree.Valid() && Separate()
      requires Agree(tree.kids, tree.Names(), Shelf() - {node}, owned - {node}, perCluster)
      requires if node.isDir then node in dirs && node !in owned else node in owned && node !in dirs
      modifies this`dirs, this`owned, this`free
      ensures Valid() && tree.Names() == old(tree.Names())
      ensures dirs == old(dirs) - {node} && owned == old(owned) - {node}
      ensures Shelf() == old(Shelf()) - {node}
      ensures free == old(free) + if node.isDir then Quotient(|old(dirs[node].types)|, perCluster) else old(owned)[node]
      ensures Total() == old(Total())
    {
      hide Agree, Good, tree.Valid, tree.Names, tree.Snap, TotalOf, Quotient;
      if node.isDir {
        TotalDirGone(Shelf(), node, owned, free, perCluster);
      } else {
        TotalFileGone(Shelf(), node, owned, free, perCluster);
      }
      if node.isDir {
        free := free + Quotient(|dirs[node].types|, perCluster);
        dirs := dirs - {node};
      } else {
        free := free + owned[node];
        owned := owned - {node};
      }
      assert dirs == old(dirs) - {node} && owned == old(owned) - {node};
      assert Shelf() == old(Shelf()) - {node};
    }

    /** exfat_split, and the refusal of a name that exists. */
    method CheckPath(path: seq<Comp>) returns (rc: Rc, dst: Target)
      requires Valid()
      ensures tree.root in tree.kids && Closed(tree.kids, tree.Names())
      ensures dst == Split(tree.table, tree.kids, tree.Names(), tree.root, path)
      ensures rc == if dst.Nowhere? then dst.rc else if dst.existing != null then Exists else Ok
      ensures rc == Ok ==>
        && dst.dir in tree.kids && dst.dir in dirs && dst.dir.isDir && Labelled(tree.Names(), tree.kids[dst.dir])
        && First(tree.table, tree.Names(), tree.kids[dst.dir], dst.name) == null
    {
      hide *;
      Parts();
      tree.Known();
      dst := tree.SplitPath(path);
      rc := if dst.Nowhere? then dst.rc else if dst.existing != null then Exists else Ok;
      if rc == Ok {
        tree.SpotKnown(path);
        HomeNow(dst.dir);
      }
    }

    /** The slot for a new node, or nothing changed. */
    method Reserve(dir: TreeNode, length: nat) returns (rc: Rc)
      requires Valid() && dir in dirs
      modifies this`free, dirs[dir]
      ensures rc == if old(Full(Shelf(), tree.root, dir, length, perCluster, free)) then NoSpace else Ok
      ensures rc != Ok ==> Valid() && Now() == old(Now())
      ensures tree.Valid() && tree.Names() == old(tree.Names()) && Separate()
      ensures Tidy(Shelf(), perCluster) && dir in old(Shelf()) && dir in Shelf()
      ensures rc == Ok ==>
        exists offset :: Shelf() == Shelved(old(Shelf()), dir, Slots.NewKid(offset, length), Shelf()[dir].types)
      ensures rc == Ok ==> SlotKeeps(old(Shelf()), Shelf(), tree.root, dir, length)
      ensures rc == Ok ==> (free == 0 <==> Spent(old(Shelf()), tree.root, dir, length, perCluster, old(free)))
      ensures Total() == old(Total())
    {
      hide *;
      NowIs();
      Parts();
      RootNow();
      ShelfIs();
      rc := Enlist(dir, length);
      if rc != Ok {
        NowIs();
        Whole();
      }
    }

    /** The common part of exfat_mknod and exfat_mkdir. A directory still lacks its cluster. */
    method MakeEntry(path: seq<Comp>, isDir: bool) returns (rc: Rc, node: TreeNode?)
      requires Valid()
      modifies this`free, tree`kids, tree`paths, tree.kids.Keys, dirs.Values
      ensures tree.root in old(tree.kids) && Closed(old(tree.kids), old(tree.Names()))
      ensures rc == CreateVerdict(tree.table, tree.root, perCluster, old(Now()), path)
      ensures rc != Ok ==> Valid() && Now() == old(Now())
      ensures rc == Ok ==>
        && tree.Valid() && Separate() && node != null && fresh(node) && node.isDir == isDir && perCluster >= 16
        && tree.kids.Keys == old(tree.kids).Keys + {node} && node != tree.root && dirs == old(dirs)
        && Entered(tree.table, tree.root, old(Now()), path, node, Now())
        && Completable(tree.kids, tree.Names(), Shelf(), owned, perCluster, node)
        && (free == 0 <==> SpentAt(tree.table, tree.root, perCluster, old(Now()), path))
      ensures Total() == old(Total())
    {
      hide *;
      ghost var b := Now();
      NowIs();
      Parts();
      node := null;
      var dst;
      rc, dst := CheckPath(path);
      VerdictCases(tree.table, tree.root, perCluster, b, path);
      if rc != Ok {
        return;
      }
      rc := Reserve(dst.dir, |dst.name|);
      if rc != Ok {
        return;
      }
      ghost var offset :| Shelf() == Shelved(b.shelf, dst.dir, Slots.NewKid(offset, |dst.name|), Shelf()[dst.dir].types);
      SpentIs(tree.table, tree.root, perCluster, b, path);
      node := CommitEntry(dst.dir, dst.name, isDir, path, b, offset);
    }

    /** commit_entry, when the slot is found and written. */
    method CommitEntry(dir: TreeNode, name: Name, isDir: bool, ghost path: seq<Comp>, ghost b: Picture, ghost offset: nat)
      returns (node: TreeNode)
      requires tree.Valid() && Separate() && tree.root in b.kids && Closed(b.kids, b.names)
      requires b == Picture(tree.kids, tree.paths, tree.Names(), b.shelf, owned, b.free)
      requires Agree(b.kids, b.names, b.shelf, owned, perCluster) && dir in b.shelf && dir in b.kids && dir.isDir
      requires Split(tree.table, b.kids, b.names, tree.root, path) == Spot(dir, null, name)
      requires Labelled(tree.Names(), tree.kids[dir]) && First(tree.table, tree.Names(), tree.kids[dir], name) == null
      requires dir in Shelf() && Tidy(Shelf(), perCluster)
      requires Shelf() == Shelved(b.shelf, dir, Slots.NewKid(offset, |name|), Shelf()[dir].types)
      requires SlotKeeps(b.shelf, Shelf(), tree.root, dir, |name|)
      modifies tree`kids, tree`paths, tree.kids.Keys
      ensures tree.Valid() && Separate() && fresh(node) && node.isDir == isDir && node != tree.root
      ensures tree.kids.Keys == old(tree.kids).Keys + {node}
      ensures Entered(tree.table, tree.root, b, path, node, Now())
      ensures Completable(tree.kids, tree.Names(), Shelf(), owned, perCluster, node)
      ensures Total() == old(Total())
    {
      hide *;
      ghost var w, shelf := tree.Snap(), Shelf();
      tree.GoodNow();
      NewKidLength(offset, |name|);
      node := tree.CommitEntry(dir, name, isDir);
      AddedKeys(b.kids, dir, node);
      tree.Known();
      tree.GoodNow();
      NowIs();
      OnlyKnown(b.kids, b.names, b.shelf, owned, perCluster, node);
      AgreeAdded(b.kids, b.names, b.shelf, owned, perCluster, dir, node, name, Slots.NewKid(offset, |name|), shelf[dir].types);
      EnteredNow(tree.table, tree.root, b, w, path, node, Now(), offset);
    }

    /** What paths are answered in the state there is. */
    lemma AnsweredNow(path: seq<Comp>)
      requires Valid()
      ensures tree.root in tree.kids && Closed(tree.kids, tree.Names())
      ensures CreateAnswers(tree.table, tree.root, perCluster, Now(), path,
                            CreateVerdict(tree.table, tree.root, perCluster, Now(), path))
      ensures MkdirAnswers(tree.table, tree.root, perCluster, Now(), path,
                           MkdirVerdict(tree.table, tree.root, perCluster, Now(), path))
      ensures MkdirVerdict(tree.table, tree.root, perCluster, Now(), path) ==
        if CreateVerdict(tree.table, tree.root, perCluster, Now(), path) == Ok
           && SpentAt(tree.table, tree.root, perCluster, Now(), path) then NoSpace
        else CreateVerdict(tree.table, tree.root, perCluster, Now(), path)
      ensures AimIsSplit(tree.table, tree.root, Now(), path)
    {
      hide *;
      NowIs();
      Parts();
      tree.Known();
      tree.GoodNow();
      CreateAnswered(tree.table, tree.root, perCluster, Now(), tree.Snap(), path);
    }

    /** exfat_mknod */
    method Create(path: seq<Comp>) returns (rc: Rc, node: TreeNode?)
      requires Valid()
      modifies this`owned, this`free, tree`kids, tree`paths, tree.kids.Keys, dirs.Values
      ensures Valid()
      ensures tree.root in old(tree.kids) && Closed(old(tree.kids), old(tree.Names()))
      ensures rc == CreateVerdict(tree.table, tree.root, perCluster, old(Now()), path)
      ensures rc != Ok ==> Now() == old(Now())
      ensures rc == Ok ==>
        && node != null && fresh(node) && !node.isDir && owned == old(owned)[node := 0]
        && Entered(tree.table, tree.root, old(Now()), path, node, Now())
        && MadeWhereAimed(tree.table, old(Now()), path, node, Now())
      ensures CreateAnswers(tree.table, tree.root, perCluster, old(Now()), path, rc)
      ensures Total() == old(Total())
    {
      hide *;
      AnsweredNow(path);
      rc, node := MakeEntry(path, false);
      if rc == Ok {
        NowIs();
        ghost var a := Now();
        CompletedFile(tree.kids, tree.Names(), Shelf(), owned, perCluster, node);
        CompletedParts(tree.kids, tree.Names(), Shelf(), owned, perCluster, node);
        TotalIs();
        TotalFileNew(Shelf(), node, owned, free, perCluster);
        owned := owned[node := 0];
        TotalIs();
        NowIs();
        EnteredOwned(tree.table, tree.root, old(Now()), path, node, a, Now());
        MadeAsAimed(tree.table, tree.root, old(Now()), path, node, Now());
        Whole();
      }
    }

    /** exfat_mkdir: an entry, then one cluster. When there is none for it the entry goes again;
        the directory may have been cut on the way. */
    method Mkdir(path: seq<Comp>) returns (rc: Rc, node: TreeNode?)
      requires Valid()
      modifies this`dirs, this`free, tree`kids, tree`paths, tree.kids.Keys, dirs.Values
      ensures Valid() && owned == old(owned)
      ensures tree.root in old(tree.kids) && Closed(old(tree.kids), old(tree.Names()))
      ensures rc == MkdirVerdict(tree.table, tree.root, perCluster, old(Now()), path)
      ensures MkdirAnswers(tree.table, tree.root, perCluster, old(Now()), path, rc)
      ensures CreateVerdict(tree.table, tree.root, perCluster, old(Now()), path) != Ok ==> Now() == old(Now())
      ensures rc == NoSpace ==>
        && tree.kids == old(tree.kids) && tree.Names() == old(tree.Names())
        && SameSets(old(Shelf()), Shelf())
      ensures CreateVerdict(tree.table, tree.root, perCluster, old(Now()), path) == Ok && rc == NoSpace ==>
        Undone(tree.table, tree.root, old(Now()), path, Shelf())
      ensures rc == Ok ==>
        && node != null && fresh(node) && node.isDir
        && node in Shelf() && Shelf()[node] == Listing([], Zeros(perCluster))
        && Entered(tree.table, tree.root, old(Now()), path, node, Now())
        && MadeWhereAimed(tree.table, old(Now()), path, node, Now())
      ensures Total() == old(Total())
    {
      hide *;
      ghost var b := Now();
      AnsweredNow(path);
      NowIs();
      Parts();
      SameSetsSelf(Shelf());
      rc, node := MakeEntry(path, true);
      if rc != Ok {
        NowIs();
        return;
      }
      NowIs();
      CompletedParts(tree.kids, tree.Names(), Shelf(), owned, perCluster, node);
      if free == 0 {
        Unmake(node, path, b);
        rc := NoSpace;
        return;
      }
      ghost var a := Now();
      Furnish(node);
      NowIs();
      EnteredDir(tree.table, tree.root, b, path, node, a, Now());
      MadeAsAimed(tree.table, tree.root, b, path, node, Now());
    }

    /** A directory gets its first cluster. */
    method Furnish(node: TreeNode)
      requires tree.Valid() && Separate() && node.isDir && free > 0 && perCluster >= 16 && node != tree.root
      requires Completable(tree.kids, tree.Names(), Shelf(), owned, perCluster, node)
      modifies this`dirs, this`free
      ensures Valid() && free == old(free) - 1
      ensures Shelf() == old(Shelf())[node := Listing([], Zeros(perCluster))]
      ensures Total() == old(Total())
    {
      hide TotalOf, Agree, Slots.Good, Slots.AllSnug, tree.Valid, tree.Names, tree.Snap, Tidy, Shelf, Completable;
      ShelfIs();
      CompletedDir(tree.kids, tree.Names(), Shelf(), owned, perCluster, node);
      var d := new Slots.Directory(false, perCluster);
      ghost var shelf := Shelf();
      TotalDirNew(shelf, node, Listing([], Zeros(perCluster)), owned, free, perCluster);
      dirs, free := dirs[node := d], free - 1;
      ShelfIs();
      assert Shelf() == shelf[node := Listing([], Zeros(perCluster))];
    }

    /** Where the entry just made is. */
    method MadeIn(node: TreeNode, ghost path: seq<Comp>, ghost b: Picture) returns (dir: TreeNode, ghost kid: Slots.Kid)
      requires tree.Valid() && Separate() && node in tree.kids && node != tree.root
      requires Entered(tree.table, tree.root, b, path, node, Now())
      requires Completable(tree.kids, tree.Names(), Shelf(), owned, perCluster, node)
      ensures dir in b.shelf && dir in dirs && dir in Shelf() && Tidy(Shelf(), perCluster)
      ensures Shelf() == Shelved(b.shelf, dir, kid, Shelf()[dir].types)
      ensures node in tree.kids && tree.kids[node] == [] && Cut(tree.kids, node) == b.kids && tree.Names() - {node} == b.names
      ensures tree.root in b.kids && Closed(b.kids, b.names)
      ensures var dst := Split(tree.table, b.kids, b.names, tree.root, path);
        dst.Spot? && dst.dir == dir && SlotKeeps(b.shelf, Shelf(), tree.root, dir, |dst.name|)
    {
      hide *;
      NowIs();
      ShelfIs();
      CompletedParts(tree.kids, tree.Names(), Shelf(), owned, perCluster, node);
      ghost var dst := EnteredAt(tree.table, tree.root, b, path, node, Now());
      kid :| Shelf() == Shelved(b.shelf, dst, kid, Shelf()[dst].types);
      tree.UpLink(node);
      dir := node.parent;
      var j := tree.Position(dir, node);
      AddedPlace(b.kids, b.names, dst, node, dir, j);
      CutAdded(b.kids, b.names, dir, node, tree.Names()[node]);
    }

    /** `delete` of the entry just made. */
    method Unmake(node: TreeNode, ghost path: seq<Comp>, ghost b: Picture)
      requires tree.Valid() && Separate() && node in tree.kids && node != tree.root && node.isDir
      requires Entered(tree.table, tree.root, b, path, node, Now())
      requires Completable(tree.kids, tree.Names(), Shelf(), owned, perCluster, node)
      requires Agree(b.kids, b.names, b.shelf, owned, perCluster)
      modifies this`free, tree`kids, tree`paths, tree.kids.Keys, dirs.Values
      ensures Valid() && tree.kids == b.kids && tree.Names() == b.names && SameSets(b.shelf, Shelf())
      ensures Undone(tree.table, tree.root, b, path, Shelf())
      ensures Total() == old(Total())
    {
      hide *;
      var dir, kid := MadeIn(node, path, b);
      Detach(node);
      TakeBack(dir, path, b, kid);
    }

    /** The tree's part of `delete`. */
    method Detach(node: TreeNode)
      requires tree.Valid() && Separate() && node in tree.kids && node != tree.root && tree.kids[node] == []
      modifies tree`kids, tree`paths, tree.kids.Keys
      ensures tree.Valid() && Separate() && Shelf() == old(Shelf())
      ensures tree.kids == Cut(old(tree.kids), node) && tree.Names() == old(tree.Names()) - {node}
      ensures Total() == old(Total())
    {
      hide *;
      tree.Delete(node);
    }

    method TakeBack(dir: TreeNode, ghost path: seq<Comp>, ghost b: Picture, ghost kid: Slots.Kid)
      requires tree.Valid() && Separate() && Agree(b.kids, b.names, b.shelf, owned, perCluster)
      requires tree.kids == b.kids && tree.Names() == b.names && Tidy(Shelf(), perCluster)
      requires dir in b.shelf && dir in dirs && dir in Shelf()
      requires Shelf() == Shelved(b.shelf, dir, kid, Shelf()[dir].types)
      requires tree.root in b.kids && Closed(b.kids, b.names)
      requires var dst := Split(tree.table, b.kids, b.names, tree.root, path);
        dst.Spot? && dst.dir == dir && SlotKeeps(b.shelf, Shelf(), tree.root, dir, |dst.name|)
      modifies this`free, dirs[dir]
      ensures Valid() && SameSets(b.shelf, Shelf()) && tree.Names() == b.names
      ensures Undone(tree.table, tree.root, b, path, Shelf())
      ensures Total() == old(Total())
    {
      hide *;
      ghost var shelf := Shelf();
      ShelfIs();
      FirstOff(b.shelf, dir, kid, shelf[dir].types);
      Unlist(dir, 0);
      ClearedIs(shelf[dir], 0, perCluster);
      OffAgain(b.shelf, dir, kid, shelf[dir].types, Shelf()[dir].types);
      BackAgain(b.kids, b.names, b.shelf, owned, perCluster, dir, Shelf());
      UndoneNow(tree.table, tree.root, b, path, shelf, Shelf(), dir, perCluster);
      Whole();
    }

    /** What `delete` and the clean-up do apart from the tree, which has lost the node already. */
    method Vacate(gone: TreeNode, dir: TreeNode, j: nat, ghost k: Kids, ghost p: Paths, ghost names: Labels)
      requires tree.Valid() && Separate() && Agree(k, names, Shelf(), owned, perCluster) && perCluster > 0
      requires Hung(k, p, tree.root, dir, j) && dir in k && j < |k[dir]| && k[dir][j] == gone && gone != dir
      requires dir in dirs && j < |dirs[dir].kids|
      requires gone in names && dirs[dir].kids[j].nameLength == |names[gone]|
      requires tree.root in dirs && gone != tree.root
      requires if gone.isDir then gone in dirs && gone !in owned else gone in owned && gone !in dirs
      requires tree.kids == Cut(k, gone) && tree.Names() == names - {gone}
      modifies this`dirs, this`owned, this`free, dirs[dir]
      ensures Valid() && dirs == old(dirs) - {gone} && owned == old(owned) - {gone}
      ensures tree.Names() == names - {gone}
      ensures !Full(Shelf(), tree.root, dir, |names[gone]|, perCluster, free)
      ensures Vacated(k, old(Shelf()), tree.root, gone, dir, j, perCluster, Shelf())
      ensures Total() == old(Total())
    {
      hide *;
      AgreeParts(k, names, Shelf(), owned, perCluster);
      ghost var shelf := Shelf();
      ShelfIs();
      Unlist(dir, j);
      ghost var shelf1, left := Shelf(), free;
      ClearedIs(shelf[dir], j, perCluster);
      AgreeCut(k, p, tree.root, names, shelf, owned, perCluster, dir, j, shelf1[dir].types);
      assert Agree(tree.kids, tree.Names(), shelf1 - {gone}, owned - {gone}, perCluster);
      CleanupNode(gone);
      FullLess(shelf1, tree.root, dir, |names[gone]|, perCluster, left, free - left, gone);
      VacatedNow(k, shelf, tree.root, gone, dir, j, perCluster, Shelf());
    }

    /** exfat_unlink or exfat_rmdir, then exfat_cleanup_node: what DELETE_OBJECT does to a node
        that nothing else refers to. */
    method Remove(node: TreeNode) returns (rc: Rc)
      requires Valid() && node in tree.kids && node != tree.root
      modifies this`dirs, this`owned, this`free, tree`kids, tree`paths, tree.kids.Keys, dirs.Values
      ensures Valid()
      ensures rc == if node.isDir && old(tree.kids)[node] != [] then NotEmpty else Ok
      ensures rc == Ok ==> tree.kids == Cut(old(tree.kids), node) && tree.Names() == old(tree.Names()) - {node}
      ensures rc == Ok ==> dirs == old(dirs) - {node} && owned == old(owned) - {node}
      ensures rc == Ok ==>
        exists dir, j :: Vacated(old(tree.kids), old(Shelf()), tree.root, node, dir, j, perCluster, Shelf())
      ensures rc != Ok ==> Now() == old(Now())
      ensures Total() == old(Total())
    {
      hide *;
      Parts();
      ghost var k, p, names := tree.kids, tree.paths, tree.Names();
      NowIs();
      tree.UpLink(node);
      var dir := node.parent;
      var j := tree.Position(dir, node);
      HungNow(dir, j);
      ListNow(dir, j);
      HomeNow(node);
      RootNow();
      ChildIsOther(k, p, tree.root, dir, j);
      if node.isDir {
        rc := tree.Rmdir(node);
      } else {
        rc := tree.Unlink(node);
      }
      if rc != Ok {
        NowIs();
        Whole();
        return;
      }
      Vacate(node, dir, j, k, p, names);
    }

    /** The part of exfat_rename that makes room for the new name. What is removed leaves a place
        for a name as long. */
    method RemoveTarget(node: TreeNode, existing: TreeNode, dir: TreeNode) returns (rc: Rc)
      requires Valid() && existing in tree.kids && existing != tree.root && existing != node
      requires dir in tree.kids && dir.isDir && existing in tree.kids[dir]
      modifies this`dirs, this`owned, this`free, tree`kids, tree`paths, tree.kids.Keys, dirs.Values
      ensures Valid()
      ensures rc == if existing.isDir && !node.isDir then NotDir
                    else if !existing.isDir && node.isDir then IsDir
                    else if existing.isDir && old(tree.kids)[existing] != [] then NotEmpty
                    else Ok
      ensures rc == Ok ==> tree.kids == Cut(old(tree.kids), existing) && tree.paths == old(tree.paths) - {existing}
      ensures rc == Ok ==> tree.Names() == old(tree.Names()) - {existing} && existing in old(tree.Names())
      ensures rc == Ok ==> dirs == old(dirs) - {existing}
      ensures rc == Ok ==> !Full(Shelf(), tree.root, dir, |old(tree.Names())[existing]|, perCluster, free)
      ensures rc == Ok ==>
        exists j :: Vacated(old(tree.kids), old(Shelf()), tree.root, existing, dir, j, perCluster, Shelf())
      ensures rc != Ok ==> Now() == old(Now())
      ensures Total() == old(Total())
    {
      hide *;
      Parts();
      ghost var k, p, names, shelf, own := tree.kids, tree.paths, tree.Names(), Shelf(), owned;
      NowIs();
      var j := tree.Position(dir, existing);
      HungNow(dir, j);
      ListNow(dir, j);
      HomeNow(existing);
      RootNow();
      rc := tree.RemoveTarget(node, existing);
      if rc != Ok {
        NowIs();
        Whole();
        return;
      }
      Vacate(existing, dir, j, k, p, names);
    }

    /** The second half of exfat_rename: a slot, the entries, the tree. */
    method Move(node: TreeNode, dir: TreeNode, name: Name) returns (rc: Rc)
      requires Valid() && MayMove(tree.table, tree.root, tree.kids, tree.paths, tree.Snap(), tree.Names(), node, dir, name)
      modifies this`free, tree`kids, tree`paths, tree.kids.Keys, dirs.Values
      ensures Valid()
      ensures rc == if old(Full(Shelf(), tree.root, dir, |name|, perCluster, free)) then NoSpace else Ok
      ensures rc == Ok ==> tree.kids == Relocated(old(tree.kids), node, dir) && tree.Names() == old(tree.Names())[node := name]
      ensures rc == Ok ==> SlotKeeps(old(Shelf()), Shelf(), tree.root, dir, |name|)
      ensures rc != Ok ==> Now() == old(Now())
      ensures Total() == old(Total())
    {
      hide *;
      Parts();
      ghost var k, p, names, shelf := tree.kids, tree.paths, tree.Names(), Shelf();
      Movable(node, dir, name);
      tree.UpLink(node);
      var parent := node.parent;
      var i := tree.Position(parent, node);
      HungNow(parent, i);
      ListNow(parent, i);
      HomeNow(dir);
      RootNow();
      ShelfIs();
      NowIs();
      rc := Relist(parent, i, dir, |name|);
      if rc != Ok {
        NowIs();
        Whole();
        return;
      }
      ghost var offset :| Shelf() == Reshelved(shelf, parent, i, dir, Slots.NewKid(offset, |name|), Shelf()[parent].types, Shelf()[dir].types);
      NewKidLength(offset, |name|);
      AgreeMoved(k, p, tree.root, names, shelf, owned, perCluster, parent, i, dir, name, Slots.NewKid(offset, |name|), Shelf());
      MoveInTree(node, dir, name);
    }

    /** The end of rename_entry, when the entry sets are in place. */
    method MoveInTree(node: TreeNode, dir: TreeNode, name: Name)
      requires MayMove(tree.table, tree.root, tree.kids, tree.paths, tree.Snap(), tree.Names(), node, dir, name)
      requires Separate()
      requires Agree(Relocated(tree.kids, node, dir), tree.Names()[node := name], Shelf(), owned, perCluster)
      modifies tree`kids, tree`paths, tree.kids.Keys
      ensures Valid() && Shelf() == old(Shelf())
      ensures tree.kids == Relocated(old(tree.kids), node, dir) && tree.Names() == old(tree.Names())[node := name]
      ensures Total() == old(Total())
    {
      hide *;
      tree.MoveNode(dir, node, name);
      Whole();
    }

    lemma Movable(node: TreeNode, dir: TreeNode, name: Name)
      requires MayMove(tree.table, tree.root, tree.kids, tree.paths, tree.Snap(), tree.Names(), node, dir, name)
      ensures node in tree.kids && node != tree.root && dir in tree.kids && dir.isDir
    {
    }

    /** From the checks on: the target is removed, a slot is looked for, the node moves. A target
        that was removed has left room, so what fails has changed nothing. */
    method Replace(node: TreeNode, dir: TreeNode, existing: TreeNode?, name: Name) returns (rc: Rc)
      requires Valid()
      requires RenameSteps(tree.table, tree.root, tree.kids, tree.paths, tree.Snap(), tree.Names(), node, dir, existing, name)
      requires existing != null ==> existing in tree.kids && existing != tree.root
      modifies this`dirs, this`owned, this`free, tree`kids, tree`paths, tree.kids.Keys, dirs.Values
      ensures Valid()
      ensures Replaced(old(tree.kids), old(tree.paths), old(tree.Names()), node, dir, existing, name, rc, tree.kids, tree.Names())
      ensures rc != Ok ==> Now() == old(Now())
      ensures rc == NoSpace <==>
        && (existing == null || existing == node)
        && old(Full(Shelf(), tree.root, dir, |name|, perCluster, free))
      ensures rc == Ok ==>
        RenameKeeps(old(tree.kids), old(Shelf()), Shelf(), tree.root, node, existing, dir, |name|, perCluster)
      ensures Total() == old(Total())
    {
      hide *;
      ghost var k, p, w, names := tree.kids, tree.paths, tree.Snap(), tree.Names();
      ghost var houses, shelf := dirs, Shelf();
      ghost var at: nat := 0;
      NowIs();
      Parts();
      tree.GoodNow();
      StepsKnown(tree.table, tree.root, k, p, w, names, node, dir, existing, name);
      if existing != null && existing != node {
        ReplacedAsLong(tree.table, names, k[dir], name);
        VerdictIs(k, p, node, dir, existing);
        rc := RemoveTarget(node, existing, dir);
        if rc != Ok {
          NowIs();
          ReplacedCases(k, p, names, node, dir, existing, name, rc, tree.kids, tree.Names());
          return;
        }
        at :| Vacated(k, shelf, tree.root, existing, dir, at, perCluster, Shelf());
        Parts();
        tree.GoodNow();
        CutKeys(k, existing);
        FewerDirs(houses, existing);
      }
      VerdictIs(k, p, node, dir, existing);
      CutForIs(k, p, names, existing, node);
      MayMoveAfterCut(tree.table, tree.root, k, p, w, names, node, dir, existing, name, tree.Snap());
      ghost var between := Shelf();
      rc := Move(node, dir, name);
      if rc == Ok {
        if existing != null && existing != node {
          VacatedThenSlot(k, shelf, between, Shelf(), tree.root, node, existing, dir, at, |name|, perCluster);
        } else {
          SlotKeepsRenamed(k, shelf, Shelf(), tree.root, node, existing, dir, |name|, perCluster);
        }
      }
      NowIs();
      ReplacedCases(k, p, names, node, dir, existing, name, rc, tree.kids, tree.Names());
    }

    /** The checks of exfat_rename: both paths, and that a directory does not go into itself. */
    method CheckRename(oldPath: seq<Comp>, newPath: seq<Comp>) returns (rc: Rc, src: Found, dst: Target)
      requires Valid()
      ensures rc != Ok ==> RenameOutcome(tree.table, tree.root, perCluster, Now(), oldPath, newPath, rc, Now())
      ensures rc == Ok ==>
        && tree.root in tree.kids && Closed(tree.kids, tree.Names())
        && src == Resolve(tree.table, tree.kids, tree.Names(), tree.root, oldPath)
        && dst == Split(tree.table, tree.kids, tree.Names(), tree.root, newPath)
        && src.Got? && dst.Spot? && (dst.existing != null ==> dst.existing in tree.kids && dst.existing != tree.root)
        && RenameSteps(tree.table, tree.root, tree.kids, tree.paths, tree.Snap(), tree.Names(),
                       src.node, dst.dir, dst.existing, dst.name)
    {
      hide *;
      NowIs();
      Parts();
      tree.Known();
      src := tree.Lookup(oldPath);
      dst := tree.SplitPath(newPath);
      if src.Lost? || dst.Nowhere? {
        rc := if src.Lost? then src.rc else dst.rc;
        FailedOutcome(tree.table, tree.root, perCluster, Now(), oldPath, newPath, rc);
        return;
      }
      tree.SpotKnown(newPath);
      var inside := tree.HasAncestor(dst.dir, src.node);
      if src.node.isDir && inside {
        InsideOutcome(tree.table, tree.root, perCluster, Now(), oldPath, newPath);
        rc := Invalid;
        return;
      }
      tree.ReadyToRename(src.node, dst.dir, dst.existing, dst.name);
      rc := Ok;
    }

    /** exfat_rename */
    method Rename(oldPath: seq<Comp>, newPath: seq<Comp>) returns (rc: Rc)
      requires Valid()
      modifies this`dirs, this`owned, this`free, tree`kids, tree`paths, tree.kids.Keys, dirs.Values
      ensures Valid()
      ensures RenameOutcome(tree.table, tree.root, perCluster, old(Now()), oldPath, newPath, rc, Now())
      ensures RenameAnswers(tree.table, tree.root, perCluster, old(Now()), oldPath, newPath, rc, Now())
      ensures Total() == old(Total())
    {
      hide *;
      ghost var b, w := Now(), tree.Snap();
      var src, dst;
      rc, src, dst := CheckRename(oldPath, newPath);
      NowIs();
      Parts();
      tree.GoodNow();
      if rc != Ok {
        RenameAnswered(tree.table, tree.root, perCluster, b, w, oldPath, newPath, rc, Now());
        return;
      }
      NowIs();
      Parts();
      tree.GoodNow();
      rc := Replace(src.node, dst.dir, dst.existing, dst.name);
      NowIs();
      Parts();
      tree.Known();
      tree.GoodNow();
      ReplacedOutcome(tree.table, tree.root, perCluster, b, w, oldPath, newPath, rc, Now());
      RenameAnswered(tree.table, tree.root, perCluster, b, w, oldPath, newPath, rc, Now());
    }
  }

  /** Where the path aims at a place, it is the place that split finds. */
  ghost predicate AimIsSplit(t: UpcaseTable, root: TreeNode, b: Picture, path: seq<Comp>)
    requires root in b.kids && Closed(b.kids, b.names)
  {
    forall d: TreeNode, e: TreeNode? :: Aims(t, b.kids, b.paths, b.names, path, d, e) ==>
      path != [] && path[|path| - 1].Plain? && Split(t, b.kids, b.names, root, path) == Spot(d, e, path[|path| - 1].name)
  }

  lemma AimedSplit(t: UpcaseTable, root: TreeNode, b: Picture, w: Web, path: seq<Comp>)
    requires Good(t, root, b.kids, b.paths, w, b.names) && root in b.kids && Closed(b.kids, b.names)
    ensures AimIsSplit(t, root, b, path)
  {
    hide Good, Split, Aims;
    forall d: TreeNode, e: TreeNode? | Aims(t, b.kids, b.paths, b.names, path, d, e)
      ensures path != [] && path[|path| - 1].Plain?
      ensures Split(t, b.kids, b.names, root, path) == Spot(d, e, path[|path| - 1].name)
    {
      AimsNotEmpty(t, b.kids, b.paths, b.names, path, d, e);
      SplitAims(t, root, b.kids, b.paths, w, b.names, path, d, e, path[|path| - 1].name);
    }
  }

  lemma MadeAsAimed(t: UpcaseTable, root: TreeNode, b: Picture, path: seq<Comp>, n: TreeNode, a: Picture)
    requires Entered(t, root, b, path, n, a) && AimIsSplit(t, root, b, path)
    ensures MadeWhereAimed(t, b, path, n, a)
  {
    hide Split, Aims, Resolve, SlotKeeps;
    forall d: TreeNode, e: TreeNode? | Aims(t, b.kids, b.paths, b.names, path, d, e)
      ensures path != [] && path[|path| - 1].Plain?
    {
      AimsNotEmpty(t, b.kids, b.paths, b.names, path, d, e);
    }
  }

  lemma AimsNotEmpty(t: UpcaseTable, k: Kids, p: Paths, names: Labels, path: seq<Comp>, d: TreeNode, e: TreeNode?)
    requires Aims(t, k, p, names, path, d, e)
    ensures path != [] && path[|path| - 1].Plain?
  {
  }

  /** A path that aims at a directory is answered as that directory is: no child of the name and
      a slot for it mean success, however deep the directory lies. */
  ghost predicate CreateAnswers(t: UpcaseTable, root: TreeNode, perCluster: nat, b: Picture, path: seq<Comp>, rc: Rc) {
    forall d: TreeNode, e: TreeNode? :: Aims(t, b.kids, b.paths, b.names, path, d, e) ==>
      rc == if e != null then Exists
            else if Full(b.shelf, root, d, |path[|path| - 1].name|, perCluster, b.free) then NoSpace
            else Ok
  }

  /** The same for a directory, which needs a cluster of its own after that. */
  ghost predicate MkdirAnswers(t: UpcaseTable, root: TreeNode, perCluster: nat, b: Picture, path: seq<Comp>, rc: Rc) {
    forall d: TreeNode, e: TreeNode? :: Aims(t, b.kids, b.paths, b.names, path, d, e) ==>
      var length := |path[|path| - 1].name|;
      rc == if e != null then Exists
            else if Full(b.shelf, root, d, length, perCluster, b.free) || Spent(b.shelf, root, d, length, perCluster, b.free) then NoSpace
            else Ok
  }

  /** A new node is in the directory that the path aims at, under the last name. */
  ghost predicate MadeWhereAimed(t: UpcaseTable, b: Picture, path: seq<Comp>, n: TreeNode, a: Picture) {
    forall d: TreeNode, e: TreeNode? :: Aims(t, b.kids, b.paths, b.names, path, d, e) ==>
      e == null && a.kids == Added(b.kids, d, n) && a.names == b.names[n := path[|path| - 1].name]
  }

  lemma CreateAnswered(t: UpcaseTable, root: TreeNode, perCluster: nat, b: Picture, w: Web, path: seq<Comp>)
    requires Good(t, root, b.kids, b.paths, w, b.names) && root in b.kids && Closed(b.kids, b.names)
    ensures CreateAnswers(t, root, perCluster, b, path, CreateVerdict(t, root, perCluster, b, path))
    ensures MkdirAnswers(t, root, perCluster, b, path, MkdirVerdict(t, root, perCluster, b, path))
    ensures MkdirVerdict(t, root, perCluster, b, path) ==
      if CreateVerdict(t, root, perCluster, b, path) == Ok && SpentAt(t, root, perCluster, b, path) then NoSpace
      else CreateVerdict(t, root, perCluster, b, path)
    ensures AimIsSplit(t, root, b, path)
  {
    hide Good, Split, Aims, Full, Spent, Resolve, SlotKeeps;
    AimedSplit(t, root, b, w, path);
  }

  /** What creating a directory answers: the same, and there must be a cluster left for it. */
  ghost function MkdirVerdict(t: UpcaseTable, root: TreeNode, perCluster: nat, b: Picture, path: seq<Comp>): Rc
    requires root in b.kids && Closed(b.kids, b.names)
  {
    var verdict := CreateVerdict(t, root, perCluster, b, path);
    if verdict == Ok && SpentAt(t, root, perCluster, b, path) then NoSpace else verdict
  }

  /** A rename is answered, and done, as the nodes are that its paths lead to and aim at. */
  ghost predicate RenameAnswers(t: UpcaseTable, root: TreeNode, perCluster: nat, b: Picture, oldPath: seq<Comp>, newPath: seq<Comp>,
                                rc: Rc, a: Picture) {
    forall x: TreeNode, d: TreeNode, e: TreeNode? ::
      && x in b.kids && x in b.paths && |b.paths[x]| > 0 && Spells(t, b.names, oldPath, b.paths[x][1..])
      && Aims(t, b.kids, b.paths, b.names, newPath, d, e)
      ==>
        var name := newPath[|newPath| - 1].name;
        && Replaced(b.kids, b.paths, b.names, x, d, e, name, rc, a.kids, a.names)
        && (rc == NoSpace <==>
              && (e == null || e == x) && !(x.isDir && d in b.paths && x in b.paths[d])
              && Full(b.shelf, root, d, |name|, perCluster, b.free))
  }

  lemma RenameAnswered(t: UpcaseTable, root: TreeNode, perCluster: nat, b: Picture, w: Web,
                       oldPath: seq<Comp>, newPath: seq<Comp>, rc: Rc, a: Picture)
    requires Good(t, root, b.kids, b.paths, w, b.names)
    requires RenameOutcome(t, root, perCluster, b, oldPath, newPath, rc, a)
    ensures RenameAnswers(t, root, perCluster, b, oldPath, newPath, rc, a)
  {
    hide Good, Split, Aims, Full, Spells, Resolve, RenameKeeps, Replaced;
    AimedSplit(t, root, b, w, newPath);
    forall x | x in b.kids && x in b.paths && |b.paths[x]| > 0 && Spells(t, b.names, oldPath, b.paths[x][1..])
      ensures Resolve(t, b.kids, b.names, root, oldPath) == Got(x)
    {
      SpelledIsFound(t, root, b.kids, b.paths, w, b.names, oldPath, x);
    }
  }

  /** What creating a file under a path answers. */
  ghost function CreateVerdict(t: UpcaseTable, root: TreeNode, perCluster: nat, b: Picture, path: seq<Comp>): Rc
    requires root in b.kids && Closed(b.kids, b.names)
  {
    var dst := Split(t, b.kids, b.names, root, path);
    if dst.Nowhere? then dst.rc
    else if dst.existing != null then Exists
    else if Full(b.shelf, root, dst.dir, |dst.name|, perCluster, b.free) then NoSpace
    else Ok
  }

  /** Once the slot is paid for, no cluster is free. */
  ghost predicate SpentAt(t: UpcaseTable, root: TreeNode, perCluster: nat, b: Picture, path: seq<Comp>) {
    && root in b.kids && Closed(b.kids, b.names)
    && var dst := Split(t, b.kids, b.names, root, path);
    dst.Spot? && Spent(b.shelf, root, dst.dir, |dst.name|, perCluster, b.free)
  }

  lemma SpentIs(t: UpcaseTable, root: TreeNode, perCluster: nat, b: Picture, path: seq<Comp>)
    requires root in b.kids && Closed(b.kids, b.names) && Split(t, b.kids, b.names, root, path).Spot?
    ensures var dst := Split(t, b.kids, b.names, root, path);
      SpentAt(t, root, perCluster, b, path) <==> Spent(b.shelf, root, dst.dir, |dst.name|, perCluster, b.free)
  {
    hide Spent;
  }

  lemma VerdictCases(t: UpcaseTable, root: TreeNode, perCluster: nat, b: Picture, path: seq<Comp>)
    requires root in b.kids && Closed(b.kids, b.names)
    ensures var dst := Split(t, b.kids, b.names, root, path);
      && (dst.Nowhere? ==> CreateVerdict(t, root, perCluster, b, path) == dst.rc != Ok)
      && (dst.Spot? && dst.existing != null ==> CreateVerdict(t, root, perCluster, b, path) == Exists)
      && (dst.Spot? && dst.existing == null ==>
            CreateVerdict(t, root, perCluster, b, path) ==
            if Full(b.shelf, root, dst.dir, |dst.name|, perCluster, b.free) then NoSpace else Ok)
  {
    hide Full;
  }

  /** A new node stands at the head of its directory, has an entry set there, and is found
      under its path. */
  ghost predicate Entered(t: UpcaseTable, root: TreeNode, b: Picture, path: seq<Comp>, n: TreeNode, a: Picture) {
    && root in b.kids && Closed(b.kids, b.names) && root in a.kids && Closed(a.kids, a.names)
    && var dst := Split(t, b.kids, b.names, root, path);
    && dst.Spot? && dst.existing == null && dst.dir in b.kids && dst.dir in b.shelf && dst.dir in a.shelf
    && n !in b.kids && n !in b.shelf
    && a.kids == Added(b.kids, dst.dir, n) && a.names == b.names[n := dst.name]
    && Resolve(t, a.kids, a.names, root, path) == Got(n)
    && SlotKeeps(b.shelf, a.shelf, root, dst.dir, |dst.name|)
    && exists offset ::
         a.shelf - {n} == Shelved(b.shelf, dst.dir, Slots.NewKid(offset, |dst.name|), a.shelf[dst.dir].types)
  }

  lemma EnteredNow(t: UpcaseTable, root: TreeNode, b: Picture, w: Web, path: seq<Comp>, n: TreeNode, a: Picture, offset: nat)
    requires Good(t, root, b.kids, b.paths, w, b.names) && SiblingsApart(t, a.kids, a.names)
    requires root in b.kids && Closed(b.kids, b.names) && root in a.kids
    requires var dst := Split(t, b.kids, b.names, root, path);
      && dst.Spot? && dst.existing == null && dst.dir in b.kids && dst.dir in b.shelf && dst.dir in a.shelf
      && n !in b.kids && n !in b.shelf
      && a.kids == Added(b.kids, dst.dir, n) && a.names == b.names[n := dst.name]
      && a.shelf == Shelved(b.shelf, dst.dir, Slots.NewKid(offset, |dst.name|), a.shelf[dst.dir].types)
      && SlotKeeps(b.shelf, a.shelf, root, dst.dir, |dst.name|)
    ensures Entered(t, root, b, path, n, a)
  {
    hide Split, Resolve, Good, Slots.NewKid, SlotKeeps;
    AddedResolves(t, root, b.kids, b.paths, w, b.names, n, path, a.kids, a.names);
    assert a.shelf - {n} == a.shelf;
  }

  lemma EnteredOwned(t: UpcaseTable, root: TreeNode, b: Picture, path: seq<Comp>, n: TreeNode, a: Picture, a': Picture)
    requires Entered(t, root, b, path, n, a) && a' == a.(owned := a'.owned)
    ensures Entered(t, root, b, path, n, a')
  {
    hide Split, Resolve, SlotKeeps;
  }

  lemma CompletedFile(k: Kids, names: Labels, shelf: Shelf, owned: map<TreeNode, nat>, perCluster: nat, n: TreeNode)
    requires Completable(k, names, shelf, owned, perCluster, n) && !n.isDir
    ensures Agree(k, names, shelf, owned[n := 0], perCluster)
  {
  }

  /** What is left of the root when the slot for a new directory was found, but no cluster. */
  ghost predicate Undone(t: UpcaseTable, root: TreeNode, b: Picture, path: seq<Comp>, a: Shelf) {
    && root in b.kids && Closed(b.kids, b.names)
    && var dst := Split(t, b.kids, b.names, root, path);
    dst.Spot? && UndoneKeeps(b.shelf, a, root, dst.dir, |dst.name|)
  }

  lemma UndoneNow(t: UpcaseTable, root: TreeNode, b: Picture, path: seq<Comp>, m: Shelf, a: Shelf, d: TreeNode, perCluster: nat)
    requires root in b.kids && Closed(b.kids, b.names) && Tidy(m, perCluster) && perCluster > 0
    requires var dst := Split(t, b.kids, b.names, root, path);
      dst.Spot? && dst.dir == d && SlotKeeps(b.shelf, m, root, d, |dst.name|)
    requires d in m && |m[d].kids| > 0 && a == m[d := Cleared(m[d], 0, perCluster)]
    ensures Undone(t, root, b, path, a)
  {
    hide SlotKeeps, Tidy, UndoneKeeps, Split, Cleared;
    UndoneKept(b.shelf, m, a, root, d, |Split(t, b.kids, b.names, root, path).name|, perCluster);
  }

  lemma CompletedDir(k: Kids, names: Labels, shelf: Shelf, owned: map<TreeNode, nat>, perCluster: nat, n: TreeNode)
    requires Completable(k, names, shelf, owned, perCluster, n) && n.isDir
    ensures n !in shelf && Agree(k, names, shelf[n := Listing([], Zeros(perCluster))], owned, perCluster)
  {
  }

  /** The same directories with the same entry sets; free entries may have come or gone. */
  ghost predicate SameSets(a: Shelf, b: Shelf) {
    a.Keys == b.Keys && forall d :: d in a ==> a[d].kids == b[d].kids
  }

  lemma SameSetsSelf(a: Shelf)
    ensures SameSets(a, a)
  {
  }

  lemma EnteredAt(t: UpcaseTable, root: TreeNode, b: Picture, path: seq<Comp>, n: TreeNode, a: Picture) returns (d: TreeNode)
    requires Entered(t, root, b, path, n, a) && n !in a.shelf
    ensures d in b.kids && d in b.shelf && d in a.shelf && Closed(b.kids, b.names) && n !in b.kids
    ensures a.kids == Added(b.kids, d, n) && n in a.names && a.names == b.names[n := a.names[n]]
    ensures exists k: Slots.Kid :: a.shelf == Shelved(b.shelf, d, k, a.shelf[d].types)
    ensures root in b.kids && var dst := Split(t, b.kids, b.names, root, path);
      dst.Spot? && dst.dir == d && SlotKeeps(b.shelf, a.shelf, root, d, |dst.name|)
  {
    hide Resolve, Split, Closed, SlotKeeps;
    var dst := Split(t, b.kids, b.names, root, path);
    d := dst.dir;
    var offset :| a.shelf - {n} == Shelved(b.shelf, d, Slots.NewKid(offset, |dst.name|), a.shelf[d].types);
    assert a.shelf - {n} == a.shelf;
  }

  lemma FirstOff(shelf: Shelf, d: TreeNode, k: Slots.Kid, types: seq<Byte>)
    requires d in shelf
    ensures var s := Shelved(shelf, d, k, types);
      d in s && |s[d].kids| > 0 && Without(s[d].kids, 0) == shelf[d].kids
  {
  }

  lemma OffAgain(shelf: Shelf, d: TreeNode, k: Slots.Kid, types: seq<Byte>, types': seq<Byte>)
    requires d in shelf
    ensures Shelved(shelf, d, k, types)[d := Listing(shelf[d].kids, types')] == shelf[d := Listing(shelf[d].kids, types')]
  {
  }

  lemma AddedPlace(k: Kids, names: Labels, d: TreeNode, n: TreeNode, e: TreeNode, j: nat)
    requires Closed(k, names) && d in k && n !in k
    requires e in Added(k, d, n) && j < |Added(k, d, n)[e]| && Added(k, d, n)[e][j] == n
    ensures e == d && j == 0 && Added(k, d, n)[n] == []
  {
    if e in k {
      NotListed(k, names, e, n);
    }
  }

  lemma CompletedParts(k: Kids, names: Labels, shelf: Shelf, owned: map<TreeNode, nat>, perCluster: nat, n: TreeNode)
    requires Completable(k, names, shelf, owned, perCluster, n)
    ensures Tidy(shelf, perCluster) && n !in shelf && n !in owned
  {
  }

  lemma EnteredDir(t: UpcaseTable, root: TreeNode, b: Picture, path: seq<Comp>, n: TreeNode, a: Picture, a': Picture)
    requires Entered(t, root, b, path, n, a) && n !in a.shelf
    requires n in a'.shelf && a'.shelf == a.shelf[n := a'.shelf[n]] && a' == a.(shelf := a'.shelf, free := a'.free)
    ensures Entered(t, root, b, path, n, a')
  {
    hide Split, Resolve, Kept, NoneNew, SlotClean;
    assert a'.shelf - {n} == a.shelf - {n};
  }

  /** Only types differ, in one directory. */
  lemma BackAgain(k: Kids, names: Labels, shelf: Shelf, owned: map<TreeNode, nat>, perCluster: nat, d: TreeNode, shelf': Shelf)
    requires Agree(k, names, shelf, owned, perCluster) && Tidy(shelf', perCluster) && d in shelf && d in shelf'
    requires shelf' == shelf[d := Listing(shelf[d].kids, shelf'[d].types)]
    ensures Agree(k, names, shelf', owned, perCluster) && SameSets(shelf, shelf')
  {
    hide Tidy, ListMatches;
  }

  /** What exfat_rename does: the error of the paths, of the target, or none. Whatever fails
      changes nothing, and space is lacking exactly when there is no target to remove, no slot
      and no free cluster for one. On success the new path leads to the node. */
  ghost predicate RenameOutcome(t: UpcaseTable, root: TreeNode, perCluster: nat, b: Picture,
                                oldPath: seq<Comp>, newPath: seq<Comp>, rc: Rc, a: Picture) {
    && root in b.kids && Closed(b.kids, b.names) && root in a.kids && Closed(a.kids, a.names)
    && var src, dst := Resolve(t, b.kids, b.names, root, oldPath), Split(t, b.kids, b.names, root, newPath);
    && Renamed(b.kids, b.paths, b.names, src, dst, rc, a.kids, a.names)
    && (rc == NoSpace <==>
          && src.Got? && dst.Spot? && (dst.existing == null || dst.existing == src.node)
          && !(src.node.isDir && dst.dir in b.paths && src.node in b.paths[dst.dir])
          && Full(b.shelf, root, dst.dir, |dst.name|, perCluster, b.free))
    && (rc != Ok ==> a == b)
    && (rc == Ok ==>
          && Resolve(t, a.kids, a.names, root, newPath) == src && src.Got? && dst.Spot?
          && RenameKeeps(b.kids, b.shelf, a.shelf, root, src.node, dst.existing, dst.dir, |dst.name|, perCluster))
  }

  lemma FailedOutcome(t: UpcaseTable, root: TreeNode, perCluster: nat, b: Picture,
                      oldPath: seq<Comp>, newPath: seq<Comp>, rc: Rc)
    requires root in b.kids && Closed(b.kids, b.names)
    requires var src, dst := Resolve(t, b.kids, b.names, root, oldPath), Split(t, b.kids, b.names, root, newPath);
      if src.Lost? then rc == src.rc else dst.Nowhere? && rc == dst.rc
    ensures RenameOutcome(t, root, perCluster, b, oldPath, newPath, rc, b)
  {
    hide Resolve, Split, Closed, Full;
  }

  lemma InsideOutcome(t: UpcaseTable, root: TreeNode, perCluster: nat, b: Picture, oldPath: seq<Comp>, newPath: seq<Comp>)
    requires root in b.kids && Closed(b.kids, b.names)
    requires var src, dst := Resolve(t, b.kids, b.names, root, oldPath), Split(t, b.kids, b.names, root, newPath);
      && src.Got? && dst.Spot? && (dst.existing != null ==> dst.existing in b.kids)
      && src.node.isDir && dst.dir in b.paths && src.node in b.paths[dst.dir]
    ensures RenameOutcome(t, root, perCluster, b, oldPath, newPath, Invalid, b)
  {
    hide Resolve, Split, Closed, Full;
  }

  lemma ReplacedOutcome(t: UpcaseTable, root: TreeNode, perCluster: nat, b: Picture, w: Web,
                        oldPath: seq<Comp>, newPath: seq<Comp>, rc: Rc, a: Picture)
    requires Good(t, root, b.kids, b.paths, w, b.names)
    requires root in b.kids && Closed(b.kids, b.names) && root in a.kids && SiblingsApart(t, a.kids, a.names)
    requires rc != Ok ==> a == b
    requires var src, dst := Resolve(t, b.kids, b.names, root, oldPath), Split(t, b.kids, b.names, root, newPath);
      && src.Got? && dst.Spot?
      && RenameSteps(t, root, b.kids, b.paths, w, b.names, src.node, dst.dir, dst.existing, dst.name)
      && Replaced(b.kids, b.paths, b.names, src.node, dst.dir, dst.existing, dst.name, rc, a.kids, a.names)
      && (rc == NoSpace <==> (dst.existing == null || dst.existing == src.node)
                             && Full(b.shelf, root, dst.dir, |dst.name|, perCluster, b.free))
      && (rc == Ok ==> RenameKeeps(b.kids, b.shelf, a.shelf, root, src.node, dst.existing, dst.dir, |dst.name|, perCluster))
    ensures RenameOutcome(t, root, perCluster, b, oldPath, newPath, rc, a)
  {
    hide Resolve, Split, Full, Good, RenameKeeps;
    if rc == Ok {
      var src, dst := Resolve(t, b.kids, b.names, root, oldPath), Split(t, b.kids, b.names, root, newPath);
      RenamedResolves(t, root, b.kids, b.paths, w, b.names, src.node, newPath, a.kids, a.names);
    }
  }

  lemma NewKidLength(offset: nat, length: nat)
    ensures Slots.NewKid(offset, length).nameLength == length
  {
  }

  lemma StepsKnown(t: UpcaseTable, root: TreeNode, k: Kids, p: Paths, w: Web, names: Labels,
                   n: TreeNode, dir: TreeNode, existing: TreeNode?, name: Name)
    requires RenameSteps(t, root, k, p, w, names, n, dir, existing, name)
    ensures Proper(t) && n in k && dir in k && dir.isDir && dir in p && !(n in p[dir])
    ensures Labelled(names, k[dir]) && existing == First(t, names, k[dir], name)
    ensures existing != null ==> existing in k[dir]
  {
    if existing != null {
      FirstInside(t, names, k[dir], name);
    }
  }

  lemma FewerDirs(dirs: map<TreeNode, Slots.Directory>, gone: TreeNode)
    ensures (dirs - {gone}).Values <= dirs.Values
  {
  }

  lemma VerdictIs(k: Kids, p: Paths, n: TreeNode, dir: TreeNode, existing: TreeNode?)
    requires dir in p && n !in p[dir] && (existing != null ==> existing in k)
    ensures RenameVerdict(k, p, n, dir, existing) ==
      if existing == null || existing == n then Ok
      else if existing.isDir && !n.isDir then NotDir
      else if !existing.isDir && n.isDir then IsDir
      else if existing.isDir && k[existing] != [] then NotEmpty
      else Ok
  {
  }

  lemma CutForIs(k: Kids, p: Paths, names: Labels, existing: TreeNode?, n: TreeNode)
    ensures existing == null || existing == n ==>
      CutFor(k, existing, n) == k && PathsFor(p, existing, n) == p && NamesFor(names, existing, n) == names
    ensures existing != null && existing != n ==>
      CutFor(k, existing, n) == Cut(k, existing) && PathsFor(p, existing, n) == p - {existing}
      && NamesFor(names, existing, n) == names - {existing}
  {
  }

  lemma ReplacedCases(k: Kids, p: Paths, names: Labels, n: TreeNode, dir: TreeNode, existing: TreeNode?, name: Name,
                      rc: Rc, k': Kids, names': Labels)
    requires dir in p && n !in p[dir] && (existing != null ==> existing in k)
    requires var verdict := RenameVerdict(k, p, n, dir, existing);
      if verdict != Ok then rc == verdict && k' == k && names' == names
      else if rc != Ok then rc == NoSpace && (existing == null || existing == n) && k' == k && names' == names
      else k' == Relocated(CutFor(k, existing, n), n, dir) && names' == NamesFor(names, existing, n)[n := name]
    ensures Replaced(k, p, names, n, dir, existing, name, rc, k', names')
  {
  }

  /** After a deletion there is room for a set with a name as long, wherever it was. */
  lemma DeletedRoom(root: bool, kids: seq<Slots.Kid>, types: seq<Byte>, j: nat, perCluster: nat, small: seq<Byte>,
                    free: nat, left: nat)
    requires Slots.Good(kids, types, perCluster) && j < |kids|
    requires small == Slots.Shrunk(Slots.Erased(types, kids[j]), Without(kids, j), kids[j].offset, perCluster)
    requires Slots.Room(left, |small|, perCluster) == Slots.Room(free, |types|, perCluster)
    ensures !Slots.NoRoom(root, Without(kids, j), small, Slots.SetLength(kids[j].nameLength), perCluster, left)
  {
    hide Slots.NoRoom, Slots.Room, Slots.Shrunk, Slots.Erased, Without, Slots.NoneAcceptable, Slots.Disjoint, Slots.SetLength;
    var n := Slots.SetLength(kids[j].nameLength);
    Slots.ReuseFits(root, kids, types, j, perCluster, small, n);
    Slots.ReuseRoom(root, Without(kids, j), small, n, perCluster, left, |types|, free);
  }
}
