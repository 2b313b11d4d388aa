/** Directory scans over a held lock: EXAMINE_OBJECT, EXAMINE_NEXT and the deletion of entries
    under a running scan. A directory's child list is a sequence of node identities. */
module Scan {
  import opened Common

  /** A node; two are the same object or different ones. */
  type Item = nat

  function At(s: seq<Item>, i: nat): Option<Item> {
    if i < |s| then Some(s[i]) else None
  }

  /** node->next */
  function NextOf(s: seq<Item>, x: Item): Option<Item>
    requires x in s
  {
    if s[0] == x then At(s, 1) else NextOf(s[1..], x)
  }

  /** A scan in order: the entries left behind are no more than those reported, none of those
      ahead was reported, and the cursor is the first one ahead. */
  ghost predicate InOrder(entries: seq<Item>, index: int, next: Option<Item>, reported: seq<Item>, passed: nat) {
    && NoDup(entries) && NoDup(reported)
    && passed <= |entries| && passed <= |reported|
    && (forall i :: passed <= i < |entries| ==> entries[i] !in reported)
    && (next.Some? ==> index == |reported| > 0 && next == At(entries, passed))
  }

  /** Every entry left behind was reported, and the position is not lost: the cursor is set,
      or nothing was reported yet, or nothing is ahead. */
  ghost predicate NothingMissed(entries: seq<Item>, next: Option<Item>, reported: seq<Item>, passed: nat) {
    && passed <= |entries|
    && (forall i :: 0 <= i < passed ==> entries[i] in reported)
    && (next.Some? || reported == [] || passed == |entries|)
  }

  /** Taking entry i out, the cursor moved off it first. */
  lemma RemovalKeepsOrder(entries: seq<Item>, i: nat, index: int, next: Option<Item>, reported: seq<Item>, passed: nat)
    requires i < |entries| && InOrder(entries, index, next, reported, passed)
    ensures var next' := if next == Some(entries[i]) then At(entries, i + 1) else next;
      var passed' := if i < passed then passed - 1 else passed;
      && InOrder(Without(entries, i), index, next', reported, passed')
      && (next'.Some? ==> next'.value in Without(entries, i))
      && (NothingMissed(entries, next, reported, passed) ==> NothingMissed(Without(entries, i), next', reported, passed'))
  {
    var e' := Without(entries, i);
    assert forall j :: 0 <= j < |e'| ==> e'[j] == entries[if j < i then j else j + 1];
  }

  /** Moving the cursor off an entry that stays. */
  lemma SkipBreaksOrder(entries: seq<Item>, i: nat, index: int, next: Option<Item>, reported: seq<Item>, passed: nat)
    requires i < |entries| && InOrder(entries, index, next, reported, passed)
    requires NothingMissed(entries, next, reported, passed)
    ensures var next' := if next == Some(entries[i]) then At(entries, i + 1) else next;
      (InOrder(entries, index, next', reported, passed) && NothingMissed(entries, next', reported, passed))
      == (next != Some(entries[i]))
  {
  }

  class Directory {
    var entries: seq<Item>
  }

  /** The scan state of a lock, and what the scan has reported so far. */
  class Lock {
    const dir: Directory
    var scanIndex: int
    var scanNext: Option<Item>
    ghost var reported: seq<Item>
    /** how many entries of the list the scan has left behind */
    ghost var passed: nat

    constructor (dir: Directory)
      ensures this.dir == dir && scanIndex == -1 && scanNext == None && reported == []
    {
      this.dir := dir;
      scanIndex, scanNext := -1, None;
      reported, passed := [], 0;
    }

    /** The cursor, where there is one, is an entry of the directory: not a freed node. */
    ghost predicate Live()
      reads this`scanNext, dir`entries
    {
      scanNext.Some? ==> scanNext.value in dir.entries
    }

    ghost predicate Scanning()
      reads this`scanNext, this`scanIndex, this`reported, this`passed, dir`entries
    {
      InOrder(dir.entries, scanIndex, scanNext, reported, passed)
    }

    ghost predicate Complete()
      reads this`scanNext, this`reported, this`passed, dir`entries
    {
      NothingMissed(dir.entries, scanNext, reported, passed)
    }
  }

  lemma {:induction false} NextOfAt(s: seq<Item>, i: nat)
    requires NoDup(s) && i < |s|
    ensures s[i] in s && NextOf(s, s[i]) == At(s, i + 1)
  {
    if i > 0 {
      assert s[0] != s[i] && s[i] == s[1..][i - 1];
      NextOfAt(s[1..], i - 1);
    }
  }

  ghost function IndexOf(s: seq<Item>, x: Item): (i: nat)
    requires x in s
    ensures i < |s| && s[i] == x
  {
    var i :| 0 <= i < |s| && s[i] == x;
    i
  }

  /** EXAMINE_NEXT on the b-th lock, or a DELETE_OBJECT of an entry of a directory. */
  datatype Packet = Next(b: nat) | Delete(d: Directory, x: Item)

  /** How often the scan of lock b is asked for an entry. */
  function Asked(packets: seq<Packet>, b: nat): nat {
    if packets == [] then 0
    else Asked(packets[..|packets| - 1], b) + if packets[|packets| - 1] == Next(b) then 1 else 0
  }

  /** The entries among the replies. */
  function Items(replies: seq<Option<Item>>): seq<Item> {
    if replies == [] then []
    else
      var last := replies[|replies| - 1];
      Items(replies[..|replies| - 1]) + (if last.Some? then [last.value] else [])
  }

  lemma ItemsStep(replies: seq<Option<Item>>, r: Option<Item>)
    ensures Items(replies + [r]) == Items(replies) + (if r.Some? then [r.value] else [])
  {
    assert (replies + [r])[..|replies|] == replies;
  }

  lemma InOrderNoDup(entries: seq<Item>, index: int, next: Option<Item>, reported: seq<Item>, passed: nat)
    requires InOrder(entries, index, next, reported, passed)
    ensures NoDup(entries) && NoDup(reported)
  {
  }

  lemma WithoutHas(s: seq<Item>, i: nat)
    requires NoDup(s) && i < |s|
    ensures forall y :: y in Without(s, i) <==> y in s && y != s[i]
  {
    var r := Without(s, i);
    forall y | y in s && y != s[i]
      ensures y in r
    {
      var j := IndexOf(s, y);
      assert r[if j < i then j else j - 1] == y;
    }
  }

  /** No directory lists a node twice, and no two list the same node. */
  ghost predicate Separate(dirs: set<Directory>)
    reads dirs
  {
    && (forall d :: d in dirs ==> NoDup(d.entries))
    && (forall d, e, x :: d in dirs && e in dirs && d != e && x in d.entries ==> x !in e.entries)
  }

  class Handler {
    var locks: seq<Lock>
    /** whether the volume node is on the DOS list: the locks hang off it */
    var published: bool

    /** do_examine_object: arms a scan. The client's key becomes 0. */
    method ExamineObject(l: Lock) returns (key: int)
      requires NoDup(l.dir.entries)
      modifies l
      ensures key == 0 == |l.reported| && l.Live() && l.Scanning() && l.Complete()
    {
      l.scanIndex := -1;
      l.scanNext := None;
      l.reported, l.passed := [], 0;
      key := 0;
    }

    /** do_examine_next: from the cursor when it matches the client's key, else by counting. */
    method ExamineNext(l: Lock, want: int) returns (item: Option<Item>, key: int)
      requires l.Live() && NoDup(l.dir.entries) && want >= 0
      modifies l
      ensures l.Live()
      ensures item == if old(l.scanIndex) == want && old(l.scanNext).Some? then old(l.scanNext) else At(l.dir.entries, want)
      ensures item.Some? ==> item.value in l.dir.entries && l.scanNext == NextOf(l.dir.entries, item.value)
      ensures item.Some? ==> key == l.scanIndex == want + 1 && l.reported == old(l.reported) + [item.value]
      ensures item == None ==> key == want && l.scanNext == None && l.scanIndex == -1 && l.reported == old(l.reported)
      ensures old(l.Scanning()) && want == |old(l.reported)| ==> l.Scanning() && key == |l.reported|
      ensures old(l.Scanning()) && want == |old(l.reported)| && item.Some? ==> item.value !in old(l.reported)
      ensures old(l.Scanning() && l.Complete()) && want == |old(l.reported)| ==> l.Complete()
      ensures old(l.Scanning() && l.Complete()) && want == |old(l.reported)| && item == None ==>
        forall x :: x in l.dir.entries ==> x in l.reported
    {
      var entries := l.dir.entries;
      if l.scanIndex == want && l.scanNext.Some? {
        var node := l.scanNext.value;
        ghost var i := IndexOf(entries, node);
        NextOfAt(entries, i);
        l.scanNext := NextOf(entries, node);
        l.scanIndex := want + 1;
        l.reported, l.passed := l.reported + [node], i + 1;
        return Some(node), want + 1;
      }
      var index := 0;
      while index < |entries|
        invariant index <= |entries| && index <= want
      {
        if index == want {
          NextOfAt(entries, index);
          l.scanNext := NextOf(entries, entries[index]);
          l.scanIndex := want + 1;
          l.reported, l.passed := l.reported + [entries[index]], index + 1;
          return Some(entries[index]), want + 1;
        }
        index := index + 1;
      }
      l.scanNext := None;
      l.scanIndex := -1;
      return None, want;
    }

    /** scan_skip_node: moves every cursor off a node that is about to go. */
    method ScanSkipNode(d: Directory, x: Item)
      requires x in d.entries
      modifies locks`scanNext
      ensures forall l :: l in locks ==>
        l.scanNext == if published && old(l.scanNext) == Some(x) then NextOf(d.entries, x) else old(l.scanNext)
    {
      if !published {
        return;
      }
      var b := 0;
      while b < |locks|
        invariant b <= |locks|
        invariant forall l :: l in locks ==>
          l.scanNext == if l in locks[..b] && old(l.scanNext) == Some(x) then NextOf(d.entries, x) else old(l.scanNext)
      {
        var l := locks[b];
        if l.scanNext == Some(x) {
          l.scanNext := NextOf(d.entries, x);
        }
        b := b + 1;
      }
    }

    /** A node is a child of one directory only. */
    ghost predicate NodesInOnePlace(d: Directory, x: Item)
      reads this`locks, (set l | l in locks :: l.dir)`entries
    {
      forall l :: l in locks && l.dir != d ==> x !in l.dir.entries
    }

    /** do_delete_object from scan_skip_node on. `removable` is false for a directory that still
        has entries: exfat_rmdir refuses it, but the cursors have moved already. */
    method DeleteObject(d: Directory, x: Item, removable: bool) returns (ok: bool)
      requires x in d.entries && NoDup(d.entries) && NodesInOnePlace(d, x)
      modifies locks, d
      ensures ok == removable
      ensures d.entries == if removable then Without(old(d.entries), IndexOf(old(d.entries), x)) else old(d.entries)
      ensures forall l :: l in locks ==> l.reported == old(l.reported) && l.scanIndex == old(l.scanIndex)
      ensures ok && published ==> forall l :: l in locks && old(l.Scanning()) ==>
        l.Scanning() && l.Live() && (old(l.Complete()) ==> l.Complete())
      ensures !ok && published ==> forall l :: l in locks && old(l.Scanning() && l.Complete()) ==>
        (l.Scanning() && l.Complete()) == (old(l.scanNext) != Some(x))
      ensures !published ==> forall l :: l in locks ==> l.scanNext == old(l.scanNext)
      ensures published ==> forall l :: l in locks ==>
        l.scanNext == if old(l.scanNext) == Some(x) then NextOf(old(d.entries), x) else old(l.scanNext)
    {
      hide InOrder, NothingMissed, NoDup, Without;
      ghost var i := IndexOf(d.entries, x);
      ghost var before := d.entries;
      NextOfAt(before, i);
      RemovedIsWithout(before, i);
      CursorsAtHome(d, x);
      ScanSkipNode(d, x);
      if !removable {
        forall l | l in locks && l.dir == d && old(l.Scanning() && l.Complete())
          ensures (l.Scanning() && l.Complete()) == (old(l.scanNext) != Some(x)) || !published
        {
          SkipBreaksOrder(before, i, l.scanIndex, old(l.scanNext), l.reported, l.passed);
        }
        return false;
      }
      forall l | l in locks && l.dir == d && old(l.Scanning())
        ensures var n := if old(l.scanNext) == Some(x) then At(before, i + 1) else old(l.scanNext);
          var k := if i < l.passed then l.passed - 1 else l.passed;
          && InOrder(Without(before, i), l.scanIndex, n, l.reported, k)
          && (n.Some? ==> n.value in Without(before, i))
          && (old(l.Complete()) ==> NothingMissed(Without(before, i), n, l.reported, k))
      {
        RemovalKeepsOrder(before, i, l.scanIndex, old(l.scanNext), l.reported, l.passed);
      }
      d.entries := Removed(d.entries, x);
      forall l | l in locks && l.dir == d && i < l.passed {
        l.passed := l.passed - 1;
      }
      return true;
    }

    /** One EXAMINE_NEXT of a scan in order. */
    method NextOfScan(l: Lock, want: int) returns (item: Option<Item>, key: int)
      requires l.Live() && l.Scanning() && l.Complete() && want == |l.reported|
      modifies l
      ensures l.Live() && l.Scanning() && l.Complete() && key == |l.reported|
      ensures l.reported == old(l.reported) + (if item.Some? then [item.value] else []) && NoDup(l.reported)
      ensures item == None ==> forall x :: x in l.dir.entries ==> x in l.reported
    {
      hide InOrder, NothingMissed;
      InOrderNoDup(l.dir.entries, l.scanIndex, l.scanNext, l.reported, l.passed);
      item, key := ExamineNext(l, want);
      InOrderNoDup(l.dir.entries, l.scanIndex, l.scanNext, l.reported, l.passed);
    }

    /** Where a client stands that has examined its lock from the start: every reply was a new
        entry, and once the scan said there are no more, every entry still there was reported. */
    ghost predicate InStep(l: Lock, key: int, replies: seq<Option<Item>>)
      reads l, l.dir
    {
      && l.Live() && l.Scanning() && l.Complete()
      && key == |l.reported| && l.reported == Items(replies) && NoDup(l.reported)
      && (replies != [] && replies[|replies| - 1] == None ==> forall x :: x in l.dir.entries ==> x in l.reported)
    }

    ghost predicate AllInStep(keys: seq<int>, replies: seq<seq<Option<Item>>>)
      reads this`locks, locks, set l | l in locks :: l.dir
    {
      && |keys| == |replies| == |locks|
      && forall b :: 0 <= b < |locks| ==> InStep(locks[b], keys[b], replies[b])
    }

    ghost predicate Distinct()
      reads this`locks
    {
      forall b, c :: 0 <= b < c < |locks| ==> locks[b] != locks[c]
    }

    /** One EXAMINE_NEXT; the other scans are not disturbed. */
    method Step(b: nat, keys: seq<int>, replies: seq<seq<Option<Item>>>) returns (key: int, item: Option<Item>)
      requires b < |locks| && Distinct() && AllInStep(keys, replies)
      modifies locks[b]
      ensures AllInStep(keys[b := key], replies[b := replies[b] + [item]])
    {
      hide InOrder, NothingMissed, NoDup, Items;
      var l := locks[b];
      item, key := NextOfScan(l, keys[b]);
      ItemsStep(replies[b], item);
      assert InStep(l, key, replies[b] + [item]);
      forall c | 0 <= c < |locks| && c != b
        ensures InStep(locks[c], keys[c], replies[c])
      {
        assert locks[c] != l;
      }
    }

    /** One successful DELETE_OBJECT under the scans; a name that is gone is not found. */
    method DeleteDuringScans(dirs: set<Directory>, d: Directory, x: Item, ghost keys: seq<int>, ghost replies: seq<seq<Option<Item>>>)
      requires published && AllInStep(keys, replies) && Separate(dirs) && d in dirs
      requires forall l :: l in locks ==> l.dir in dirs
      modifies locks, d
      ensures AllInStep(keys, replies) && Separate(dirs)
      ensures forall y :: y in d.entries <==> y in old(d.entries) && y != x
    {
      hide InOrder, NothingMissed;
      if x in d.entries {
        WithoutHas(d.entries, IndexOf(d.entries, x));
        var ok := DeleteObject(d, x, true);
      }
    }

    /** One packet under the scans. */
    method Serve(dirs: set<Directory>, p: Packet, keys: seq<int>, replies: seq<seq<Option<Item>>>)
      returns (keys': seq<int>, replies': seq<seq<Option<Item>>>)
      requires published && Distinct() && AllInStep(keys, replies) && Separate(dirs)
      requires forall l :: l in locks ==> l.dir in dirs
      requires if p.Next? then p.b < |locks| else p.d in dirs
      modifies locks, dirs
      ensures AllInStep(keys', replies') && Separate(dirs)
      ensures forall b :: 0 <= b < |locks| ==> |replies'[b]| == |replies[b]| + if p == Next(b) then 1 else 0
      ensures forall d, x :: d in dirs ==> (x in d.entries <==> x in old(d.entries) && Packet.Delete(d, x) != p)
    {
      hide InOrder, NothingMissed, NoDup, Items;
      match p {
        case Next(b) =>
          var key, item := Step(b, keys, replies);
          keys', replies' := keys[b := key], replies[b := replies[b] + [item]];
        case Delete(d, x) =>
          DeleteDuringScans(dirs, d, x, keys, replies);
          keys', replies' := keys, replies;
      }
    }

    /** Any number of scans on held locks, in any directories, with deletions in any of them.
        Every reply is a new entry for its client, and once a scan says there are no more, every
        entry still there was reported to it. */
    method Run(dirs: set<Directory>, packets: seq<Packet>) returns (replies: seq<seq<Option<Item>>>)
      requires published && Distinct() && Separate(dirs) && forall l :: l in locks ==> l.dir in dirs
      requires forall p :: p in packets ==> if p.Next? then p.b < |locks| else p.d in dirs
      modifies locks, dirs
      ensures |replies| == |locks|
      ensures forall b :: 0 <= b < |locks| ==> locks[b].reported == Items(replies[b]) && NoDup(locks[b].reported)
      ensures forall b :: 0 <= b < |locks| && replies[b] != [] && replies[b][|replies[b]| - 1] == None ==>
        forall x :: x in locks[b].dir.entries ==> x in locks[b].reported
      ensures forall b :: 0 <= b < |locks| ==> |replies[b]| == Asked(packets, b)
      ensures forall d, x :: d in dirs ==> (x in d.entries <==> x in old(d.entries) && Packet.Delete(d, x) !in packets)
    {
      hide InOrder, NothingMissed, NoDup, Items;
      var keys := StartAll(dirs);
      replies := seq(|locks|, b => []);
      var i := 0;
      while i < |packets|
        invariant i <= |packets| && AllInStep(keys, replies) && Separate(dirs)
        invariant forall b :: 0 <= b < |locks| ==> |replies[b]| == Asked(packets[..i], b)
        invariant forall d, x :: d in dirs ==> (x in d.entries <==> x in old(d.entries) && Packet.Delete(d, x) !in packets[..i])
      {
        assert packets[i] in packets;
        assert packets[..i + 1] == packets[..i] + [packets[i]] && packets[..i + 1][..i] == packets[..i];
        keys, replies := Serve(dirs, packets[i], keys, replies);
        i := i + 1;
      }
      assert forall b :: 0 <= b < |locks| ==> InStep(locks[b], keys[b], replies[b]);
      assert packets[..i] == packets;
    }

    method StartAll(dirs: set<Directory>) returns (keys: seq<int>)
      requires Distinct() && Separate(dirs) && forall l :: l in locks ==> l.dir in dirs
      modifies locks
      ensures AllInStep(keys, seq(|locks|, b => []))
    {
      hide InOrder, NothingMissed;
      keys := [];
      while |keys| < |locks|
        invariant |keys| <= |locks|
        invariant forall b :: 0 <= b < |keys| ==> InStep(locks[b], keys[b], [])
      {
        var l := locks[|keys|];
        var key := ExamineObject(l);
        assert forall b :: 0 <= b < |keys| ==> locks[b] != l;
        keys := keys + [key];
      }
    }

    /** A delete that is refused, on the entry the scan stands at: the scan never reports it,
        and reports the last entry twice. */
    method RefusedDelete() returns (replies: seq<Option<Item>>)
      requires locks == []
      modifies this
      ensures replies == [Some(1), Some(3), Some(4), Some(4), None]
    {
      var d := new Directory;
      d.entries := [1, 2, 3, 4];
      var l := new Lock(d);
      locks, published := [l], true;
      var key := ExamineObject(l);
      var r1, r2, r3, r4, r5;
      r1, key := ExamineNext(l, key);
      assert r1 == Some(1) && l.scanNext == Some(2);
      assert l in locks;
      var ok := DeleteObject(d, 2, false);
      assert l.scanNext == Some(3);
      r2, key := ExamineNext(l, key);
      assert l.scanNext == Some(4);
      r3, key := ExamineNext(l, key);
      assert l.scanNext == None;
      r4, key := ExamineNext(l, key);
      r5, key := ExamineNext(l, key);
      replies := [r1, r2, r3, r4, r5];
    }

    /** A cursor points into its own directory. */
    lemma CursorsAtHome(d: Directory, x: Item)
      requires NodesInOnePlace(d, x)
      ensures forall l :: l in locks && l.Scanning() ==> l.Live() && (l.scanNext == Some(x) ==> l.dir == d)
    {
    }
  }

  /** The list without a node, as tree_detach leaves it. */
  function Removed(s: seq<Item>, x: Item): seq<Item>
    requires x in s
  {
    if s[0] == x then s[1..] else [s[0]] + Removed(s[1..], x)
  }

  lemma {:induction false} RemovedIsWithout(s: seq<Item>, i: nat)
    requires NoDup(s) && i < |s|
    ensures s[i] in s && Removed(s, s[i]) == Without(s, i)
  {
    if i > 0 {
      assert s[0] != s[i] && s[i] == s[1..][i - 1];
      RemovedIsWithout(s[1..], i - 1);
      assert Without(s, i) == [s[0]] + Without(s[1..], i - 1);
    }
  }
}
