/** File names: zero-terminated UTF-16 compared through the up-case table. */
module Names {

  /** A code unit that can stand inside a name. */
  type Unit = u: nat | 0 < u < 0x1_0000 witness 1
  type Name = seq<Unit>

  /** The decompressed up-case table. */
  type UpcaseTable = t: seq<nat> | |t| == 0x1_0000 witness seq(0x1_0000, i => i)

  /** The k-th unit of a zero-terminated buffer. */
  function UnitAt(a: Name, k: nat): (u: nat)
    ensures u < 0x1_0000
  {
    if k < |a| then a[k] else 0
  }

  function CompareChar(t: UpcaseTable, a: nat, b: nat): int
    requires a < 0x1_0000 && b < 0x1_0000
  {
    (t[a] as int) - (t[b] as int)
  }

  /** compare_name: up to the first difference or the end of the shorter name. */
  method CompareName(t: UpcaseTable, a: Name, b: Name) returns (rc: int)
    ensures rc == Comparison(t, a, b)
  {
    var k := 0;
    while UnitAt(a, k) != 0 && UnitAt(b, k) != 0
      invariant k <= |a| && k <= |b|
      invariant Comparison(t, a, b) == Comparison(t, a[k..], b[k..])
      decreases |a| - k
    {
      var c := CompareChar(t, UnitAt(a, k), UnitAt(b, k));
      if c != 0 {
        return c;
      }
      assert a[k..][1..] == a[k + 1..] && b[k..][1..] == b[k + 1..];
      k := k + 1;
    }
    return CompareChar(t, UnitAt(a, k), UnitAt(b, k));
  }

  function Comparison(t: UpcaseTable, a: Name, b: Name): int {
    if a != [] && b != [] && t[a[0]] == t[b[0]] then Comparison(t, a[1..], b[1..])
    else (t[UnitAt(a, 0)] as int) - (t[UnitAt(b, 0)] as int)
  }

  /** Only the terminator is up-cased to what the terminator is up-cased to. */
  ghost predicate Proper(t: UpcaseTable) {
    forall u: Unit :: t[u] != t[0]
  }

  function Upper(t: UpcaseTable, a: Name): seq<nat> {
    seq(|a|, i requires 0 <= i < |a| => t[a[i]])
  }

  ghost predicate SameName(t: UpcaseTable, a: Name, b: Name) {
    Upper(t, a) == Upper(t, b)
  }

  /** With a proper table, comparing equal is having the same up-cased name. */
  lemma {:induction false} ComparesEqual(t: UpcaseTable, a: Name, b: Name)
    requires Proper(t)
    ensures Comparison(t, a, b) == 0 <==> SameName(t, a, b)
  {
    if a != [] && b != [] {
      ComparesEqual(t, a[1..], b[1..]);
      assert Upper(t, a) == [t[a[0]]] + Upper(t, a[1..]);
      assert Upper(t, b) == [t[b[0]]] + Upper(t, b[1..]);
      assert Upper(t, a)[0] == t[a[0]] && Upper(t, a)[1..] == Upper(t, a[1..]);
      assert Upper(t, b)[0] == t[b[0]] && Upper(t, b)[1..] == Upper(t, b[1..]);
    } else if a != [] {
      assert |Upper(t, a)| != |Upper(t, b)|;
    } else if b != [] {
      assert |Upper(t, a)| != |Upper(t, b)|;
    }
  }

  /** A table that up-cases a unit to the terminator's image makes a name compare equal to
      a longer one. */
  lemma ImproperTable(t: UpcaseTable, u: Unit)
    requires t[u] == t[0]
    ensures Comparison(t, [], [u]) == 0 && !SameName(t, [], [u])
  {
    assert |Upper(t, [])| != |Upper(t, [u])|;
  }

  /** Comparing equal means having the same up-cased name, for all names, exactly when the
      table is proper. */
  lemma EqualityNeedsProper(t: UpcaseTable)
    ensures Proper(t) <==> forall a: Name, b: Name :: Comparison(t, a, b) == 0 <==> SameName(t, a, b)
  {
    if Proper(t) {
      forall a: Name, b: Name
        ensures Comparison(t, a, b) == 0 <==> SameName(t, a, b)
      {
        ComparesEqual(t, a, b);
      }
    } else {
      var u: Unit :| t[u] == t[0];
      ImproperTable(t, u);
      var empty: Name, single: Name := [], [u];
      assert Comparison(t, empty, single) == 0 && !SameName(t, empty, single);
    }
  }
}
