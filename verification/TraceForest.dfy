/** What the rebuilt tree holds, for any set of rows: every row once, where it belongs, siblings in order. */
module TraceForest {
  import opened Trace
  import opened CallTrace

  function RowsOf(t: Tree): seq<InternalTx>
    decreases t
  {
    [t.row] + RowsIn(t.children)
  }

  function RowsIn(ts: seq<Tree>): seq<InternalTx>
    decreases ts
  {
    if ts == [] then [] else RowsOf(ts[0]) + RowsIn(ts[1..])
  }

  /**
   * Every node is a child of the node of its direct parent if that row is present and of the root otherwise,
   * has its path's length as depth, and comes after its elder siblings in path order.
   */
  ghost predicate WellPlaced(rows: seq<InternalTx>, p: Path, ts: seq<Tree>)
    decreases ts
  {
    && (forall i :: 0 <= i < |ts| ==> Under(rows, ts[i].row) == p && ts[i].depth == |PathOf(ts[i].row)|)
    && (forall i, j :: 0 <= i < j < |ts| ==> RowLess(ts[i].row, ts[j].row))
    && (forall i :: 0 <= i < |ts| ==> WellPlaced(rows, PathOf(ts[i].row), ts[i].children))
  }

  lemma {:induction false} KidsSorted(rows: seq<InternalTx>, part: seq<InternalTx>, p: Path)
    requires StrictlySorted(part)
    ensures StrictlySorted(Kids(rows, part, p))
  {
    hide RowLess, Under, CanonicalAddr, PathOf;
    if part != [] {
      var init := part[..|part| - 1];
      KidsSorted(rows, init, p);
      var ks := Kids(rows, init, p);
      forall r | r in ks ensures RowLess(r, part[|part| - 1]) {
        assert r in init;
        var i :| 0 <= i < |init| && part[i] == r;
        assert RowLess(part[i], part[|part| - 1]);
      }
      var all := Kids(rows, part, p);
      forall i, j | 0 <= i < j < |all| ensures RowLess(all[i], all[j]) {
        assert ks[i] in ks;
      }
    }
  }

  lemma {:induction false} TreesWellPlaced(rows: seq<InternalTx>, p: Path)
    requires StrictlySorted(rows) && CanonicalRows(rows)
    ensures WellPlaced(rows, p, ChildTrees(rows, p))
    decreases MaxDepth(rows) - |p|
  {
    hide CanonicalAddr, PathOf, RowLess;
    KidsSorted(rows, rows, p);
    var ks, ts := Kids(rows, rows, p), ChildTrees(rows, p);
    forall i | 0 <= i < |ts|
      ensures Under(rows, ts[i].row) == p && WellPlaced(rows, PathOf(ts[i].row), ts[i].children)
    {
      assert ks[i] in ks && ts[i] == NodeTree(rows, p, ks[i]);
      TreesWellPlaced(rows, PathOf(ks[i]));
    }
  }

  // ----- Each row once -----

  /** One step towards the root: the direct parent if present, else the root. */
  function Up(rows: seq<InternalTx>, q: Path): (p: Path)
    requires q != []
    ensures |p| < |q|
  {
    if HasPath(rows, q[..|q| - 1]) then q[..|q| - 1] else []
  }

  /** p lies strictly above q. */
  predicate Above(rows: seq<InternalTx>, q: Path, p: Path)
    decreases |q|
  {
    q != [] && (Up(rows, q) == p || Above(rows, Up(rows, q), p))
  }

  lemma {:induction false} AboveShorter(rows: seq<InternalTx>, q: Path, p: Path)
    requires Above(rows, q, p)
    ensures |p| < |q|
    decreases |q|
  {
    if Up(rows, q) != p {
      AboveShorter(rows, Up(rows, q), p);
    }
  }

  lemma {:induction false} RootAbove(rows: seq<InternalTx>, q: Path)
    requires q != []
    ensures Above(rows, q, [])
    decreases |q|
  {
    if Up(rows, q) != [] {
      RootAbove(rows, Up(rows, q));
    }
  }

  /** q is at or below c. */
  predicate Through(rows: seq<InternalTx>, q: Path, c: Path) {
    q == c || Above(rows, q, c)
  }

  /** Of the nodes directly below p, at most one is passed on the way from q up. */
  lemma {:induction false} OneThrough(rows: seq<InternalTx>, p: Path, q: Path, c: Path, d: Path)
    requires c != [] && d != [] && Up(rows, c) == p == Up(rows, d)
    requires Through(rows, q, c) && Through(rows, q, d)
    ensures c == d
    decreases |q|
  {
    if q == c && q != d {
      if Up(rows, q) != d {
        AboveShorter(rows, Up(rows, q), d);
      }
    } else if q == d && q != c {
      if Up(rows, q) != c {
        AboveShorter(rows, Up(rows, q), c);
      }
    } else if q != c {
      OneThrough(rows, p, Up(rows, q), c, d);
    }
  }

  /** The node directly below p that is passed on the way from q up to p. */
  lemma {:induction false} SomeThrough(rows: seq<InternalTx>, p: Path, q: Path) returns (c: Path)
    requires Above(rows, q, p) && HasPath(rows, q)
    ensures c != [] && HasPath(rows, c) && Up(rows, c) == p && Through(rows, q, c)
    decreases |q|
  {
    if Up(rows, q) == p {
      c := q;
    } else {
      c := SomeThrough(rows, p, Up(rows, q));
    }
  }

  lemma {:induction false} ThroughAbove(rows: seq<InternalTx>, p: Path, q: Path, c: Path)
    requires c != [] && Up(rows, c) == p && Through(rows, q, c)
    ensures Above(rows, q, p)
    decreases |q|
  {
    if q != c && Up(rows, q) != p {
      ThroughAbove(rows, p, Up(rows, q), c);
    }
  }

  function Times(rows: seq<InternalTx>, x: InternalTx): nat {
    multiset(rows)[x]
  }

  lemma TimesConcat(a: seq<InternalTx>, b: seq<InternalTx>, x: InternalTx)
    ensures Times(a + b, x) == Times(a, x) + Times(b, x)
  {
  }

  /** A row occurs below p once if p lies above it, and not at all otherwise. */
  lemma {:induction false} TimesBelow(rows: seq<InternalTx>, p: Path, x: InternalTx)
    requires StrictlySorted(rows) && CanonicalRows(rows) && x in rows
    ensures Times(RowsIn(ChildTrees(rows, p)), x) == if Above(rows, PathOf(x), p) then 1 else 0
    decreases MaxDepth(rows) - |p|
  {
    hide CanonicalAddr, PathOf, RowLess, HasPath, StrictlySorted, Above, Up;
    var ks, ts := Kids(rows, rows, p), ChildTrees(rows, p);
    KidsSorted(rows, rows, p);
    assert ts[0..] == ts;
    TimesFrom(rows, p, x, 0);
    if Above(rows, PathOf(x), p) {
      ARowHasItsPath(rows, x);
      var c := SomeThrough(rows, p, PathOf(x));
      var j := KidAt(rows, p, c);
    }
    forall j | 0 <= j < |ks| && Through(rows, PathOf(x), PathOf(ks[j])) ensures Above(rows, PathOf(x), p) {
      KidUp(rows, p, j);
      ThroughAbove(rows, p, PathOf(x), PathOf(ks[j]));
    }
  }

  lemma ARowHasItsPath(rows: seq<InternalTx>, x: InternalTx)
    requires x in rows
    ensures HasPath(rows, PathOf(x))
  {
  }

  lemma KidUp(rows: seq<InternalTx>, p: Path, j: nat)
    requires CanonicalRows(rows) && j < |Kids(rows, rows, p)|
    ensures var q := PathOf(Kids(rows, rows, p)[j]);
            q != [] && Up(rows, q) == p && |p| < |q|
  {
    assert Kids(rows, rows, p)[j] in Kids(rows, rows, p);
  }

  lemma KidAt(rows: seq<InternalTx>, p: Path, c: Path) returns (j: nat)
    requires c != [] && HasPath(rows, c) && Up(rows, c) == p
    ensures j < |Kids(rows, rows, p)| && PathOf(Kids(rows, rows, p)[j]) == c
  {
    hide CanonicalAddr, PathOf, Kids;
    var i :| 0 <= i < |rows| && PathOf(rows[i]) == c;
    assert rows[i] in Kids(rows, rows, p);
    j :| 0 <= j < |Kids(rows, rows, p)| && Kids(rows, rows, p)[j] == rows[i];
  }

  ghost predicate ThroughFrom(rows: seq<InternalTx>, p: Path, x: InternalTx, i: nat) {
    exists j :: i <= j < |Kids(rows, rows, p)| && Through(rows, PathOf(x), PathOf(Kids(rows, rows, p)[j]))
  }

  lemma {:induction false} TimesFrom(rows: seq<InternalTx>, p: Path, x: InternalTx, i: nat)
    requires StrictlySorted(rows) && CanonicalRows(rows) && x in rows && i <= |Kids(rows, rows, p)|
    ensures Times(RowsIn(ChildTrees(rows, p)[i..]), x) == if ThroughFrom(rows, p, x, i) then 1 else 0
    decreases MaxDepth(rows) - |p|, 0, |Kids(rows, rows, p)| - i
  {
    hide CanonicalAddr, PathOf, RowLess, HasPath, StrictlySorted, Above, Up, Kids;
    var ks, ts := Kids(rows, rows, p), ChildTrees(rows, p);
    if i < |ks| {
      var k := ks[i];
      KidUp(rows, p, i);
      TimesFrom(rows, p, x, i + 1);
      KidInRows(rows, p, i);
      TimesBelow(rows, PathOf(k), x);
      assert ts[i..][0] == NodeTree(rows, p, k) && ts[i..][1..] == ts[i + 1..];
      TimesConcat([k], RowsIn(ChildTrees(rows, PathOf(k))), x);
      TimesConcat(RowsOf(ts[i]), RowsIn(ts[i + 1..]), x);
      if Through(rows, PathOf(x), PathOf(k)) {
        OnlyThrough(rows, p, x, i);
        SamePathSameRow(rows, x, k);
      }
    }
  }

  lemma KidInRows(rows: seq<InternalTx>, p: Path, i: nat)
    requires i < |Kids(rows, rows, p)|
    ensures Kids(rows, rows, p)[i] in rows && Under(rows, Kids(rows, rows, p)[i]) == p
  {
    assert Kids(rows, rows, p)[i] in Kids(rows, rows, p);
  }

  lemma SamePathSameRow(rows: seq<InternalTx>, x: InternalTx, k: InternalTx)
    requires StrictlySorted(rows) && x in rows && k in rows
    ensures PathOf(x) == PathOf(k) <==> x == k
    ensures !Above(rows, PathOf(x), PathOf(x))
  {
    hide CanonicalAddr, PathOf;
    var i :| 0 <= i < |rows| && rows[i] == x;
    var j :| 0 <= j < |rows| && rows[j] == k;
    PathLessIrreflexive(PathOf(x));
    if Above(rows, PathOf(x), PathOf(x)) {
      AboveShorter(rows, PathOf(x), PathOf(x));
    }
  }

  /** No younger sibling is passed as well. */
  lemma OnlyThrough(rows: seq<InternalTx>, p: Path, x: InternalTx, i: nat)
    requires StrictlySorted(rows) && CanonicalRows(rows) && i < |Kids(rows, rows, p)|
    requires Through(rows, PathOf(x), PathOf(Kids(rows, rows, p)[i]))
    ensures !ThroughFrom(rows, p, x, i + 1)
  {
    hide CanonicalAddr, PathOf, Kids, Through;
    var ks := Kids(rows, rows, p);
    KidsSorted(rows, rows, p);
    forall j | i + 1 <= j < |ks| ensures !Through(rows, PathOf(x), PathOf(ks[j])) {
      assert RowLess(ks[i], ks[j]);
      PathLessIrreflexive(PathOf(ks[i]));
      KidUp(rows, p, i);
      KidUp(rows, p, j);
      if Through(rows, PathOf(x), PathOf(ks[j])) {
        OneThrough(rows, p, PathOf(x), PathOf(ks[i]), PathOf(ks[j]));
      }
    }
  }

  lemma {:induction false} OnlyRows(rows: seq<InternalTx>, p: Path, i: nat, x: InternalTx)
    requires CanonicalRows(rows) && i <= |Kids(rows, rows, p)|
    requires x in RowsIn(ChildTrees(rows, p)[i..])
    ensures x in rows
    decreases MaxDepth(rows) - |p|, |Kids(rows, rows, p)| - i
  {
    hide CanonicalAddr, PathOf, Kids;
    var ks, ts := Kids(rows, rows, p), ChildTrees(rows, p);
    if i < |ks| {
      KidUp(rows, p, i);
      KidInRows(rows, p, i);
      assert ts[i..][0] == NodeTree(rows, p, ks[i]) && ts[i..][1..] == ts[i + 1..];
      var below := ChildTrees(rows, PathOf(ks[i]));
      assert below[0..] == below;
      if x in RowsIn(below) {
        OnlyRows(rows, PathOf(ks[i]), 0, x);
      } else if x in RowsIn(ts[i + 1..]) {
        OnlyRows(rows, p, i + 1, x);
      }
    }
  }

  lemma OnceWhenSorted(rows: seq<InternalTx>, x: InternalTx)
    requires StrictlySorted(rows) && x in rows
    ensures Times(rows, x) == 1
  {
    hide RowLess;
    var k :| 0 <= k < |rows| && rows[k] == x;
    var front, back := rows[..k], rows[k + 1..];
    forall i | 0 <= i < |rows| && i != k ensures rows[i] != x {
      PathLessIrreflexive(PathOf(x));
      SelfLess(x);
    }
    assert rows == front + [x] + back;
    assert x !in front && x !in back;
  }

  lemma SelfLess(x: InternalTx)
    ensures !RowLess(x, x)
  {
    PathLessIrreflexive(PathOf(x));
  }

  /** Every row is in the tree exactly once and nothing else is. */
  lemma EachRowOnce(rows: seq<InternalTx>)
    requires StrictlySorted(rows) && CanonicalRows(rows)
    ensures multiset(RowsIn(ChildTrees(rows, []))) == multiset(rows)
  {
    var all := RowsIn(ChildTrees(rows, []));
    forall x ensures Times(all, x) == Times(rows, x) {
      if x in rows {
        TimesBelow(rows, [], x);
        RowAddr(x);
        RootAbove(rows, PathOf(x));
        OnceWhenSorted(rows, x);
      } else if x in all {
        assert ChildTrees(rows, [])[0..] == ChildTrees(rows, []);
        OnlyRows(rows, [], 0, x);
      }
    }
    SameTimes(all, rows);
  }

  lemma SameTimes(a: seq<InternalTx>, b: seq<InternalTx>)
    requires forall x :: Times(a, x) == Times(b, x)
    ensures multiset(a) == multiset(b)
  {
    forall x ensures multiset(a)[x] == multiset(b)[x] {
      assert Times(a, x) == Times(b, x);
    }
  }
}
