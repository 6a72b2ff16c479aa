/** Flattening a trace and rebuilding the tree gives the trace's own shape back. */
module TraceRoundTrip {
  import opened Trace
  import opened CallTrace
  import opened TraceForest
  import opened BuildTree

  // ----- The tree a call frame stands for -----

  /** The frame at path, as the tree view should show it. */
  ghost function FrameTree(f: CallFrame, ref: TxRef, path: Path): Tree
    decreases f
  {
    Tree(RowOf(f, ref, path), |path|, FrameTrees(f.calls, ref, path))
  }

  ghost function FrameTrees(calls: seq<CallFrame>, ref: TxRef, path: Path): (ts: seq<Tree>)
    ensures |ts| == |calls|
    decreases calls
  {
    seq(|calls|, i requires 0 <= i < |calls| => FrameTree(calls[i], ref, path + [i]))
  }

  /** t has f's values, and a child for each of f's calls, in order, that mirrors it one level further down. */
  ghost predicate Mirrors(t: Tree, f: CallFrame, ref: TxRef, depth: nat)
    decreases f
  {
    Reports(t.row, f, ref) && t.depth == depth && MirrorsAll(t.children, f.calls, ref, depth + 1)
  }

  ghost predicate MirrorsAll(ts: seq<Tree>, calls: seq<CallFrame>, ref: TxRef, depth: nat)
    decreases calls
  {
    |ts| == |calls| && forall i :: 0 <= i < |calls| ==> Mirrors(ts[i], calls[i], ref, depth)
  }

  lemma {:induction false} FrameTreeMirrors(f: CallFrame, ref: TxRef, path: Path)
    ensures Mirrors(FrameTree(f, ref, path), f, ref, |path|)
    decreases f
  {
    hide Reports, RowOf, FrameTrees, MirrorsAll;
    RowReports(f, ref, path);
    FrameTreesMirror(f.calls, ref, path);
  }

  lemma {:induction false} FrameTreesMirror(calls: seq<CallFrame>, ref: TxRef, path: Path)
    ensures MirrorsAll(FrameTrees(calls, ref, path), calls, ref, |path| + 1)
    decreases calls
  {
    hide Mirrors, FrameTree;
    var ts := FrameTrees(calls, ref, path);
    forall i | 0 <= i < |calls| ensures Mirrors(ts[i], calls[i], ref, |path| + 1) {
      FrameTreeMirrors(calls[i], ref, path + [i]);
      assert ts[i] == FrameTree(calls[i], ref, path + [i]);
    }
  }

  // ----- Flattened rows are in order -----

  /** q is below base, at or after its i-th child. */
  predicate Beyond(q: Path, base: Path, i: nat) {
    |q| > |base| && q[..|base|] == base && q[|base|] >= i
  }

  lemma RowPath(f: CallFrame, ref: TxRef, path: Path)
    requires path != []
    ensures CanonicalAddr(RowOf(f, ref, path).traceAddress) && PathOf(RowOf(f, ref, path)) == path
  {
    ParseAddr(path);
    AddrParse(Addr(path));
  }

  lemma {:induction false} ListRowsBeyond(calls: seq<CallFrame>, ref: TxRef, path: Path, i: nat)
    requires i <= |calls|
    ensures forall r :: r in ListRows(calls, ref, path, i)
                        ==> CanonicalAddr(r.traceAddress) && Beyond(PathOf(r), path, i)
    decreases calls, |calls| - i
  {
    hide CanonicalAddr, PathOf, RowOf;
    if i < |calls| {
      ListRowsBeyond(calls, ref, path, i + 1);
      SubRowsBelow(calls[i], ref, path + [i]);
      forall r | r in SubRows(calls[i], ref, path + [i]) ensures Beyond(PathOf(r), path, i) {
        assert (path + [i])[..|path|] == path;
        var q := PathOf(r);
        assert q[..|path|] == q[..|path| + 1][..|path|];
      }
    }
  }

  lemma {:induction false} SubRowsBelow(f: CallFrame, ref: TxRef, path: Path)
    requires path != []
    ensures forall r :: r in SubRows(f, ref, path) ==> CanonicalAddr(r.traceAddress) && path <= PathOf(r)
    decreases f
  {
    hide CanonicalAddr, PathOf, RowOf;
    RowPath(f, ref, path);
    ListRowsBeyond(f.calls, ref, path, 0);
  }

  lemma {:induction false} ListRowsSorted(calls: seq<CallFrame>, ref: TxRef, path: Path, i: nat)
    requires i <= |calls|
    ensures StrictlySorted(ListRows(calls, ref, path, i))
    decreases calls, |calls| - i
  {
    hide CanonicalAddr, PathOf, RowOf, RowLess;
    if i < |calls| {
      var head, tail := SubRows(calls[i], ref, path + [i]), ListRows(calls, ref, path, i + 1);
      SubRowsSorted(calls[i], ref, path + [i]);
      ListRowsSorted(calls, ref, path, i + 1);
      SubRowsBelow(calls[i], ref, path + [i]);
      ListRowsBeyond(calls, ref, path, i + 1);
      forall r, s | r in head && s in tail ensures RowLess(r, s) {
        BranchesInOrder(path, i, r, s);
      }
    }
  }

  lemma {:induction false} SubRowsSorted(f: CallFrame, ref: TxRef, path: Path)
    requires path != []
    ensures StrictlySorted(SubRows(f, ref, path))
    decreases f
  {
    hide CanonicalAddr, PathOf, RowOf, RowLess;
    var head, tail := RowOf(f, ref, path), ListRows(f.calls, ref, path, 0);
    ListRowsSorted(f.calls, ref, path, 0);
    ListRowsBeyond(f.calls, ref, path, 0);
    RowPath(f, ref, path);
    forall s | s in tail ensures RowLess(head, s) {
      HeadFirst(head, s);
    }
  }

  lemma BranchesInOrder(path: Path, i: nat, r: InternalTx, s: InternalTx)
    requires path + [i] <= PathOf(r) && Beyond(PathOf(s), path, i + 1)
    ensures RowLess(r, s)
  {
    hide PathOf;
    var p, q := PathOf(r), PathOf(s);
    assert p[..|path|] == (path + [i])[..|path|] == path;
    CommonPrefix(p, q, |path|);
    assert p[|path|] == (path + [i])[|path|] == i;
  }

  lemma HeadFirst(r: InternalTx, s: InternalTx)
    requires Beyond(PathOf(s), PathOf(r), 0)
    ensures RowLess(r, s)
  {
    AncestorFirst(PathOf(s), |PathOf(r)|);
  }

  // ----- Every parent is present -----

  function Parent(q: Path): Path {
    if q == [] then [] else q[..|q| - 1]
  }

  lemma HasPathGrows(a: seq<InternalTx>, b: seq<InternalTx>, p: Path)
    requires HasPath(a, p) && forall r :: r in a ==> r in b
    ensures HasPath(b, p)
  {
    var i :| 0 <= i < |a| && PathOf(a[i]) == p;
    assert a[i] in b;
  }

  lemma {:induction false} ParentPresent(calls: seq<CallFrame>, ref: TxRef, path: Path, i: nat, r: InternalTx)
    requires i <= |calls| && r in ListRows(calls, ref, path, i)
    ensures Parent(PathOf(r)) == path || HasPath(ListRows(calls, ref, path, i), Parent(PathOf(r)))
    decreases calls, |calls| - i
  {
    hide CanonicalAddr, PathOf, RowOf, HasPath;
    var all := ListRows(calls, ref, path, i);
    var head, below := RowOf(calls[i], ref, path + [i]), ListRows(calls[i].calls, ref, path + [i], 0);
    var rest := ListRows(calls, ref, path, i + 1);
    assert all == ([head] + below) + rest;
    RowPath(calls[i], ref, path + [i]);
    if r in rest {
      ParentPresent(calls, ref, path, i + 1, r);
      if Parent(PathOf(r)) != path {
        HasPathGrows(rest, all, Parent(PathOf(r)));
      }
    } else if r in below {
      ParentPresent(calls[i].calls, ref, path + [i], 0, r);
      ARowHasItsPath(all, head);
      if Parent(PathOf(r)) != path + [i] {
        HasPathGrows(below, all, Parent(PathOf(r)));
      }
    }
  }

  /** In a flattened trace every row belongs under its direct parent. */
  lemma UnderParent(frame: CallFrame, ref: TxRef, r: InternalTx)
    requires r in Flatten(frame, ref)
    ensures PathOf(r) != [] && Under(Flatten(frame, ref), r) == Parent(PathOf(r))
  {
    ParentPresent(frame.calls, ref, [], 0, r);
    ListRowsBeyond(frame.calls, ref, [], 0);
  }

  // ----- The rows under a frame are its calls -----

  ghost function Heads(calls: seq<CallFrame>, ref: TxRef, path: Path, i: nat): (rows: seq<InternalTx>)
    requires i <= |calls|
    ensures |rows| == |calls| - i
    decreases |calls| - i
  {
    if i == |calls| then [] else [RowOf(calls[i], ref, path + [i])] + Heads(calls, ref, path, i + 1)
  }

  lemma {:induction false} HeadAt(calls: seq<CallFrame>, ref: TxRef, path: Path, i: nat, j: nat)
    requires i <= j < |calls|
    ensures Heads(calls, ref, path, i)[j - i] == RowOf(calls[j], ref, path + [j])
    decreases j - i
  {
    hide RowOf;
    if i < j {
      HeadAt(calls, ref, path, i + 1, j);
    }
  }

  /** part is a piece of a flattened trace. */
  ghost predicate PartOf(rows: seq<InternalTx>, part: seq<InternalTx>) {
    forall r :: r in part ==> PathOf(r) != [] && Under(rows, r) == Parent(PathOf(r))
  }

  lemma {:induction false} KidsConcat(rows: seq<InternalTx>, a: seq<InternalTx>, b: seq<InternalTx>, p: Path)
    ensures Kids(rows, a + b, p) == Kids(rows, a, p) + Kids(rows, b, p)
  {
    hide Under, PathOf;
    if b == [] {
      assert a + b == a;
      assert Kids(rows, a, p) + [] == Kids(rows, a, p);
    } else {
      var init, last := b[..|b| - 1], b[|b| - 1];
      KidsConcat(rows, a, init, p);
      assert (a + b)[..|a + b| - 1] == a + init && (a + b)[|a + b| - 1] == last;
      var kept := if Under(rows, last) == p then [last] else [];
      assert Kids(rows, a + b, p) == Kids(rows, a + init, p) + kept;
      assert Kids(rows, b, p) == Kids(rows, init, p) + kept;
    }
  }

  lemma NoKids(rows: seq<InternalTx>, part: seq<InternalTx>, p: Path)
    requires forall r :: r in part ==> Under(rows, r) != p
    ensures Kids(rows, part, p) == []
  {
    hide Under, PathOf;
    SomeElement(Kids(rows, part, p));
  }

  lemma OneKid(rows: seq<InternalTx>, r: InternalTx, p: Path)
    ensures Kids(rows, [r], p) == if Under(rows, r) == p then [r] else []
  {
    hide Under, PathOf;
    assert [r][..0] == [];
  }

  lemma {:induction false} KidsHere(rows: seq<InternalTx>, calls: seq<CallFrame>, ref: TxRef, path: Path, i: nat)
    requires i <= |calls| && PartOf(rows, ListRows(calls, ref, path, i))
    ensures Kids(rows, ListRows(calls, ref, path, i), path) == Heads(calls, ref, path, i)
    decreases |calls| - i
  {
    hide CanonicalAddr, PathOf, RowOf, HasPath, Under, Kids;
    if i < |calls| {
      var head, below := RowOf(calls[i], ref, path + [i]), ListRows(calls[i].calls, ref, path + [i], 0);
      var rest := ListRows(calls, ref, path, i + 1);
      assert ListRows(calls, ref, path, i) == ([head] + below) + rest;
      KidsHere(rows, calls, ref, path, i + 1);
      KidsConcat(rows, [head] + below, rest, path);
      KidsConcat(rows, [head], below, path);
      RowPath(calls[i], ref, path + [i]);
      ListRowsBeyond(calls[i].calls, ref, path + [i], 0);
      NoKids(rows, below, path);
      assert Parent(path + [i]) == path;
      assert head in ListRows(calls, ref, path, i) && Under(rows, head) == path;
      OneKid(rows, head, path);
    } else {
      NoKids(rows, [], path);
    }
  }

  /** Below calls[j] only the rows of calls[j] matter. */
  lemma {:induction false} KidsDeeper(rows: seq<InternalTx>, calls: seq<CallFrame>, ref: TxRef, path: Path, i: nat,
                                      j: nat, p: Path)
    requires i <= j < |calls| && path + [j] <= p && PartOf(rows, ListRows(calls, ref, path, i))
    ensures Kids(rows, ListRows(calls, ref, path, i), p)
            == Kids(rows, ListRows(calls[j].calls, ref, path + [j], 0), p)
    decreases j - i
  {
    hide CanonicalAddr, PathOf, RowOf, HasPath, Under;
    var head, below := RowOf(calls[i], ref, path + [i]), ListRows(calls[i].calls, ref, path + [i], 0);
    var rest := ListRows(calls, ref, path, i + 1);
    assert ListRows(calls, ref, path, i) == ([head] + below) + rest;
    hide Kids, ListRows, SubRows;
    KidsConcat(rows, [head] + below, rest, p);
    KidsConcat(rows, [head], below, p);
    RowPath(calls[i], ref, path + [i]);
    assert Parent(path + [i]) == path;
    NoKids(rows, [head], p);
    if i < j {
      KidsDeeper(rows, calls, ref, path, i + 1, j, p);
      SubRowsBelow(calls[i], ref, path + [i]);
      forall r | r in below ensures Under(rows, r) != p {
        OtherBranch(path, i, j, p, PathOf(r));
      }
      NoKids(rows, below, p);
    } else {
      ListRowsBeyond(calls, ref, path, i + 1);
      forall r | r in rest ensures Under(rows, r) != p {
        LaterBranch(path, j, p, PathOf(r));
      }
      NoKids(rows, rest, p);
    }
  }

  lemma OtherBranch(path: Path, i: nat, j: nat, p: Path, q: Path)
    requires i != j && path + [j] <= p && path + [i] <= q
    ensures Parent(q) != p
  {
    assert p[|path|] == (path + [j])[|path|] == j;
    assert q[|path|] == (path + [i])[|path|] == i;
  }

  lemma LaterBranch(path: Path, j: nat, p: Path, q: Path)
    requires path + [j] <= p && Beyond(q, path, j + 1)
    ensures Parent(q) != p
  {
    assert p[|path|] == (path + [j])[|path|] == j;
  }

  lemma {:induction false} TreesMatch(rows: seq<InternalTx>, calls: seq<CallFrame>, ref: TxRef, path: Path)
    requires CanonicalRows(rows) && PartOf(rows, ListRows(calls, ref, path, 0))
    requires forall p :: path <= p ==> Kids(rows, rows, p) == Kids(rows, ListRows(calls, ref, path, 0), p)
    ensures ChildTrees(rows, path) == FrameTrees(calls, ref, path)
    decreases calls
  {
    hide CanonicalAddr, PathOf, RowOf, HasPath, Under, Kids;
    KidsHere(rows, calls, ref, path, 0);
    var ks := Kids(rows, rows, path);
    forall j | 0 <= j < |calls| ensures NodeTree(rows, path, ks[j]) == FrameTree(calls[j], ref, path + [j]) {
      HeadAt(calls, ref, path, 0, j);
      assert ks[j] in ks;
      RowPath(calls[j], ref, path + [j]);
      SubPart(rows, calls, ref, path, 0, j);
      forall p | path + [j] <= p
        ensures Kids(rows, rows, p) == Kids(rows, ListRows(calls[j].calls, ref, path + [j], 0), p)
      {
        assert path <= p;
        KidsDeeper(rows, calls, ref, path, 0, j, p);
      }
      TreesMatch(rows, calls[j].calls, ref, path + [j]);
    }
  }

  lemma {:induction false} SubPart(rows: seq<InternalTx>, calls: seq<CallFrame>, ref: TxRef, path: Path, i: nat, j: nat)
    requires i <= j < |calls| && PartOf(rows, ListRows(calls, ref, path, i))
    ensures PartOf(rows, ListRows(calls[j].calls, ref, path + [j], 0))
    decreases j - i
  {
    hide CanonicalAddr, PathOf, RowOf, HasPath, Under;
    if i < j {
      SubPart(rows, calls, ref, path, i + 1, j);
    }
  }

  // ----- The round trip -----

  /** Any order of the flattened rows is handled by the builder, and sorts back to the flattening order. */
  lemma PermutedRows(frame: CallFrame, ref: TxRef, rows: seq<InternalTx>, sorted: seq<InternalTx>)
    requires multiset(rows) == multiset(Flatten(frame, ref))
    ensures GoodRows(rows)
    ensures StrictlySorted(sorted) && multiset(sorted) == multiset(rows) ==> sorted == Flatten(frame, ref)
  {
    hide CanonicalAddr, PathOf, RowLess;
    var flat := Flatten(frame, ref);
    ListRowsBeyond(frame.calls, ref, [], 0);
    ListRowsSorted(frame.calls, ref, [], 0);
    forall i | 0 <= i < |rows| ensures CanonicalAddr(rows[i].traceAddress) {
      assert rows[i] in multiset(rows);
    }
    forall i, j | 0 <= i < j < |rows| ensures rows[i].traceAddress != rows[j].traceAddress {
      assert rows[i] in multiset(rows) && rows[j] in multiset(rows);
      OnceWhenSorted(flat, rows[i]);
      SameAddressSameRow(flat, rows[i], rows[j]);
      if rows[i] == rows[j] {
        TwiceInMultiset(rows, i, j);
      }
    }
    if StrictlySorted(sorted) && multiset(sorted) == multiset(rows) {
      SortedUnique(sorted, flat);
    }
  }

  lemma SameAddressSameRow(rows: seq<InternalTx>, r: InternalTx, s: InternalTx)
    requires StrictlySorted(rows) && r in rows && s in rows
    ensures r.traceAddress == s.traceAddress ==> r == s
  {
    SamePathSameRow(rows, r, s);
  }

  /** Rebuilding from any permutation of the flattened rows yields exactly the frame's own tree. */
  lemma RebuildFlattened(frame: CallFrame, ref: TxRef, rows: seq<InternalTx>, sorted: seq<InternalTx>)
    requires multiset(rows) == multiset(Flatten(frame, ref))
    requires StrictlySorted(sorted) && multiset(sorted) == multiset(rows) && CanonicalRows(sorted)
    ensures ChildTrees(sorted, []) == FrameTrees(frame.calls, ref, [])
  {
    hide CanonicalAddr, PathOf, RowLess, Under;
    PermutedRows(frame, ref, rows, sorted);
    forall r | r in sorted ensures PathOf(r) != [] && Under(sorted, r) == Parent(PathOf(r)) {
      UnderParent(frame, ref, r);
    }
    TreesMatch(sorted, frame.calls, ref, []);
  }

  /** The explorer's view of a trace: the rows, in whatever order they were stored, built back into a tree. */
  method RebuildTrace(tx: Transaction, frame: CallFrame, ref: TxRef, rows: seq<InternalTx>)
    returns (root: TraceNode, ghost repr: set<TraceNode>)
    requires multiset(rows) == multiset(Flatten(frame, ref))
    ensures fresh(repr) && |repr| == |rows| + 1
    ensures Represents(root, Tree(BuildRoot(tx), 0, FrameTrees(frame.calls, ref, [])), repr)
    ensures MirrorsAll(FrameTrees(frame.calls, ref, []), frame.calls, ref, 1)
  {
    hide MirrorsAll, FrameTrees, CanonicalAddr, PathOf, RowLess, Flatten, Represents, ChildTrees, StrictlySorted, GoodRows;
    PermutedRows(frame, ref, rows, []);
    ghost var sorted;
    root, sorted, repr := BuildTree.BuildTree(tx, rows);
    RebuildFlattened(frame, ref, rows, sorted);
    FrameTreesMirror(frame.calls, ref, []);
  }
}
