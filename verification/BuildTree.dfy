/** The tree-building loop of frontend/src/lib/callTrace.ts on heap nodes. */
module BuildTree {
  import opened Trace
  import opened CallTrace
  import Text

  class TraceNode {
    const trace: InternalTx
    const depth: nat
    var children: seq<TraceNode>

    constructor (trace: InternalTx, depth: nat)
      ensures this.trace == trace && this.depth == depth && children == []
    {
      this.trace, this.depth, children := trace, depth, [];
    }
  }

  /** The nodes reachable from n through children form the tree t. */
  ghost predicate Represents(n: TraceNode, t: Tree, repr: set<TraceNode>)
    reads repr
    decreases t
  {
    && n in repr
    && n.trace == t.row && n.depth == t.depth
    && |n.children| == |t.children|
    && forall i :: 0 <= i < |t.children| ==> Represents(n.children[i], t.children[i], repr)
  }

  // ----- The map of nodes built so far -----

  function Keys(sorted: seq<InternalTx>, n: nat): (keys: set<string>)
    requires n <= |sorted|
    ensures "" in keys && forall j :: 0 <= j < n ==> sorted[j].traceAddress in keys
  {
    if n == 0 then {""} else Keys(sorted, n - 1) + {sorted[n - 1].traceAddress}
  }

  lemma {:induction false} KeySource(sorted: seq<InternalTx>, n: nat, k: string)
    requires n <= |sorted| && k in Keys(sorted, n) && k != ""
    ensures exists j :: 0 <= j < n && sorted[j].traceAddress == k
  {
    if k != sorted[n - 1].traceAddress {
      KeySource(sorted, n - 1, k);
    }
  }

  ghost predicate Injective(nodes: map<string, TraceNode>) {
    forall k, l :: k in nodes && l in nodes && k != l ==> nodes[k] != nodes[l]
  }

  ghost predicate NodesFor(children: seq<TraceNode>, kids: seq<InternalTx>, nodes: map<string, TraceNode>) {
    && |children| == |kids|
    && forall i :: 0 <= i < |kids| ==>
                     kids[i].traceAddress in nodes && children[i] == nodes[kids[i].traceAddress]
  }

  /**
   * The map after the first n rows: each has its node, and links (the children arrays) hold the nodes of the
   * rows below it.
   */
  ghost predicate Linked(nodes: map<string, TraceNode>, links: map<string, seq<TraceNode>>, root: TraceNode,
                         sorted: seq<InternalTx>, n: nat)
    requires n <= |sorted|
  {
    && nodes.Keys == links.Keys == Keys(sorted, n)
    && Injective(nodes)
    && nodes[""] == root
    && NodesFor(links[""], Kids(sorted, sorted[..n], []), nodes)
    && (forall j :: 0 <= j < n ==> NodeLinked(nodes, links, sorted, n, j))
  }

  ghost predicate NodeLinked(nodes: map<string, TraceNode>, links: map<string, seq<TraceNode>>,
                             sorted: seq<InternalTx>, n: nat, j: nat)
    requires j < n <= |sorted|
  {
    var r := sorted[j];
    && r.traceAddress in nodes && r.traceAddress in links
    && nodes[r.traceAddress].trace == r
    && nodes[r.traceAddress].depth == |PathOf(r)|
    && NodesFor(links[r.traceAddress], Kids(sorted, sorted[..n], PathOf(r)), nodes)
  }

  function ParentKey(a: string): string {
    var parts := Text.Split(a, ',');
    Text.Join(parts[..|parts| - 1], ',')
  }

  function ParentPath(r: InternalTx): Path {
    var q := PathOf(r);
    if q == [] then [] else q[..|q| - 1]
  }

  /** Dropping the last segment of the address text is dropping the last index of the path. */
  lemma ParentKeyIsPath(r: InternalTx)
    requires CanonicalAddr(r.traceAddress)
    ensures PathOf(r) != [] && ParentKey(r.traceAddress) == Addr(ParentPath(r))
  {
    AddrParse(r.traceAddress);
    var p := PathOf(r);
    SplitAddr(p);
    assert Segments(p)[..|p| - 1] == Segments(p[..|p| - 1]);
  }

  /** Ancestors sort first, so the map already holds the parent's node exactly if the parent has a row at all. */
  lemma ParentLookup(sorted: seq<InternalTx>, n: nat)
    requires StrictlySorted(sorted) && CanonicalRows(sorted) && n < |sorted|
    ensures Addr(ParentPath(sorted[n])) in Keys(sorted, n + 1)
            ==> ParentPath(sorted[n]) == Under(sorted, sorted[n])
    ensures Addr(ParentPath(sorted[n])) !in Keys(sorted, n + 1) ==> Under(sorted, sorted[n]) == []
    ensures Addr(Under(sorted, sorted[n])) in Keys(sorted, n)
  {
    hide CanonicalAddr, PathOf, RowLess, Text.Split, Text.Join, Segments;
    EmptyAddr();
    var r, parent := sorted[n], ParentPath(sorted[n]);
    RowAddr(r);
    if parent != [] {
      if HasPath(sorted, parent) {
        var j :| 0 <= j < |sorted| && PathOf(sorted[j]) == parent;
        RowAddr(sorted[j]);
        AncestorFirst(PathOf(r), |parent|);
        if j >= n {
          NotAfter(sorted, n, j);
        }
      } else if Addr(parent) in Keys(sorted, n + 1) {
        ParseAddrNonEmpty(parent);
        KeySource(sorted, n + 1, Addr(parent));
        var j :| 0 <= j < n + 1 && sorted[j].traceAddress == Addr(parent);
        NoSuchRow(sorted, j, parent);
      }
    }
  }

  lemma NoSuchRow(rows: seq<InternalTx>, j: nat, p: Path)
    requires p != [] && !HasPath(rows, p) && j < |rows|
    ensures rows[j].traceAddress != Addr(p)
  {
    ParseAddr(p);
    assert PathOf(rows[j]) != p;
  }

  lemma EmptyAddr()
    ensures Addr([]) == ""
  {
  }

  lemma ParseAddrNonEmpty(p: Path)
    requires p != []
    ensures Addr(p) != ""
  {
    ParseAddr(p);
    assert Text.Split("", ',') == [""];
  }

  lemma NotAfter(sorted: seq<InternalTx>, n: nat, j: nat)
    requires StrictlySorted(sorted) && n <= j < |sorted|
    ensures !PathLess(PathOf(sorted[j]), PathOf(sorted[n]))
  {
    var p, q := PathOf(sorted[n]), PathOf(sorted[j]);
    if PathLess(q, p) {
      if n < j {
        PathLessTransitive(p, q, p);
      }
      PathLessIrreflexive(p);
    }
  }

  lemma KidsStep(sorted: seq<InternalTx>, n: nat, p: Path)
    requires n < |sorted|
    ensures Kids(sorted, sorted[..n + 1], p)
            == Kids(sorted, sorted[..n], p) + if Under(sorted, sorted[n]) == p then [sorted[n]] else []
  {
    assert sorted[..n + 1][..n] == sorted[..n];
  }

  /** When a row is reached, nothing below it has been placed yet. */
  lemma NoKidsYet(sorted: seq<InternalTx>, n: nat)
    requires StrictlySorted(sorted) && CanonicalRows(sorted) && n < |sorted|
    ensures Kids(sorted, sorted[..n + 1], PathOf(sorted[n])) == []
  {
    hide CanonicalAddr, PathOf, RowLess, Text.Split, Text.Join, Segments;
    var ks := Kids(sorted, sorted[..n + 1], PathOf(sorted[n]));
    forall j | 0 <= j <= n ensures sorted[j] !in ks {
      NotBelow(sorted, n, j);
    }
    SomeElement(ks);
  }

  lemma NotBelow(sorted: seq<InternalTx>, n: nat, j: nat)
    requires StrictlySorted(sorted) && CanonicalRows(sorted) && j <= n < |sorted|
    ensures Under(sorted, sorted[j]) != PathOf(sorted[n])
  {
    hide CanonicalAddr, PathOf, RowLess, Text.Split, Text.Join, Segments;
    var p, q := PathOf(sorted[n]), PathOf(sorted[j]);
    RowAddr(sorted[j]);
    RowAddr(sorted[n]);
    if Under(sorted, sorted[j]) == p {
      AncestorFirst(q, |p|);
      NotAfter(sorted, j, n);
    }
  }

  lemma AddrInjective(p: Path, q: Path)
    requires Addr(p) == Addr(q)
    ensures p == q
  {
    if p != [] && q != [] {
      ParseAddr(p);
      ParseAddr(q);
    } else if p != [] {
      ParseAddrNonEmpty(p);
    } else if q != [] {
      ParseAddrNonEmpty(q);
    }
  }

  /** Attaching the new node extends the children of one key, in step with the rows below that key's path. */
  lemma LinksStep(nodes: map<string, TraceNode>, links: map<string, seq<TraceNode>>, sorted: seq<InternalTx>,
                  n: nat, node: TraceNode, p: Path)
    requires n < |sorted| && sorted[n].traceAddress !in nodes
    requires Addr(Under(sorted, sorted[n])) in links && Addr(p) in links
    requires Addr(p) != sorted[n].traceAddress
    requires NodesFor(links[Addr(p)], Kids(sorted, sorted[..n], p), nodes)
    ensures NodesFor(Attach(links, sorted, n, node)[Addr(p)], Kids(sorted, sorted[..n + 1], p),
                     nodes[sorted[n].traceAddress := node])
  {
    hide CanonicalAddr, PathOf, RowLess, Text.Split, Text.Join, Segments;
    KidsStep(sorted, n, p);
    NodesForStep(links[Addr(p)], Kids(sorted, sorted[..n], p), nodes, node, sorted[n]);
    var u := Under(sorted, sorted[n]);
    if Addr(p) == Addr(u) {
      AddrInjective(p, u);
      assert Attach(links, sorted, n, node)[Addr(p)] == links[Addr(p)] + [node];
    } else {
      assert Attach(links, sorted, n, node)[Addr(p)] == links[Addr(p)];
      assert Kids(sorted, sorted[..n + 1], p) == Kids(sorted, sorted[..n], p);
    }
  }

  lemma NodesForStep(children: seq<TraceNode>, kids: seq<InternalTx>, nodes: map<string, TraceNode>,
                     node: TraceNode, row: InternalTx)
    requires NodesFor(children, kids, nodes) && row.traceAddress !in nodes
    ensures NodesFor(children, kids, nodes[row.traceAddress := node])
    ensures NodesFor(children + [node], kids + [row], nodes[row.traceAddress := node])
  {
  }

  /** Linking the node of row n below its parent's node keeps the map in step with the rows. */
  lemma LinkStep(nodes: map<string, TraceNode>, links: map<string, seq<TraceNode>>, root: TraceNode,
                 sorted: seq<InternalTx>, n: nat, node: TraceNode)
    requires StrictlySorted(sorted) && CanonicalRows(sorted) && n < |sorted|
    requires Linked(nodes, links, root, sorted, n)
    requires node !in nodes.Values && node.trace == sorted[n] && node.depth == |PathOf(sorted[n])|
    requires Addr(Under(sorted, sorted[n])) in links
    ensures Linked(nodes[sorted[n].traceAddress := node], Attach(links, sorted, n, node), root, sorted, n + 1)
  {
    var more, moreLinks := nodes[sorted[n].traceAddress := node], Attach(links, sorted, n, node);
    KeysStep(nodes, links, root, sorted, n, node);
    hide CanonicalAddr, PathOf, RowLess, Text.Split, Text.Join, Segments, Under, Keys, Kids, NodesFor;
    EmptyAddr();
    FreshKey(sorted, n);
    LinksStep(nodes, links, sorted, n, node, []);
    var m := n + 1;
    forall j | 0 <= j < m ensures NodeLinked(more, moreLinks, sorted, m, j) {
      NodeStep(nodes, links, root, sorted, n, node, j);
    }
  }

  lemma KeysStep(nodes: map<string, TraceNode>, links: map<string, seq<TraceNode>>, root: TraceNode,
                 sorted: seq<InternalTx>, n: nat, node: TraceNode)
    requires StrictlySorted(sorted) && CanonicalRows(sorted) && n < |sorted|
    requires nodes.Keys == links.Keys == Keys(sorted, n) && Injective(nodes) && node !in nodes.Values
    requires Addr(Under(sorted, sorted[n])) in links && nodes[""] == root
    ensures var more := nodes[sorted[n].traceAddress := node];
            && more.Keys == Attach(links, sorted, n, node).Keys == Keys(sorted, n + 1)
            && Injective(more) && more[""] == root
  {
    hide CanonicalAddr, PathOf, RowLess, Text.Split, Text.Join, Segments, Under;
    FreshKey(sorted, n);
  }

  lemma NodeStep(nodes: map<string, TraceNode>, links: map<string, seq<TraceNode>>, root: TraceNode,
                 sorted: seq<InternalTx>, n: nat, node: TraceNode, j: nat)
    requires StrictlySorted(sorted) && CanonicalRows(sorted) && j <= n < |sorted|
    requires Linked(nodes, links, root, sorted, n)
    requires node !in nodes.Values && node.trace == sorted[n] && node.depth == |PathOf(sorted[n])|
    requires Addr(Under(sorted, sorted[n])) in links
    ensures NodeLinked(nodes[sorted[n].traceAddress := node], Attach(links, sorted, n, node), sorted, n + 1, j)
  {
    hide CanonicalAddr, PathOf, RowLess, Text.Split, Text.Join, Segments, Keys;
    RowAddr(sorted[j]);
    FreshKey(sorted, n);
    if j < n {
      assert NodeLinked(nodes, links, sorted, n, j);
      FreshAddress(sorted, n, j);
      LinksStep(nodes, links, sorted, n, node, PathOf(sorted[j]));
    } else {
      NoKidsYet(sorted, n);
      OwnKey(sorted, n);
    }
  }

  lemma OwnKey(sorted: seq<InternalTx>, n: nat)
    requires CanonicalRows(sorted) && n < |sorted|
    ensures Addr(Under(sorted, sorted[n])) != sorted[n].traceAddress
  {
    hide CanonicalAddr, PathOf, RowLess, Text.Split, Text.Join, Segments;
    RowAddr(sorted[n]);
    if Addr(Under(sorted, sorted[n])) == Addr(PathOf(sorted[n])) {
      AddrInjective(Under(sorted, sorted[n]), PathOf(sorted[n]));
    }
  }

  function Attach(links: map<string, seq<TraceNode>>, sorted: seq<InternalTx>, n: nat, node: TraceNode)
    : map<string, seq<TraceNode>>
    requires n < |sorted| && Addr(Under(sorted, sorted[n])) in links
  {
    var key := Addr(Under(sorted, sorted[n]));
    links[sorted[n].traceAddress := []][key := links[key] + [node]]
  }

  lemma FreshAddress(sorted: seq<InternalTx>, n: nat, j: nat)
    requires StrictlySorted(sorted) && CanonicalRows(sorted) && j < n < |sorted|
    ensures sorted[j].traceAddress != sorted[n].traceAddress && PathOf(sorted[j]) != PathOf(sorted[n])
  {
    PathLessIrreflexive(PathOf(sorted[n]));
  }

  lemma FreshKey(sorted: seq<InternalTx>, n: nat)
    requires StrictlySorted(sorted) && CanonicalRows(sorted) && n < |sorted|
    ensures sorted[n].traceAddress !in Keys(sorted, n)
  {
    hide CanonicalAddr, PathOf, RowLess, Text.Split, Text.Join, Segments;
    var k := sorted[n].traceAddress;
    RowAddr(sorted[n]);
    ParseAddrNonEmpty(PathOf(sorted[n]));
    if k in Keys(sorted, n) {
      KeySource(sorted, n, k);
      var j :| 0 <= j < n && sorted[j].traceAddress == k;
      FreshAddress(sorted, n, j);
    }
  }

  /** The node looked up by the code, with the root as fallback, is the node of the path the row belongs under. */
  lemma ParentNode(nodes: map<string, TraceNode>, root: TraceNode, sorted: seq<InternalTx>, n: nat,
                   node: TraceNode)
    requires StrictlySorted(sorted) && CanonicalRows(sorted) && n < |sorted|
    requires nodes.Keys == Keys(sorted, n) && nodes[""] == root
    ensures Addr(Under(sorted, sorted[n])) in nodes
    ensures ParentOf(nodes[sorted[n].traceAddress := node], ParentKey(sorted[n].traceAddress), root)
            == nodes[Addr(Under(sorted, sorted[n]))]
  {
    hide CanonicalAddr, PathOf, RowLess, Text.Split, Text.Join, Segments;
    EmptyAddr();
    ParentKeyIsPath(sorted[n]);
    ParentLookup(sorted, n);
    OwnKey(sorted, n);
  }

  function ParentOf(nodes: map<string, TraceNode>, parentKey: string, root: TraceNode): TraceNode {
    if parentKey in nodes then nodes[parentKey] else root
  }

  // ----- The finished structure -----

  ghost predicate Stored(nodes: map<string, TraceNode>, links: map<string, seq<TraceNode>>)
    reads nodes.Values
  {
    forall k :: k in nodes ==> k in links && nodes[k].children == links[k]
  }

  lemma {:induction false} RowRepresents(nodes: map<string, TraceNode>, links: map<string, seq<TraceNode>>,
                                         root: TraceNode, sorted: seq<InternalTx>, r: InternalTx)
    requires CanonicalRows(sorted) && r in sorted
    requires Linked(nodes, links, root, sorted, |sorted|) && Stored(nodes, links)
    ensures r.traceAddress in nodes
    ensures Represents(nodes[r.traceAddress], NodeTree(sorted, Under(sorted, r), r), nodes.Values)
    decreases MaxDepth(sorted) - |PathOf(r)|
  {
    hide CanonicalAddr, PathOf, RowLess, Text.Split, Text.Join, Segments;
    assert sorted[..|sorted|] == sorted;
    var j :| 0 <= j < |sorted| && sorted[j] == r;
    assert NodeLinked(nodes, links, sorted, |sorted|, j);
    KidsRepresent(nodes, links, root, sorted, nodes[r.traceAddress], PathOf(r));
  }

  lemma {:induction false} KidsRepresent(nodes: map<string, TraceNode>, links: map<string, seq<TraceNode>>,
                                         root: TraceNode, sorted: seq<InternalTx>, n: TraceNode, p: Path)
    requires CanonicalRows(sorted)
    requires Linked(nodes, links, root, sorted, |sorted|) && Stored(nodes, links)
    requires NodesFor(n.children, Kids(sorted, sorted, p), nodes)
    ensures var ts := ChildTrees(sorted, p);
            |n.children| == |ts|
            && forall i :: 0 <= i < |ts| ==> Represents(n.children[i], ts[i], nodes.Values)
    decreases MaxDepth(sorted) - |p|, 0
  {
    hide CanonicalAddr, PathOf, RowLess, Text.Split, Text.Join, Segments;
    var ks := Kids(sorted, sorted, p);
    forall i | 0 <= i < |ks|
      ensures Represents(n.children[i], NodeTree(sorted, p, ks[i]), nodes.Values)
    {
      assert ks[i] in ks;
      RowRepresents(nodes, links, root, sorted, ks[i]);
    }
  }

  lemma {:induction false} KeyCount(sorted: seq<InternalTx>, n: nat)
    requires StrictlySorted(sorted) && CanonicalRows(sorted) && n <= |sorted|
    ensures |Keys(sorted, n)| == n + 1
  {
    hide CanonicalAddr, PathOf, RowLess, Text.Split, Text.Join, Segments;
    if n == 0 {
      assert Keys(sorted, 0) == {""};
    } else {
      KeyCount(sorted, n - 1);
      FreshKey(sorted, n - 1);
    }
  }

  lemma {:induction false} ValueCount(nodes: map<string, TraceNode>)
    requires Injective(nodes)
    ensures |nodes.Values| == |nodes.Keys|
  {
    if nodes.Keys != {} {
      var k :| k in nodes;
      var rest := nodes - {k};
      assert nodes.Keys == rest.Keys + {k};
      assert nodes.Values == rest.Values + {nodes[k]} by {
        forall v | v in nodes.Values ensures v in rest.Values + {nodes[k]} {
          var l :| l in nodes && nodes[l] == v;
          assert l != k ==> l in rest && rest[l] == v;
        }
      }
      assert nodes[k] !in rest.Values;
      ValueCount(rest);
    } else {
      assert nodes.Values == {};
    }
  }

  method BuildTree(tx: Transaction, rows: seq<InternalTx>)
    returns (root: TraceNode, ghost sorted: seq<InternalTx>, ghost repr: set<TraceNode>)
    requires GoodRows(rows)
    ensures StrictlySorted(sorted) && multiset(sorted) == multiset(rows) && CanonicalRows(sorted)
    ensures fresh(repr) && |repr| == |rows| + 1
    ensures Represents(root, Tree(BuildRoot(tx), 0, ChildTrees(sorted, [])), repr)
  {
    hide CanonicalAddr, PathOf, RowLess, Text.Split, Text.Join, Segments, Linked, StrictlySorted;
    root := new TraceNode(BuildRoot(tx), 0);
    var nodes: map<string, TraceNode> := map["" := root];
    var inOrder := SortByAddr(rows);
    SortedStrictly(rows, inOrder);
    ghost var links: map<string, seq<TraceNode>> := map["" := []];
    NothingLinked(root, inOrder);
    for n := 0 to |inOrder|
      invariant Linked(nodes, links, root, inOrder, n)
      invariant Stored(nodes, links)
      invariant fresh(nodes.Values)
    {
      nodes, links := LinkRow(nodes, links, root, inOrder, n);
    }
    sorted := inOrder;
    repr := nodes.Values;
    Finished(nodes, links, root, sorted);
    SameLength(sorted, rows);
  }

  lemma NothingLinked(root: TraceNode, sorted: seq<InternalTx>)
    ensures Linked(map["" := root], map["" := []], root, sorted, 0)
  {
  }

  lemma Finished(nodes: map<string, TraceNode>, links: map<string, seq<TraceNode>>, root: TraceNode,
                 sorted: seq<InternalTx>)
    requires StrictlySorted(sorted) && CanonicalRows(sorted)
    requires Linked(nodes, links, root, sorted, |sorted|) && Stored(nodes, links)
    ensures |nodes.Values| == |sorted| + 1 && root in nodes.Values
    ensures var ts := ChildTrees(sorted, []);
            |root.children| == |ts|
            && forall i :: 0 <= i < |ts| ==> Represents(root.children[i], ts[i], nodes.Values)
  {
    hide CanonicalAddr, PathOf, RowLess, Text.Split, Text.Join, Segments;
    assert sorted[..|sorted|] == sorted;
    KidsRepresent(nodes, links, root, sorted, root, []);
    KeyCount(sorted, |sorted|);
    ValueCount(nodes);
  }

  /** One round of the loop: make the row's node, find its parent's, append. */
  method LinkRow(before: map<string, TraceNode>, ghost linksBefore: map<string, seq<TraceNode>>, root: TraceNode,
                 sorted: seq<InternalTx>, n: nat)
    returns (nodes: map<string, TraceNode>, ghost links: map<string, seq<TraceNode>>)
    requires StrictlySorted(sorted) && CanonicalRows(sorted) && n < |sorted|
    requires Linked(before, linksBefore, root, sorted, n) && Stored(before, linksBefore)
    modifies before.Values
    ensures Linked(nodes, links, root, sorted, n + 1) && Stored(nodes, links)
    ensures fresh(nodes.Values - before.Values)
  {
    hide CanonicalAddr, PathOf, RowLess, Text.Split, Text.Join, Segments, Under, Keys;
    var itx := sorted[n];
    var parts := Text.Split(itx.traceAddress, ',');
    var node := new TraceNode(itx, |parts|);
    nodes := before[itx.traceAddress := node];
    var parentKey := Text.Join(parts[..|parts| - 1], ',');
    var parent := if parentKey in nodes then nodes[parentKey] else root;
    ParentNode(before, root, sorted, n, node);
    FreshKey(sorted, n);
    RowAddr(itx);
    LinkStep(before, linksBefore, root, sorted, n, node);
    parent.children := parent.children + [node];
    links := Attach(linksBefore, sorted, n, node);
    AttachStored(before, nodes, linksBefore, sorted, n, node, parent);
  }

  /** After the update of the parent's array every node's array is as links says. */
  lemma AttachStored(before: map<string, TraceNode>, nodes: map<string, TraceNode>,
                     linksBefore: map<string, seq<TraceNode>>, sorted: seq<InternalTx>, n: nat,
                     node: TraceNode, parent: TraceNode)
    requires n < |sorted| && sorted[n].traceAddress !in before && before.Keys == linksBefore.Keys
    requires nodes == before[sorted[n].traceAddress := node] && Injective(before) && node !in before.Values
    requires Addr(Under(sorted, sorted[n])) in before && parent == before[Addr(Under(sorted, sorted[n]))]
    requires node.children == []
    requires parent.children == linksBefore[Addr(Under(sorted, sorted[n]))] + [node]
    requires forall k :: k in before && before[k] != parent ==> before[k].children == linksBefore[k]
    ensures Stored(nodes, Attach(linksBefore, sorted, n, node))
  {
  }
}
