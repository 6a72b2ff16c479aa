/** The call-tree builder (frontend/src/lib/callTrace.ts): path order, sorting, and the tree-building loop. */
module CallTrace {
  import opened Wrappers
  import opened Trace
  import Decimal
  import Text

  // ----- Order on paths -----

  /** Pre-order on paths: the first differing index decides, an ancestor comes before its descendants. */
  predicate PathLess(p: Path, q: Path) {
    q != [] && (p == [] || p[0] < q[0] || (p[0] == q[0] && PathLess(p[1..], q[1..])))
  }

  lemma {:induction false} PathLessIrreflexive(p: Path)
    ensures !PathLess(p, p)
  {
    if p != [] {
      PathLessIrreflexive(p[1..]);
    }
  }

  lemma {:induction false} PathLessTransitive(p: Path, q: Path, r: Path)
    requires PathLess(p, q) && PathLess(q, r)
    ensures PathLess(p, r)
  {
    if p != [] && p[0] == q[0] == r[0] {
      PathLessTransitive(p[1..], q[1..], r[1..]);
    }
  }

  lemma {:induction false} PathLessTotal(p: Path, q: Path)
    ensures p == q || PathLess(p, q) || PathLess(q, p)
  {
    if p != [] && q != [] && p[0] == q[0] {
      PathLessTotal(p[1..], q[1..]);
      assert p == [p[0]] + p[1..] && q == [q[0]] + q[1..];
    }
  }

  /** Below a common prefix the order is that of the remainders; in particular ancestors come first. */
  lemma {:induction false} PathLessPrefix(base: Path, p: Path, q: Path)
    ensures PathLess(base + p, base + q) <==> PathLess(p, q)
  {
    if base == [] {
      assert base + p == p && base + q == q;
    } else {
      PathLessPrefix(base[1..], p, q);
      assert (base + p)[1..] == base[1..] + p && (base + q)[1..] == base[1..] + q;
    }
  }

  lemma AncestorFirst(p: Path, k: nat)
    requires k < |p|
    ensures PathLess(p[..k], p)
  {
    PathLessPrefix(p[..k], [], p[k..]);
    assert p[..k] + [] == p[..k] && p[..k] + p[k..] == p;
  }

  /** Segment-by-segment numeric comparison. */
  method CompareTraceAddr(a: string, b: string) returns (r: int)
    requires NumericAddr(a) && NumericAddr(b)
    ensures r < 0 <==> PathLess(ParsePath(a), ParsePath(b))
    ensures r == 0 <==> ParsePath(a) == ParsePath(b)
  {
    var pa, pb := ParsePath(a), ParsePath(b);
    var i := 0;
    while i < |pa| && i < |pb|
      invariant i <= |pa| && i <= |pb|
      invariant pa[..i] == pb[..i]
    {
      if pa[i] != pb[i] {
        CommonPrefix(pa, pb, i);
        return (pa[i] as int) - pb[i];
      }
      i := i + 1;
    }
    CommonPrefix(pa, pb, i);
    return |pa| - |pb|;
  }

  lemma CommonPrefix(p: Path, q: Path, i: nat)
    requires i <= |p| && i <= |q| && p[..i] == q[..i]
    ensures PathLess(p, q) <==> PathLess(p[i..], q[i..])
    ensures p == q <==> p[i..] == q[i..]
  {
    PathLessPrefix(p[..i], p[i..], q[i..]);
    assert p[..i] + p[i..] == p && q[..i] + q[i..] == q;
  }

  // ----- Rows in order -----

  /** Rows the tree builder handles as intended: canonical (hence non-empty), distinct addresses. */
  predicate GoodRows(rows: seq<InternalTx>) {
    && (forall i :: 0 <= i < |rows| ==> CanonicalAddr(rows[i].traceAddress))
    && (forall i, j :: 0 <= i < j < |rows| ==> rows[i].traceAddress != rows[j].traceAddress)
  }

  predicate CanonicalRows(rows: seq<InternalTx>) {
    forall r :: r in rows ==> CanonicalAddr(r.traceAddress)
  }

  function PathOf(r: InternalTx): (p: Path)
    ensures CanonicalAddr(r.traceAddress) ==> p != []
  {
    if NumericAddr(r.traceAddress) then ParsePath(r.traceAddress) else []
  }

  lemma RowAddr(r: InternalTx)
    requires CanonicalAddr(r.traceAddress)
    ensures PathOf(r) != [] && Addr(PathOf(r)) == r.traceAddress
    ensures |PathOf(r)| == |Text.Split(r.traceAddress, ',')|
  {
    AddrParse(r.traceAddress);
  }

  predicate RowLess(r: InternalTx, s: InternalTx) {
    PathLess(PathOf(r), PathOf(s))
  }

  predicate StrictlySorted(rows: seq<InternalTx>) {
    forall i, j :: 0 <= i < j < |rows| ==> RowLess(rows[i], rows[j])
  }

  /** A strictly sorted sequence is the only one with its elements. */
  lemma {:induction false} SortedUnique(a: seq<InternalTx>, b: seq<InternalTx>)
    requires StrictlySorted(a) && StrictlySorted(b) && multiset(a) == multiset(b)
    ensures a == b
  {
    hide RowLess;
    SameLength(a, b);
    if a != [] {
      SameHead(a, b);
      SameTails(a, b);
      SortedTail(a);
      SortedTail(b);
      hide StrictlySorted;
      SortedUnique(a[1..], b[1..]);
      assert a == [a[0]] + a[1..] && b == [b[0]] + b[1..];
    }
  }

  lemma SortedTail(rows: seq<InternalTx>)
    requires StrictlySorted(rows) && rows != []
    ensures StrictlySorted(rows[1..])
  {
    hide RowLess;
  }

  lemma SameLength<T>(a: seq<T>, b: seq<T>)
    requires multiset(a) == multiset(b)
    ensures |a| == |b|
  {
    assert |multiset(a)| == |a|;
    assert |multiset(b)| == |b|;
  }

  lemma SameTails<T>(a: seq<T>, b: seq<T>)
    requires multiset(a) == multiset(b) && a != [] && b != [] && a[0] == b[0]
    ensures multiset(a[1..]) == multiset(b[1..])
  {
    assert a == [a[0]] + a[1..];
    assert b == [b[0]] + b[1..];
    assert multiset(a[1..]) == multiset(a) - multiset{a[0]};
  }

  lemma SameHead(a: seq<InternalTx>, b: seq<InternalTx>)
    requires StrictlySorted(a) && StrictlySorted(b) && multiset(a) == multiset(b) && a != [] && b != []
    ensures a[0] == b[0]
  {
    assert a[0] in multiset(b) && b[0] in multiset(a);
    var i :| 0 <= i < |b| && b[i] == a[0];
    var j :| 0 <= j < |a| && a[j] == b[0];
    if i > 0 && j > 0 {
      PathLessTransitive(PathOf(b[0]), PathOf(a[0]), PathOf(b[0]));
      PathLessIrreflexive(PathOf(b[0]));
    }
  }

  predicate InOrder(rows: seq<InternalTx>) {
    forall i, j :: 0 <= i < j < |rows| ==> !RowLess(rows[j], rows[i])
  }

  /** Array.prototype.sort with compareTraceAddr: a permutation that the comparator finds in order. */
  method SortByAddr(rows: seq<InternalTx>) returns (sorted: seq<InternalTx>)
    requires CanonicalRows(rows)
    ensures multiset(sorted) == multiset(rows) && InOrder(sorted)
  {
    sorted := [];
    for n := 0 to |rows|
      invariant multiset(sorted) == multiset(rows[..n])
      invariant InOrder(sorted)
    {
      assert rows[..n + 1] == rows[..n] + [rows[n]];
      forall r | r in sorted ensures CanonicalAddr(r.traceAddress) {
        assert r in multiset(rows[..n]);
      }
      sorted := InsertByAddr(sorted, rows[n]);
    }
    assert rows[..|rows|] == rows;
  }

  method CompareRows(a: InternalTx, b: InternalTx) returns (c: int)
    requires CanonicalAddr(a.traceAddress) && CanonicalAddr(b.traceAddress)
    ensures c < 0 <==> RowLess(a, b)
  {
    AddrParse(a.traceAddress);
    AddrParse(b.traceAddress);
    c := CompareTraceAddr(a.traceAddress, b.traceAddress);
  }

  method InsertByAddr(sorted: seq<InternalTx>, row: InternalTx) returns (t: seq<InternalTx>)
    requires InOrder(sorted) && CanonicalRows(sorted) && CanonicalAddr(row.traceAddress)
    ensures InOrder(t) && multiset(t) == multiset(sorted) + multiset{row}
  {
    hide CanonicalAddr, RowLess, InOrder;
    var k := |sorted|;
    while k > 0
      invariant 0 <= k <= |sorted|
      invariant forall j :: k <= j < |sorted| ==> RowLess(row, sorted[j])
    {
      assert sorted[k - 1] in sorted;
      var c := CompareRows(row, sorted[k - 1]);
      if c >= 0 {
        break;
      }
      k := k - 1;
    }
    InsertInOrder(sorted, k, row);
    InsertElements(sorted, k, row);
    t := sorted[..k] + [row] + sorted[k..];
  }

  lemma InsertElements<T>(s: seq<T>, k: nat, x: T)
    requires k <= |s|
    ensures multiset(s[..k] + [x] + s[k..]) == multiset(s) + multiset{x}
  {
    assert s == s[..k] + s[k..];
  }

  lemma InsertInOrder(s: seq<InternalTx>, k: nat, row: InternalTx)
    requires k <= |s|
    requires InOrder(s)
    requires forall j :: k <= j < |s| ==> RowLess(row, s[j])
    requires k > 0 ==> !RowLess(row, s[k - 1])
    ensures InOrder(s[..k] + [row] + s[k..])
  {
    hide RowLess, PathOf;
    forall i | 0 <= i < k ensures !RowLess(row, s[i]) {
      if RowLess(row, s[i]) && i < k - 1 {
        NotLessTransitive(row, s[i], s[k - 1]);
      }
    }
    forall j | k <= j < |s| ensures !RowLess(s[j], row) {
      NotBothLess(row, s[j]);
    }
  }

  lemma NotBothLess(r: InternalTx, s: InternalTx)
    requires RowLess(r, s)
    ensures !RowLess(s, r)
  {
    hide PathOf;
    if RowLess(s, r) {
      PathLessTransitive(PathOf(r), PathOf(s), PathOf(r));
      PathLessIrreflexive(PathOf(r));
    }
  }

  lemma NotLessTransitive(r: InternalTx, s: InternalTx, t: InternalTx)
    requires RowLess(r, s) && !RowLess(t, s)
    ensures RowLess(r, t)
  {
    PathLessTotal(PathOf(t), PathOf(s));
    if PathOf(t) != PathOf(s) {
      PathLessTransitive(PathOf(r), PathOf(s), PathOf(t));
    }
  }

  /** Distinct addresses make the order strict, so sorting has one possible outcome. */
  lemma SortedStrictly(rows: seq<InternalTx>, sorted: seq<InternalTx>)
    requires GoodRows(rows) && multiset(sorted) == multiset(rows) && InOrder(sorted)
    ensures StrictlySorted(sorted) && CanonicalRows(sorted)
  {
    forall r | r in sorted ensures CanonicalAddr(r.traceAddress) {
      assert r in multiset(rows);
    }
    forall i, j | 0 <= i < j < |sorted| ensures RowLess(sorted[i], sorted[j]) {
      PathLessTotal(PathOf(sorted[i]), PathOf(sorted[j]));
      AddrParse(sorted[i].traceAddress);
      AddrParse(sorted[j].traceAddress);
      StillDistinct(rows, sorted, i, j);
    }
  }

  lemma StillDistinct(rows: seq<InternalTx>, sorted: seq<InternalTx>, i: nat, j: nat)
    requires GoodRows(rows) && multiset(sorted) == multiset(rows) && i < j < |sorted|
    ensures sorted[i].traceAddress != sorted[j].traceAddress
  {
    var a, b := sorted[i], sorted[j];
    assert a in multiset(rows) && b in multiset(rows);
    OnceInMultiset(rows, a);
    if a == b {
      TwiceInMultiset(sorted, i, j);
    }
  }

  lemma TwiceInMultiset<T>(s: seq<T>, i: nat, j: nat)
    requires i < j < |s| && s[i] == s[j]
    ensures multiset(s)[s[i]] >= 2
  {
    var front, back := s[..j], s[j..];
    assert s == front + back && front[i] == s[i] && back[0] == s[i];
    assert multiset(s)[s[i]] == multiset(front)[s[i]] + multiset(back)[s[i]];
  }

  lemma OnceInMultiset(rows: seq<InternalTx>, a: InternalTx)
    requires GoodRows(rows) && a in rows
    ensures multiset(rows)[a] == 1
  {
    var k :| 0 <= k < |rows| && rows[k] == a;
    var front, back := rows[..k], rows[k + 1..];
    assert rows == front + [a] + back;
    assert a !in front && a !in back;
  }

  // ----- The tree -----

  datatype Transaction = Transaction(
    hash: string, blockNumber: nat, from: string, to: Option<string>, contractAddress: Option<string>,
    value: Option<string>, gasUsed: nat, inputData: string, status: int, error: Option<string>,
    revertReason: Option<string>)

  datatype Tree = Tree(row: InternalTx, depth: nat, children: seq<Tree>)

  predicate Truthy(s: Option<string>) {
    s.Some? && s.value != ""
  }

  /** The root row, synthesized from the transaction itself. */
  function BuildRoot(tx: Transaction): (r: InternalTx)
    ensures r.traceAddress == "" && r.txHash == tx.hash && r.from == tx.from
    ensures r.to.None? <==> tx.to.None? && tx.contractAddress.None?
    ensures r.to.Some? ==> r.to == tx.to || (tx.to.None? && r.to == tx.contractAddress)
    ensures r.blockNumber == tx.blockNumber && r.gasUsed == Some(tx.gasUsed) && r.id == -1
    ensures if tx.value.Some? then r.value == tx.value.value else r.value == "0"
    ensures r.gas == None && r.output == None && r.timestamp == None
    ensures r.callType in CALL_TYPES
    ensures r.callType == "create" <==> !Truthy(tx.to) && Truthy(tx.contractAddress)
    ensures r.input.None? <==> tx.inputData == ""
    ensures r.input.Some? ==>
              "0x" <= r.input.value && (tx.inputData == r.input.value || "0x" + tx.inputData == r.input.value)
    ensures "0x" <= tx.inputData ==> r.input == Some(tx.inputData)
    ensures r.error.None? <==> tx.status == 1
    ensures r.error.Some? ==> r.error.value != "" && (Truthy(tx.error) ==> r.error == tx.error)
    ensures r.error.Some? && !Truthy(tx.error) ==>
              r.error == tx.revertReason || (!Truthy(tx.revertReason) && r.error == Some("reverted"))
  {
    var isCreate := !Truthy(tx.to) && Truthy(tx.contractAddress);
    InternalTx(
      -1, tx.hash, tx.blockNumber, "", tx.from,
      if tx.to.Some? then tx.to else tx.contractAddress,
      tx.value.GetOr("0"), None, Some(tx.gasUsed),
      if tx.inputData == "" then None
      else if "0x" <= tx.inputData then Some(tx.inputData) else Some("0x" + tx.inputData),
      None,
      if isCreate then "create" else "call",
      if tx.status == 1 then None
      else if Truthy(tx.error) then tx.error
      else if Truthy(tx.revertReason) then tx.revertReason else Some("reverted"),
      None)
  }

  predicate HasPath(rows: seq<InternalTx>, p: Path) {
    exists i :: 0 <= i < |rows| && PathOf(rows[i]) == p
  }

  /** Where a row belongs: under its direct parent when that row exists, otherwise under the root ([]). */
  function Under(rows: seq<InternalTx>, r: InternalTx): (p: Path)
    ensures PathOf(r) != [] ==> |p| < |PathOf(r)|
  {
    var q := PathOf(r);
    if q != [] && HasPath(rows, q[..|q| - 1]) then q[..|q| - 1] else []
  }

  /** The rows of part that belong under p, in order. */
  function Kids(rows: seq<InternalTx>, part: seq<InternalTx>, p: Path): (ks: seq<InternalTx>)
    ensures forall r :: r in ks <==> r in part && Under(rows, r) == p
  {
    if part == [] then []
    else
      var last := part[|part| - 1];
      Kids(rows, part[..|part| - 1], p) + if Under(rows, last) == p then [last] else []
  }

  lemma SomeElement<T>(s: seq<T>)
    ensures s == [] || exists x :: x in s
  {
    if s != [] {
      assert s[0] in s;
    }
  }

  function MaxDepth(rows: seq<InternalTx>): (d: nat)
    ensures forall r :: r in rows ==> |PathOf(r)| <= d
  {
    if rows == [] then 0
    else
      var d := MaxDepth(rows[1..]);
      if |PathOf(rows[0])| > d then |PathOf(rows[0])| else d
  }

  /** The subtrees that hang under p when every row of rows hangs where it belongs. */
  ghost function ChildTrees(rows: seq<InternalTx>, p: Path): (ts: seq<Tree>)
    requires CanonicalRows(rows)
    decreases MaxDepth(rows) - |p|
  {
    var ks := Kids(rows, rows, p);
    seq(|ks|, i requires 0 <= i < |ks| => NodeTree(rows, p, ks[i]))
  }

  ghost function NodeTree(rows: seq<InternalTx>, p: Path, r: InternalTx): Tree
    requires CanonicalRows(rows) && r in rows && Under(rows, r) == p
    decreases MaxDepth(rows) - |p|, 0
  {
    Tree(r, |PathOf(r)|, ChildTrees(rows, PathOf(r)))
  }
}
