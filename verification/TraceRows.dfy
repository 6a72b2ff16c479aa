/** Which sub-call each flattened row is for, and what it says about it. */
module TraceRows {
  import opened Wrappers
  import opened Trace
  import opened CallTrace
  import opened TraceRoundTrip

  /** The frame reached from f by child indices. */
  function FrameAt(f: CallFrame, p: Path): Option<CallFrame>
    decreases |p|
  {
    if p == [] then Some(f) else CallAt(f.calls, p)
  }

  function CallAt(calls: seq<CallFrame>, p: Path): Option<CallFrame>
    requires p != []
    decreases |p|, 0
  {
    if p[0] < |calls| then FrameAt(calls[p[0]], p[1..]) else None
  }

  /** r is for the sub-call at p below the frame at path. */
  predicate IsFor(r: InternalTx, calls: seq<CallFrame>, ref: TxRef, path: Path, p: Path) {
    && p != [] && CallAt(calls, p).Some? && r.traceAddress == Addr(path + p)
    && Reports(r, CallAt(calls, p).value, ref)
  }

  lemma HereFor(calls: seq<CallFrame>, ref: TxRef, path: Path, i: nat)
    requires i < |calls|
    ensures IsFor(RowOf(calls[i], ref, path + [i]), calls, ref, path, [i])
  {
    RowReports(calls[i], ref, path + [i]);
    assert [i][1..] == [];
    assert FrameAt(calls[i], []) == Some(calls[i]);
    assert CallAt(calls, [i]) == Some(calls[i]);
  }

  lemma BelowFor(r: InternalTx, calls: seq<CallFrame>, ref: TxRef, path: Path, i: nat, p: Path)
    requires i < |calls| && p != []
    ensures IsFor(r, calls[i].calls, ref, path + [i], p) <==> IsFor(r, calls, ref, path, [i] + p)
  {
    hide Reports, Addr;
    assert ([i] + p)[1..] == p;
    assert CallAt(calls, [i] + p) == FrameAt(calls[i], p) == CallAt(calls[i].calls, p);
    assert path + ([i] + p) == (path + [i]) + p;
  }

  /** Every row is for some sub-call. */
  lemma {:induction false} RowFor(calls: seq<CallFrame>, ref: TxRef, path: Path, i: nat, r: InternalTx)
    returns (p: Path)
    requires i <= |calls| && r in ListRows(calls, ref, path, i)
    ensures IsFor(r, calls, ref, path, p)
    decreases calls, |calls| - i
  {
    hide IsFor, RowOf;
    var head, below := RowOf(calls[i], ref, path + [i]), ListRows(calls[i].calls, ref, path + [i], 0);
    var rest := ListRows(calls, ref, path, i + 1);
    assert ListRows(calls, ref, path, i) == ([head] + below) + rest;
    if r in rest {
      p := RowFor(calls, ref, path, i + 1, r);
    } else if r in below {
      p := RowFor(calls[i].calls, ref, path + [i], 0, r);
      NonEmptyPath(r, calls[i].calls, ref, path + [i], p);
      BelowFor(r, calls, ref, path, i, p);
      p := [i] + p;
    } else {
      HereFor(calls, ref, path, i);
      p := [i];
    }
  }

  lemma NonEmptyPath(r: InternalTx, calls: seq<CallFrame>, ref: TxRef, path: Path, p: Path)
    requires IsFor(r, calls, ref, path, p)
    ensures p != []
  {
  }

  /** Every sub-call has a row. */
  lemma {:induction false} CallHasRow(calls: seq<CallFrame>, ref: TxRef, path: Path, i: nat, p: Path)
    returns (r: InternalTx)
    requires p != [] && i <= p[0] && CallAt(calls, p).Some?
    ensures i <= |calls| && r in ListRows(calls, ref, path, i) && IsFor(r, calls, ref, path, p)
    decreases calls, |calls| - i
  {
    hide IsFor, RowOf;
    var head, below := RowOf(calls[i], ref, path + [i]), ListRows(calls[i].calls, ref, path + [i], 0);
    var rest := ListRows(calls, ref, path, i + 1);
    assert ListRows(calls, ref, path, i) == ([head] + below) + rest;
    if i < p[0] {
      r := CallHasRow(calls, ref, path, i + 1, p);
    } else if |p| == 1 {
      HereFor(calls, ref, path, i);
      r := head;
      assert p == [i];
    } else {
      var q := p[1..];
      r := CallHasRow(calls[i].calls, ref, path + [i], 0, q);
      BelowFor(r, calls, ref, path, i, q);
      assert p == [i] + q;
    }
  }

  /** The row's address reads as the path of a sub-call, and the row carries that call's values. */
  predicate ForItsCall(r: InternalTx, frame: CallFrame, ref: TxRef) {
    && CanonicalAddr(r.traceAddress) && NumericAddr(r.traceAddress)
    && var p := ParsePath(r.traceAddress);
       p != [] && FrameAt(frame, p).Some? && Reports(r, FrameAt(frame, p).value, ref)
  }

  predicate HasRow(rows: seq<InternalTx>, p: Path) {
    exists k :: 0 <= k < |rows| && rows[k].traceAddress == Addr(p)
  }

  /**
   * Rows and sub-calls correspond one to one: each row carries the values of the sub-call its address leads to, every
   * sub-call has a row, and no two rows have one address.
   */
  lemma FlattenReports(frame: CallFrame, ref: TxRef)
    ensures forall r :: r in Flatten(frame, ref) ==> ForItsCall(r, frame, ref)
    ensures forall p :: p != [] && FrameAt(frame, p).Some? ==> HasRow(Flatten(frame, ref), p)
    ensures forall j, k :: 0 <= j < k < |Flatten(frame, ref)| ==>
                             Flatten(frame, ref)[j].traceAddress != Flatten(frame, ref)[k].traceAddress
  {
    hide Reports, RowOf, ListRows, CanonicalAddr, NumericAddr, ParsePath, Addr, RowLess;
    var rows := Flatten(frame, ref);
    forall r | r in rows ensures ForItsCall(r, frame, ref) {
      var p := RowFor(frame.calls, ref, [], 0, r);
      assert [] + p == p;
      ParseAddr(p);
      AddrParse(Addr(p));
    }
    forall p | p != [] && FrameAt(frame, p).Some? ensures HasRow(rows, p) {
      var r := CallHasRow(frame.calls, ref, [], 0, p);
      assert [] + p == p;
      var k :| 0 <= k < |rows| && rows[k] == r;
    }
    ListRowsSorted(frame.calls, ref, [], 0);
    ListRowsBeyond(frame.calls, ref, [], 0);
    forall j, k | 0 <= j < k < |rows| ensures rows[j].traceAddress != rows[k].traceAddress {
      assert RowLess(rows[j], rows[k]);
      LessDiffers(rows[j], rows[k]);
    }
  }

  lemma LessDiffers(r: InternalTx, s: InternalTx)
    requires RowLess(r, s)
    ensures r.traceAddress != s.traceAddress
  {
    PathLessIrreflexive(PathOf(r));
  }
}
