/** The call-frame flattener (backend/internal/rpc/trace.go). */
module Trace {
  import opened Wrappers
  import Decimal
  import Text

  /** Child indices from the transaction's own call down to a sub-call. */
  type Path = seq<nat>

  datatype CallFrame = CallFrame(
    typ: string, from: string, to: string, value: Option<nat>, gas: nat, gasUsed: nat,
    input: string, output: string, error: string, calls: seq<CallFrame>)

  datatype InternalTx = InternalTx(
    id: int, txHash: string, blockNumber: nat, traceAddress: string, from: string, to: Option<string>,
    value: string, gas: Option<nat>, gasUsed: Option<nat>, input: Option<string>, output: Option<string>,
    callType: string, error: Option<string>, timestamp: Option<nat>)

  /** The transaction a trace belongs to: the arguments every recursive call passes on unchanged. */
  datatype TxRef = TxRef(hash: string, blockNumber: nat, timestamp: Option<nat>)

  // ----- Trace addresses -----

  function Segments(path: Path): (parts: seq<string>)
    ensures |parts| == |path| && forall i :: 0 <= i < |parts| ==> parts[i] == Decimal.Itoa(path[i])
  {
    seq(|path|, i requires 0 <= i < |path| => Decimal.Itoa(path[i]))
  }

  function Addr(path: Path): string {
    Text.Join(Segments(path), ',')
  }

  /** Every comma-separated segment is a numeral as Itoa prints it; the empty address is not canonical. */
  predicate CanonicalAddr(a: string) {
    forall i :: 0 <= i < |Text.Split(a, ',')| ==> Decimal.Canonical(Text.Split(a, ',')[i])
  }

  /** Segments made of digits only: the addresses on which Number gives a number for each segment. */
  predicate NumericAddr(a: string) {
    forall i :: 0 <= i < |Text.Split(a, ',')| ==> Decimal.AllDigits(Text.Split(a, ',')[i])
  }

  function ParsePath(a: string): (p: Path)
    requires NumericAddr(a)
    ensures |p| == |Text.Split(a, ',')|
  {
    var parts := Text.Split(a, ',');
    seq(|parts|, i requires 0 <= i < |parts| => Decimal.Atoi(parts[i]))
  }

  /** The address text determines the path. */
  lemma ParseAddr(path: Path)
    requires path != []
    ensures CanonicalAddr(Addr(path)) && ParsePath(Addr(path)) == path
  {
    SplitAddr(path);
    forall i | 0 <= i < |path| ensures Decimal.Atoi(Segments(path)[i]) == path[i] {
      Decimal.AtoiItoa(path[i]);
    }
  }

  lemma SplitAddr(path: Path)
    requires path != []
    ensures Text.Split(Addr(path), ',') == Segments(path)
  {
    forall i | 0 <= i < |path| ensures ',' !in Segments(path)[i] {
      assert Decimal.Canonical(Segments(path)[i]);
    }
    Text.SplitJoin(Segments(path), ',');
  }

  /** The path determines the address text. */
  lemma AddrParse(a: string)
    requires CanonicalAddr(a)
    ensures NumericAddr(a) && ParsePath(a) != [] && Addr(ParsePath(a)) == a
  {
    var parts := Text.Split(a, ',');
    assert NumericAddr(a);
    forall i | 0 <= i < |parts| ensures Segments(ParsePath(a))[i] == parts[i] {
      Decimal.ItoaAtoi(parts[i]);
    }
    assert Segments(ParsePath(a)) == parts;
    Text.JoinSplit(a, ',');
  }

  // ----- Rows -----

  const CALL_TYPES := {"call", "delegatecall", "staticcall", "create", "create2"}

  function NonEmpty(s: string): Option<string> {
    if s == "" then None else Some(s)
  }

  function NonEmptyHex(s: string): Option<string> {
    if s == "" || s == "0x" then None else Some(s)
  }

  function NonZero(n: nat): Option<nat> {
    if n == 0 then None else Some(n)
  }

  function RowOf(f: CallFrame, ref: TxRef, path: Path): InternalTx {
    InternalTx(0, ref.hash, ref.blockNumber, Addr(path), f.from, NonEmpty(f.to),
               if f.value.Some? then Decimal.Itoa(f.value.value) else "0",
               NonZero(f.gas), NonZero(f.gasUsed), NonEmptyHex(f.input), NonEmptyHex(f.output),
               if Text.ToLower(f.typ) in CALL_TYPES then Text.ToLower(f.typ) else "call",
               NonEmpty(f.error), ref.timestamp)
  }

  /** What a record says about the frame it is made for and the transaction it belongs to. */
  predicate Reports(r: InternalTx, f: CallFrame, ref: TxRef) {
    && r.txHash == ref.hash && r.blockNumber == ref.blockNumber && r.timestamp == ref.timestamp && r.id == 0
    && r.from == f.from
    && (if f.to == "" then r.to == None else r.to == Some(f.to))
    && Decimal.Canonical(r.value) && Decimal.Atoi(r.value) == (if f.value.Some? then f.value.value else 0)
    && (if f.gas == 0 then r.gas == None else r.gas == Some(f.gas))
    && (if f.gasUsed == 0 then r.gasUsed == None else r.gasUsed == Some(f.gasUsed))
    && (if f.input == "" || f.input == "0x" then r.input == None else r.input == Some(f.input))
    && (if f.output == "" || f.output == "0x" then r.output == None else r.output == Some(f.output))
    && (if f.error == "" then r.error == None else r.error == Some(f.error))
    && (var typ := Text.ToLower(f.typ);
        if typ == "call" || typ == "delegatecall" || typ == "staticcall" || typ == "create" || typ == "create2"
        then r.callType == typ else r.callType == "call")
  }

  /** Each field of the row is the frame's own. */
  lemma RowReports(f: CallFrame, ref: TxRef, path: Path)
    ensures Reports(RowOf(f, ref, path), f, ref) && RowOf(f, ref, path).traceAddress == Addr(path)
  {
    hide Addr, Text.ToLower;
    if f.value.Some? {
      Decimal.AtoiItoa(f.value.value);
    }
    Decimal.AtoiZero();
  }

  /** The rows of f, found at path, and of everything below it: pre-order. */
  function SubRows(f: CallFrame, ref: TxRef, path: Path): seq<InternalTx>
    decreases f
  {
    [RowOf(f, ref, path)] + ListRows(f.calls, ref, path, 0)
  }

  /** The rows of calls[i..], the i-th call being found at path + [i]. */
  function ListRows(calls: seq<CallFrame>, ref: TxRef, path: Path, i: nat): seq<InternalTx>
    requires i <= |calls|
    decreases calls, |calls| - i
  {
    if i == |calls| then []
    else SubRows(calls[i], ref, path + [i]) + ListRows(calls, ref, path, i + 1)
  }

  /** The rows of a whole trace: every frame but the root. */
  function Flatten(frame: CallFrame, ref: TxRef): seq<InternalTx> {
    ListRows(frame.calls, ref, [], 0)
  }

  // ----- The code -----

  /** The slice behind the result pointer that all recursive calls append to. */
  class RowBuffer {
    var rows: seq<InternalTx>

    constructor ()
      ensures rows == []
    {
      rows := [];
    }
  }

  method FlattenCallFrame(frame: CallFrame, ref: TxRef) returns (rows: seq<InternalTx>)
    ensures rows == Flatten(frame, ref)
  {
    var result := new RowBuffer();
    FlattenRecursive(frame, ref, [], result);
    rows := result.rows;
  }

  method FlattenRecursive(frame: CallFrame, ref: TxRef, path: Path, result: RowBuffer)
    modifies result
    ensures result.rows == old(result.rows)
                           + if path == [] then Flatten(frame, ref) else SubRows(frame, ref, path)
    decreases frame
  {
    ghost var start := result.rows;
    if |path| == 0 {
      for i := 0 to |frame.calls|
        invariant result.rows + ListRows(frame.calls, ref, path, i) == start + ListRows(frame.calls, ref, path, 0)
      {
        var childPath := path + [i];
        ghost var before := result.rows;
        FlattenRecursive(frame.calls[i], ref, childPath, result);
        Regroup(before, SubRows(frame.calls[i], ref, childPath), ListRows(frame.calls, ref, path, i + 1));
      }
      return;
    }

    var row := MakeRow(frame, ref, path);
    result.rows := result.rows + [row];
    Regroup(start, [row], ListRows(frame.calls, ref, path, 0));
    start := result.rows;
    for i := 0 to |frame.calls|
      invariant result.rows + ListRows(frame.calls, ref, path, i) == start + ListRows(frame.calls, ref, path, 0)
    {
      var childPath := path + [i];
      ghost var before := result.rows;
      FlattenRecursive(frame.calls[i], ref, childPath, result);
      Regroup(before, SubRows(frame.calls[i], ref, childPath), ListRows(frame.calls, ref, path, i + 1));
    }
  }

  lemma Regroup<T>(a: seq<T>, b: seq<T>, c: seq<T>)
    ensures (a + b) + c == a + (b + c)
  {
  }

  /** The record built for one emitted frame. */
  method MakeRow(frame: CallFrame, ref: TxRef, path: Path) returns (row: InternalTx)
    ensures row == RowOf(frame, ref, path)
    ensures path != [] ==> CanonicalAddr(row.traceAddress) && ParsePath(row.traceAddress) == path
    ensures Reports(row, frame, ref)
  {
    RowReports(frame, ref, path);
    hide Reports, Addr, CanonicalAddr, NumericAddr, ParsePath, Text.ToLower, Decimal.Itoa;
    var traceAddr := PrintPath(path);

    var value := "0";
    if frame.value.Some? {
      value := Decimal.Itoa(frame.value.value);
    }
    var callType := Text.ToLower(frame.typ);
    if callType !in CALL_TYPES {
      callType := "call";
    }
    var to: Option<string> := None;
    if frame.to != "" {
      to := Some(frame.to);
    }
    var gas: Option<nat>, gasUsed: Option<nat> := None, None;
    if frame.gas > 0 {
      gas := Some(frame.gas);
    }
    if frame.gasUsed > 0 {
      gasUsed := Some(frame.gasUsed);
    }
    var input: Option<string>, output: Option<string>, errStr: Option<string> := None, None, None;
    if frame.input != "" && frame.input != "0x" {
      input := Some(frame.input);
    }
    if frame.output != "" && frame.output != "0x" {
      output := Some(frame.output);
    }
    if frame.error != "" {
      errStr := Some(frame.error);
    }
    row := InternalTx(0, ref.hash, ref.blockNumber, traceAddr, frame.from, to, value, gas, gasUsed,
                      input, output, callType, errStr, ref.timestamp);
    if path != [] {
      ParseAddr(path);
    }
  }

  /** The address text of a path. */
  method PrintPath(path: Path) returns (traceAddr: string)
    ensures traceAddr == Addr(path)
  {
    var parts: seq<string> := [];
    for i := 0 to |path|
      invariant parts == Segments(path)[..i]
    {
      parts := parts + [Decimal.Itoa(path[i])];
    }
    assert parts == Segments(path);
    traceAddr := Text.Join(parts, ',');
  }
}
