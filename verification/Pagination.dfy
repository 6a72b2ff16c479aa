/**
 * Pages of a feed by block cursor (backend/internal/api/handlers.go), as the indexer serves them
 * (backend/internal/api/indexerclient/handlers.go and backend/proto/chain_indexer/v1/common.proto).
 */
module Pagination {
  import opened Decimal
  import opened Wrappers

  const TWO_64: int := 0x1_0000_0000_0000_0000

  /** parseLimit yields 1 to 100. */
  const MAX_LIMIT: nat := 100

  /** A block, transaction or transfer, with the number of its block. */
  datatype Row = Row(block: nat, id: string)

  datatype Page<T> = Page(data: seq<T>, nextCursor: Option<string>, hasMore: bool)

  function Min(a: int, b: int): int {
    if a < b then a else b
  }

  // ----- The indexer, by its contract -----

  /** Page sizes: what it takes for 0, and the most it returns. */
  datatype Server = Server(pageDefault: nat, pageCap: nat)

  function RowsFor(count: nat, server: Server): (rows: nat)
    ensures count == 0 ==> rows == server.pageDefault
    ensures count > 0 ==> rows <= count && rows <= server.pageCap && (rows == count || rows == server.pageCap)
  {
    if count == 0 then server.pageDefault else Min(count, server.pageCap)
  }

  /** WHERE block < bound, keeping the order. */
  function Below(all: seq<Row>, bound: nat): seq<Row> {
    if all == [] then []
    else if all[0].block < bound then [all[0]] + Below(all[1..], bound)
    else Below(all[1..], bound)
  }

  /** The first rows below the bound; the bound 0 means none. */
  function Query(all: seq<Row>, count: nat, before: Option<nat>, server: Server): seq<Row> {
    var rows := if before.GetOr(0) == 0 then all else Below(all, before.value);
    rows[..Min(RowsFor(count, server), |rows|)]
  }

  /** Newest first; several rows may share a block. */
  predicate Descending(all: seq<Row>) {
    forall i, j :: 0 <= i < j < |all| ==> all[i].block >= all[j].block
  }

  predicate OneRowPerBlock(all: seq<Row>) {
    forall i, j :: 0 <= i < j < |all| ==> all[i].block > all[j].block
  }

  predicate Uint64Blocks(all: seq<Row>) {
    forall i :: 0 <= i < |all| ==> all[i].block < TWO_64
  }

  /** Rows are told apart by their ids. */
  predicate Distinct(all: seq<Row>) {
    forall i, j :: 0 <= i < j < |all| ==> all[i] != all[j]
  }

  // ----- The handlers -----

  /** strconv.ParseUint on ?before=, ignored if it does not parse. */
  function ParseBeforeBlock(before: string): Option<nat> {
    if before != "" && AllDigits(before) && Atoi(before) < TWO_64 then Some(Atoi(before)) else None
  }

  /** A numeral is taken exactly if it fits 64 bits. */
  lemma BeforeExactly(before: string, n: nat)
    ensures ParseBeforeBlock(before) == Some(n)
            <==> before != "" && AllDigits(before) && Atoi(before) == n && n < 18_446_744_073_709_551_616
  {
    hide Atoi, AllDigits;
  }

  /** strconv.Atoi. */
  function GoAtoi(s: string): Option<int> {
    var digits := if s != "" && (s[0] == '+' || s[0] == '-') then s[1..] else s;
    if digits == "" || !AllDigits(digits) then None
    else
      var n: int := if s[0] == '-' then -1 * Atoi(digits) else Atoi(digits);
      if -0x8000_0000_0000_0000 <= n < 0x8000_0000_0000_0000 then Some(n) else None
  }

  const DEFAULT_LIMIT: nat := 25

  /** parseLimit: what is no number from 1 to 100 counts as nothing, rather than as 100. */
  function ParseLimit(l: string): (limit: nat)
    ensures 1 <= limit <= MAX_LIMIT
  {
    match GoAtoi(l)
    case Some(n) => if 0 < n <= MAX_LIMIT then n else DEFAULT_LIMIT
    case None => DEFAULT_LIMIT
  }

  lemma LimitExactly(l: string)
    ensures forall n: nat :: GoAtoi(l) == Some(n) && 1 <= n <= 100 ==> ParseLimit(l) == n
    ensures (forall n: nat :: 1 <= n <= 100 ==> GoAtoi(l) != Some(n)) ==> ParseLimit(l) == 25
  {
    hide GoAtoi;
    assert GoAtoi(l).Some? && 1 <= GoAtoi(l).value <= 100 ==> GoAtoi(l) == Some(ParseLimit(l));
  }

  /** Every limit from 1 to 100 can be asked for, with or without a sign. */
  lemma EachLimit(n: nat)
    requires 1 <= n <= 100
    ensures ParseLimit(Itoa(n)) == n == ParseLimit("+" + Itoa(n))
    ensures ParseLimit("-" + Itoa(n)) == 25
  {
    AtoiItoa(n);
    var s := Itoa(n);
    assert ("+" + s)[1..] == s == ("-" + s)[1..];
    assert IsDigit(s[0]);
    hide Itoa, Atoi;
  }

  function Paginate<T>(items: seq<T>, limit: nat, cursorFn: T -> string): (page: Page<T>)
    ensures page.hasMore <==> |items| > limit
    ensures page.data <= items && |page.data| == Min(limit, |items|)
    ensures page.nextCursor.Some? <==> page.hasMore && limit > 0
  {
    var hasMore := |items| > limit;
    var data := if hasMore then items[..limit] else items;
    Page(data, if hasMore && |data| > 0 then Some(cursorFn(data[|data| - 1])) else None, hasMore)
  }

  /** handleGetBlocks, and handleGetTransactions without ?page=. */
  function GetPage(all: seq<Row>, limit: nat, before: string, server: Server): Page<Row> {
    Paginate(Query(all, limit + 1, ParseBeforeBlock(before), server), limit, (r: Row) => Itoa(r.block))
  }

  function Concat(pages: seq<Page<Row>>): seq<Row> {
    if pages == [] then [] else pages[0].data + Concat(pages[1..])
  }

  // ----- Where a page starts -----

  /** How many rows at the front have at least this block number. */
  function Past(all: seq<Row>, bound: nat): nat {
    if all == [] || all[0].block < bound then 0 else 1 + Past(all[1..], bound)
  }

  function Start(all: seq<Row>, before: string): nat {
    var bound := ParseBeforeBlock(before).GetOr(0);
    if bound == 0 then 0 else Past(all, bound)
  }

  lemma {:induction false} PastExactly(all: seq<Row>, bound: nat)
    requires Descending(all)
    ensures Past(all, bound) <= |all|
    ensures forall i :: 0 <= i < |all| ==> (i < Past(all, bound) <==> all[i].block >= bound)
  {
    if all != [] && all[0].block >= bound {
      PastExactly(all[1..], bound);
      forall i | 0 <= i < |all| ensures i < Past(all, bound) <==> all[i].block >= bound {
        assert i > 0 ==> all[i] == all[1..][i - 1];
      }
    }
  }

  lemma {:induction false} BelowIsSuffix(all: seq<Row>, bound: nat)
    requires Descending(all)
    ensures Past(all, bound) <= |all| && Below(all, bound) == all[Past(all, bound)..]
  {
    if all != [] {
      BelowIsSuffix(all[1..], bound);
      if all[0].block < bound {
        assert Past(all[1..], bound) == 0;
        assert all == [all[0]] + all[1..];
      }
    }
  }

  lemma CursorRoundTrip(n: nat)
    requires n < TWO_64
    ensures ParseBeforeBlock(Itoa(n)) == Some(n)
  {
    AtoiItoa(n);
  }

  lemma Taken(all: seq<Row>, from: nat, limit: nat)
    requires from <= |all|
    ensures all[from..][..Min(limit, |all| - from)] == all[from..Min(from + limit, |all|)]
  {
  }

  /** Whether a request for limit rows finds more rows behind its page: the indexer has to return one row beyond it. */
  predicate More(all: seq<Row>, from: nat, limit: nat, cap: nat) {
    limit < cap && from + limit < |all|
  }

  function EndOf(all: seq<Row>, from: nat, limit: nat, cap: nat): (upto: nat)
    requires from <= |all|
    ensures from <= upto <= |all|
    ensures More(all, from, limit, cap) ==> upto == from + limit
  {
    Min(from + Min(limit, cap), |all|)
  }

  /** A page is the stretch of the table from its start, as long as the limit and the cap allow. */
  lemma PageIs(all: seq<Row>, limit: nat, before: string, server: Server)
    requires Descending(all) && limit >= 1
    ensures var from, page := Start(all, before), GetPage(all, limit, before, server);
            && from <= |all|
            && var upto, more := EndOf(all, from, limit, server.pageCap), More(all, from, limit, server.pageCap);
               && page.data == all[from..upto] && page.hasMore == more
               && page.nextCursor == if more then Some(Itoa(all[upto - 1].block)) else None
  {
    var bound := ParseBeforeBlock(before).GetOr(0);
    if bound == 0 {
      assert all[0..] == all;
    } else {
      BelowIsSuffix(all, bound);
    }
    hide Itoa, Below, Past, ParseBeforeBlock;
    var from, n := Start(all, before), RowsFor(limit + 1, server);
    var rows := all[from..];
    var items := Query(all, limit + 1, ParseBeforeBlock(before), server);
    assert items == rows[..Min(n, |rows|)];
    Cut(rows, limit, n);
    Taken(all, from, Min(limit, n));
  }

  lemma Cut(rows: seq<Row>, limit: nat, n: nat)
    ensures var items := rows[..Min(n, |rows|)];
            items[..Min(limit, |items|)] == rows[..Min(Min(limit, n), |rows|)]
  {
  }

  /** Rows that arrive on top during a walk do not change its later pages. */
  lemma NewBlocksDoNotShow(newer: seq<Row>, all: seq<Row>, limit: nat, before: string, server: Server)
    requires ParseBeforeBlock(before).GetOr(0) > 0
    requires forall r :: r in newer ==> r.block >= ParseBeforeBlock(before).value
    ensures GetPage(newer + all, limit, before, server) == GetPage(all, limit, before, server)
  {
    BelowSkips(newer, all, ParseBeforeBlock(before).value);
  }

  lemma {:induction false} BelowSkips(newer: seq<Row>, all: seq<Row>, bound: nat)
    requires forall r :: r in newer ==> r.block >= bound
    ensures Below(newer + all, bound) == Below(all, bound)
  {
    if newer == [] {
      assert newer + all == all;
    } else {
      assert newer[0] in newer;
      assert (newer + all)[1..] == newer[1..] + all;
      BelowSkips(newer[1..], all, bound);
    }
  }

  // ----- The cursor 0 -----

  /** Some page ends in block 0 with more rows behind it, and hands out the cursor 0. */
  ghost predicate SomePageEndsInGenesis(all: seq<Row>, server: Server) {
    exists limit: nat, before: string ::
      1 <= limit <= MAX_LIMIT && GetPage(all, limit, before, server).nextCursor == Some("0")
  }

  predicate SharedGenesis(all: seq<Row>) {
    exists i, j :: 0 <= i < j < |all| && all[i].block == 0 == all[j].block
  }

  /** Some page hands out the cursor 0 exactly if block 0 has several rows and the indexer returns more than one. */
  lemma CursorZeroExactly(all: seq<Row>, server: Server)
    requires Descending(all) && Uint64Blocks(all)
    ensures SomePageEndsInGenesis(all, server) <==> SharedGenesis(all) && server.pageCap >= 2
  {
    ZeroText();
    hide GetPage, Itoa, Atoi, ParseBeforeBlock, Past;
    if SomePageEndsInGenesis(all, server) {
      var limit: nat, before: string :|
        1 <= limit <= MAX_LIMIT && GetPage(all, limit, before, server).nextCursor == Some("0");
      PageIs(all, limit, before, server);
      var upto := Start(all, before) + limit;
      assert Itoa(all[upto - 1].block) == "0";
      AtoiItoa(0);
      AtoiItoa(all[upto - 1].block);
      assert all[upto - 1].block == 0 == all[upto].block;
    }
    if SharedGenesis(all) && server.pageCap >= 2 {
      var i, j :| 0 <= i < j < |all| && all[i].block == 0 == all[j].block;
      CursorRoundTrip(1);
      PastExactly(all, 1);
      assert Start(all, Itoa(1)) == Past(all, 1) <= i;
      PageIs(all, 1, Itoa(1), server);
      assert GetPage(all, 1, Itoa(1), server).nextCursor == Some("0");
    }
  }

  lemma ZeroText()
    ensures Itoa(0) == "0" && ParseBeforeBlock("0") == Some(0)
  {
    AtoiItoa(0);
  }

  lemma EmptyText()
    ensures ParseBeforeBlock("") == None
  {
  }
}
