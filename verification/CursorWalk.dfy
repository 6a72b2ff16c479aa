/**
 * Following the cursor of a feed to the end (backend/internal/api/handlers.go): what a client gets from the indexer that
 * asks for the next page until there is none.
 */
module CursorWalk {
  import opened Decimal
  import opened Pagination
  import opened Wrappers

  // ----- Walks -----

  /** limits(k) is what the k-th request asks for. */
  ghost predicate Positive(limits: nat -> nat) {
    forall k :: 1 <= limits(k) <= MAX_LIMIT
  }

  /** The pages of a finished walk from a cursor: each leads to the next, and only the last has no more. */
  ghost predicate IsWalk(all: seq<Row>, limits: nat -> nat, k: nat, before: string, server: Server,
                         pages: seq<Page<Row>>)
    decreases |pages|
  {
    && pages != [] && pages[0] == GetPage(all, limits(k), before, server)
    && if pages[0].hasMore then
         pages[0].nextCursor.Some? && IsWalk(all, limits, k + 1, pages[0].nextCursor.value, server, pages[1..])
       else |pages| == 1
  }

  /** The walk comes to an end. */
  ghost predicate WalkEnds(all: seq<Row>, limits: nat -> nat, server: Server) {
    exists pages :: IsWalk(all, limits, 0, "", server, pages)
  }

  /** The stretches a walk from position from goes through if it never has to use the cursor 0. */
  datatype Span = Span(from: nat, upto: nat)

  ghost function Spans(all: seq<Row>, limits: nat -> nat, k: nat, from: nat, cap: nat): (spans: seq<Span>)
    requires Descending(all) && Positive(limits) && from <= |all|
    ensures spans != [] && spans[0].from == from
    ensures forall s :: s in spans ==> from <= s.from <= s.upto <= |all|
    decreases |all| - from
  {
    var upto := EndOf(all, from, limits(k), cap);
    if !More(all, from, limits(k), cap) then [Span(from, upto)]
    else
      PastExactly(all, all[upto - 1].block);
      [Span(from, upto)] + Spans(all, limits, k + 1, Past(all, all[upto - 1].block), cap)
  }

  /** The first stretch of a walk and what follows it. */
  lemma SpansUnfold(all: seq<Row>, limits: nat -> nat, k: nat, from: nat, cap: nat)
    returns (upto: nat, next: nat, more: bool)
    requires Descending(all) && Positive(limits) && from <= |all|
    ensures upto == EndOf(all, from, limits(k), cap) && more == More(all, from, limits(k), cap)
    ensures !more ==> Spans(all, limits, k, from, cap) == [Span(from, upto)]
    ensures more ==>
              && from < upto == from + limits(k) < |all| && upto <= next <= |all|
              && next == Past(all, all[upto - 1].block)
              && Spans(all, limits, k, from, cap) == [Span(from, upto)] + Spans(all, limits, k + 1, next, cap)
  {
    upto, more := EndOf(all, from, limits(k), cap), More(all, from, limits(k), cap);
    next := |all|;
    if more {
      next := Past(all, all[upto - 1].block);
      PastExactly(all, all[upto - 1].block);
    }
  }

  function Stretch(all: seq<Row>, s: Span): seq<Row>
    requires s.from <= s.upto <= |all|
  {
    all[s.from..s.upto]
  }

  /** One request: its page is the first stretch, its cursor leads to the next one, or to the start if it is 0. */
  lemma Request(all: seq<Row>, limits: nat -> nat, k: nat, before: string, server: Server)
    returns (page: Page<Row>, upto: nat, next: nat, cursor: string)
    requires Descending(all) && Uint64Blocks(all) && Positive(limits)
    ensures var from := Start(all, before);
            && page == GetPage(all, limits(k), before, server) && from <= upto <= |all|
            && upto == EndOf(all, from, limits(k), server.pageCap)
            && page.data == all[from..upto] == Stretch(all, Span(from, upto))
            && page.hasMore == More(all, from, limits(k), server.pageCap)
            && (!page.hasMore ==> Spans(all, limits, k, from, server.pageCap) == [Span(from, upto)])
            && (page.hasMore ==>
                  && from < upto == from + limits(k) < |all| && upto <= next <= |all|
                  && page.nextCursor == Some(cursor) && next == Past(all, all[upto - 1].block)
                  && Start(all, cursor) == (if all[upto - 1].block == 0 then 0 else next)
                  && Spans(all, limits, k, from, server.pageCap)
                     == [Span(from, upto)] + Spans(all, limits, k + 1, next, server.pageCap))
  {
    hide GetPage, Itoa, Atoi, ParseBeforeBlock, Past, Spans;
    page := GetPage(all, limits(k), before, server);
    PageIs(all, limits(k), before, server);
    var more;
    upto, next, more := SpansUnfold(all, limits, k, Start(all, before), server.pageCap);
    cursor := page.nextCursor.GetOr("");
    if more {
      CursorRoundTrip(all[upto - 1].block);
    }
  }

  // ----- When a walk ends -----

  /** A page that is not the last ends in block 0. */
  ghost predicate EndsInGenesis(all: seq<Row>, spans: seq<Span>) {
    exists i :: 0 <= i < |spans| - 1 && 0 < spans[i].upto <= |all| && all[spans[i].upto - 1].block == 0
  }

  lemma GenesisOne(all: seq<Row>, span: Span)
    ensures !EndsInGenesis(all, [span])
  {
  }

  lemma GenesisCons(all: seq<Row>, first: Span, rest: seq<Span>)
    requires 0 < first.upto <= |all| && rest != []
    ensures EndsInGenesis(all, [first] + rest) <==> all[first.upto - 1].block == 0 || EndsInGenesis(all, rest)
  {
    var spans := [first] + rest;
    assert spans[0] == first;
    if EndsInGenesis(all, rest) {
      var i :| 0 <= i < |rest| - 1 && 0 < rest[i].upto <= |all| && all[rest[i].upto - 1].block == 0;
      assert spans[i + 1] == rest[i];
    }
    if EndsInGenesis(all, spans) && all[first.upto - 1].block != 0 {
      var i :| 0 <= i < |spans| - 1 && 0 < spans[i].upto <= |all| && all[spans[i].upto - 1].block == 0;
      assert rest[i - 1] == spans[i];
    }
  }

  /** Page i is the i-th stretch, and every page but the last says that there is more. */
  ghost predicate Covers(all: seq<Row>, pages: seq<Page<Row>>, spans: seq<Span>) {
    && |pages| == |spans|
    && (forall i :: 0 <= i < |spans| ==> spans[i].from <= spans[i].upto <= |all|)
    && (forall i :: 0 <= i < |pages| ==> pages[i].data == Stretch(all, spans[i]))
    && (forall i :: 0 <= i < |pages| ==> (pages[i].hasMore <==> i < |pages| - 1))
  }

  lemma CoversCons(all: seq<Row>, page: Page<Row>, pages: seq<Page<Row>>, span: Span, spans: seq<Span>)
    requires span.from <= span.upto <= |all| && page.data == Stretch(all, span)
    requires page.hasMore <==> pages != []
    requires Covers(all, pages, spans)
    ensures Covers(all, [page] + pages, [span] + spans)
  {
  }

  lemma CoversLengths(all: seq<Row>, pages: seq<Page<Row>>, spans: seq<Span>)
    requires Covers(all, pages, spans)
    ensures |pages| == |spans|
  {
  }

  lemma CoversOne(all: seq<Row>, page: Page<Row>, span: Span)
    requires span.from <= span.upto <= |all| && page.data == Stretch(all, span) && !page.hasMore
    ensures Covers(all, [page], [span])
  {
  }

  lemma IsWalkCons(all: seq<Row>, limits: nat -> nat, k: nat, before: string, server: Server,
                   page: Page<Row>, rest: seq<Page<Row>>)
    requires page == GetPage(all, limits(k), before, server) && page.hasMore && page.nextCursor.Some?
    ensures IsWalk(all, limits, k, before, server, [page] + rest)
            <==> IsWalk(all, limits, k + 1, page.nextCursor.value, server, rest)
  {
    assert ([page] + rest)[1..] == rest;
  }

  /** The first page of a walk and what follows it. */
  lemma IsWalkSplit(all: seq<Row>, limits: nat -> nat, k: nat, before: string, server: Server, pages: seq<Page<Row>>)
    returns (page: Page<Row>, rest: seq<Page<Row>>)
    requires IsWalk(all, limits, k, before, server, pages)
    ensures page == GetPage(all, limits(k), before, server) && pages == [page] + rest
    ensures !page.hasMore ==> pages == [page]
    ensures page.hasMore ==> page.nextCursor.Some?
                             && IsWalk(all, limits, k + 1, page.nextCursor.value, server, rest)
  {
    page, rest := pages[0], pages[1..];
  }

  /** If no page but the last ends in block 0 the walk ends, page k being the k-th stretch. */
  lemma {:induction false} WalkIs(all: seq<Row>, limits: nat -> nat, k: nat, before: string, server: Server)
    returns (pages: seq<Page<Row>>)
    requires Descending(all) && Uint64Blocks(all) && Positive(limits) && Start(all, before) <= |all|
    requires !EndsInGenesis(all, Spans(all, limits, k, Start(all, before), server.pageCap))
    ensures IsWalk(all, limits, k, before, server, pages)
    ensures Covers(all, pages, Spans(all, limits, k, Start(all, before), server.pageCap))
    decreases |all| - Start(all, before)
  {
    var from := Start(all, before);
    var page, upto, next, cursor := Request(all, limits, k, before, server);
    hide Covers, Start, Spans, Past, Positive, Descending, Uint64Blocks, Stretch, GetPage, EndsInGenesis;
    if page.hasMore {
      var spans := Spans(all, limits, k + 1, next, server.pageCap);
      GenesisCons(all, Span(from, upto), spans);
      var rest := WalkIs(all, limits, k + 1, cursor, server);
      CoversLengths(all, rest, spans);
      IsWalkCons(all, limits, k, before, server, page, rest);
      hide IsWalk;
      CoversCons(all, page, rest, Span(from, upto), spans);
      pages := [page] + rest;
    } else {
      CoversOne(all, page, Span(from, upto));
      pages := [page];
    }
  }

  /** A client that makes the same requests gets the same pages. */
  lemma {:induction false} WalkUnique(all: seq<Row>, limits: nat -> nat, k: nat, before: string, server: Server,
                                      pages: seq<Page<Row>>, others: seq<Page<Row>>)
    requires IsWalk(all, limits, k, before, server, pages) && IsWalk(all, limits, k, before, server, others)
    ensures pages == others
    decreases |pages|
  {
    hide GetPage;
    if pages[0].hasMore {
      WalkUnique(all, limits, k + 1, pages[0].nextCursor.value, server, pages[1..], others[1..]);
    }
    assert pages == [pages[0]] + pages[1..] && others == [others[0]] + others[1..];
  }

  /** How many pages it takes to one that is not the last and ends in block 0. */
  function Round(all: seq<Row>, spans: seq<Span>): (n: nat)
    ensures n >= 1
  {
    if |spans| <= 1 || (0 < spans[0].upto <= |all| && all[spans[0].upto - 1].block == 0) then 1
    else 1 + Round(all, spans[1..])
  }

  lemma RoundCons(all: seq<Row>, first: Span, rest: seq<Span>)
    requires 0 < first.upto <= |all| && rest != []
    ensures Round(all, [first] + rest) == if all[first.upto - 1].block == 0 then 1 else 1 + Round(all, rest)
  {
    assert ([first] + rest)[1..] == rest;
  }

  /**
   * A walk that starts over with request k gets, after starting over at most r times more, through to the end without a
   * page but the last that ends in block 0.
   */
  ghost predicate ClearWithin(all: seq<Row>, limits: nat -> nat, k: nat, cap: nat, r: nat)
    requires Descending(all) && Positive(limits)
    decreases r
  {
    var spans := Spans(all, limits, k, 0, cap);
    EndsInGenesis(all, spans) ==> r > 0 && ClearWithin(all, limits, k + Round(all, spans), cap, r - 1)
  }

  /** The same for a walk that is at a position, if it has to start over from there at all. */
  ghost predicate ClearAfter(all: seq<Row>, limits: nat -> nat, k: nat, from: nat, cap: nat, r: nat)
    requires Descending(all) && Positive(limits) && from <= |all|
  {
    var spans := Spans(all, limits, k, from, cap);
    EndsInGenesis(all, spans) ==> ClearWithin(all, limits, k + Round(all, spans), cap, r)
  }

  lemma ClearFromStart(all: seq<Row>, limits: nat -> nat, k: nat, cap: nat, r: nat)
    requires Descending(all) && Positive(limits)
    ensures ClearWithin(all, limits, k, cap, r)
            <==> if r > 0 then ClearAfter(all, limits, k, 0, cap, r - 1)
                 else !EndsInGenesis(all, Spans(all, limits, k, 0, cap))
  {
    hide Spans, EndsInGenesis, Round;
  }

  /** After a page that is not the last: at the start if it ends in block 0, and further down otherwise. */
  lemma ClearNext(all: seq<Row>, limits: nat -> nat, k: nat, from: nat, upto: nat, next: nat, cap: nat, r: nat)
    requires Descending(all) && Positive(limits) && from < upto <= next <= |all|
    requires Spans(all, limits, k, from, cap) == [Span(from, upto)] + Spans(all, limits, k + 1, next, cap)
    ensures ClearAfter(all, limits, k, from, cap, r)
            <==> if all[upto - 1].block == 0 then ClearWithin(all, limits, k + 1, cap, r)
                 else ClearAfter(all, limits, k + 1, next, cap, r)
  {
    hide Spans, EndsInGenesis, Round, ClearWithin, Descending, Positive;
    var first, rest := Span(from, upto), Spans(all, limits, k + 1, next, cap);
    GenesisCons(all, first, rest);
    RoundCons(all, first, rest);
    var whole := Spans(all, limits, k, from, cap);
    assert EndsInGenesis(all, whole) <==> all[upto - 1].block == 0 || EndsInGenesis(all, rest);
    assert k + Round(all, whole) == if all[upto - 1].block == 0 then k + 1 else k + 1 + Round(all, rest);
  }

  lemma {:induction false} ClearEnds(all: seq<Row>, limits: nat -> nat, k: nat, before: string, server: Server, r: nat)
    returns (pages: seq<Page<Row>>)
    requires Descending(all) && Uint64Blocks(all) && Positive(limits) && Start(all, before) <= |all|
    requires ClearAfter(all, limits, k, Start(all, before), server.pageCap, r)
    ensures IsWalk(all, limits, k, before, server, pages)
    decreases r, |all| - Start(all, before)
  {
    hide Start, Past, Positive, Descending, Uint64Blocks, GetPage, EndsInGenesis, Covers, Spans, ClearWithin, ClearAfter;
    var from := Start(all, before);
    var page, upto, next, cursor := Request(all, limits, k, before, server);
    if !page.hasMore {
      pages := [page];
    } else {
      ClearNext(all, limits, k, from, upto, next, server.pageCap, r);
      ClearFromStart(all, limits, k + 1, server.pageCap, r);
      var rest;
      if all[upto - 1].block != 0 {
        rest := ClearEnds(all, limits, k + 1, cursor, server, r);
      } else if r > 0 {
        rest := ClearEnds(all, limits, k + 1, cursor, server, r - 1);
      } else {
        rest := WalkIs(all, limits, k + 1, cursor, server);
      }
      IsWalkCons(all, limits, k, before, server, page, rest);
      pages := [page] + rest;
    }
  }

  lemma {:induction false} EndsClear(all: seq<Row>, limits: nat -> nat, k: nat, before: string, server: Server,
                                     pages: seq<Page<Row>>) returns (r: nat)
    requires Descending(all) && Uint64Blocks(all) && Positive(limits) && Start(all, before) <= |all|
    requires IsWalk(all, limits, k, before, server, pages)
    ensures ClearAfter(all, limits, k, Start(all, before), server.pageCap, r)
    decreases |pages|
  {
    hide IsWalk, Start, Past, Positive, Descending, Uint64Blocks, GetPage, EndsInGenesis, Spans, ClearWithin, ClearAfter;
    var from := Start(all, before);
    var page, upto, next, cursor := Request(all, limits, k, before, server);
    var p, rest := IsWalkSplit(all, limits, k, before, server, pages);
    if page.hasMore {
      r := EndsClear(all, limits, k + 1, cursor, server, rest);
      if all[upto - 1].block == 0 {
        r := r + 1;
        ClearFromStart(all, limits, k + 1, server.pageCap, r);
      }
      ClearNext(all, limits, k, from, upto, next, server.pageCap, r);
    } else {
      r := 0;
      GenesisOne(all, Span(from, upto));
      LastIsClear(all, limits, k, from, server.pageCap, r);
    }
  }

  lemma LastIsClear(all: seq<Row>, limits: nat -> nat, k: nat, from: nat, cap: nat, r: nat)
    requires Descending(all) && Positive(limits) && from <= |all|
    requires !EndsInGenesis(all, Spans(all, limits, k, from, cap))
    ensures ClearAfter(all, limits, k, from, cap, r)
  {
  }

  /**
   * A walk ends exactly if, starting over after every page that is not the last and ends in block 0, it once gets
   * through without such a page.
   */
  lemma WalkEndsIfClear(all: seq<Row>, limits: nat -> nat, server: Server)
    requires Descending(all) && Uint64Blocks(all) && Positive(limits)
    ensures WalkEnds(all, limits, server) <==> exists r: nat :: ClearWithin(all, limits, 0, server.pageCap, r)
  {
    EmptyText();
    hide IsWalk, Uint64Blocks, Descending, Positive, EndsInGenesis, Spans, ClearWithin, ClearAfter, ParseBeforeBlock;
    if WalkEnds(all, limits, server) {
      var pages :| IsWalk(all, limits, 0, "", server, pages);
      var r := EndsClear(all, limits, 0, "", server, pages);
      ClearFromStart(all, limits, 0, server.pageCap, r + 1);
    }
    if r: nat :| ClearWithin(all, limits, 0, server.pageCap, r) {
      ClearFromStart(all, limits, 0, server.pageCap, r);
      if r > 0 {
        var pages := ClearEnds(all, limits, 0, "", server, r - 1);
      } else {
        var pages := WalkIs(all, limits, 0, "", server);
      }
    }
  }

  /** Every request asks for the same number of rows. */
  ghost predicate Steady(limits: nat -> nat) {
    forall k :: limits(k) == limits(0)
  }

  lemma {:induction false} SpansSteady(all: seq<Row>, limits: nat -> nat, j: nat, k: nat, from: nat, cap: nat)
    requires Descending(all) && Positive(limits) && Steady(limits) && from <= |all|
    ensures Spans(all, limits, j, from, cap) == Spans(all, limits, k, from, cap)
    decreases |all| - from
  {
    assert limits(j) == limits(0) == limits(k);
    hide Spans, Past, Positive, Steady, Descending;
    var upto, next, more := SpansUnfold(all, limits, j, from, cap);
    var upto', next', more' := SpansUnfold(all, limits, k, from, cap);
    if more {
      SpansSteady(all, limits, j + 1, k + 1, next, cap);
    }
  }

  /** A walk of equal requests that once ends a page in block 0 gets there again each time it starts over. */
  lemma {:induction false} NeverClear(all: seq<Row>, limits: nat -> nat, k: nat, cap: nat, r: nat)
    requires Descending(all) && Positive(limits) && Steady(limits)
    requires EndsInGenesis(all, Spans(all, limits, k, 0, cap))
    ensures !ClearWithin(all, limits, k, cap, r)
    decreases r
  {
    hide Spans, EndsInGenesis, Round, Positive, Descending, Steady;
    if r > 0 {
      var next := k + Round(all, Spans(all, limits, k, 0, cap));
      SpansSteady(all, limits, k, next, 0, cap);
      NeverClear(all, limits, next, cap, r - 1);
    }
  }

  /** A walk of equal requests ends exactly if no page but the last ends in block 0. */
  lemma WalkEndsExactly(all: seq<Row>, limits: nat -> nat, server: Server)
    requires Descending(all) && Uint64Blocks(all) && Positive(limits) && Steady(limits)
    ensures WalkEnds(all, limits, server) <==> !EndsInGenesis(all, Spans(all, limits, 0, 0, server.pageCap))
  {
    WalkEndsIfClear(all, limits, server);
    hide WalkEnds, Spans, Uint64Blocks, Descending, Positive, Steady, EndsInGenesis, ClearWithin;
    ClearFromStart(all, limits, 0, server.pageCap, 0);
    if EndsInGenesis(all, Spans(all, limits, 0, 0, server.pageCap)) {
      forall r: nat ensures !ClearWithin(all, limits, 0, server.pageCap, r) {
        NeverClear(all, limits, 0, server.pageCap, r);
      }
    }
  }

  /** Whatever the requests ask for, a walk ends if block 0 has at most one row. */
  lemma EndsUnlessShared(all: seq<Row>, limits: nat -> nat, server: Server)
    requires Descending(all) && Uint64Blocks(all) && Positive(limits) && !SharedGenesis(all)
    ensures !EndsInGenesis(all, Spans(all, limits, 0, 0, server.pageCap)) && WalkEnds(all, limits, server)
  {
    EmptyText();
    hide IsWalk, Spans, Uint64Blocks, Positive, Covers, SharedGenesis, Descending;
    SpansApart(all, limits, 0, 0, server.pageCap);
    ClearUnlessShared(all, Spans(all, limits, 0, 0, server.pageCap));
    var pages := WalkIs(all, limits, 0, "", server);
  }

  lemma ClearUnlessShared(all: seq<Row>, spans: seq<Span>)
    requires Descending(all) && !SharedGenesis(all)
    requires Apart(all, spans)
    ensures !EndsInGenesis(all, spans)
  {
    forall i | 0 <= i < |spans| - 1 ensures all[spans[i].upto - 1].block != 0 {
      assert all[spans[i].upto - 1].block >= all[spans[i].upto].block;
    }
  }

  /** Two transactions in block 0, one row a page: the walk never ends. */
  lemma GenesisWalkNeverEnds(a: string, b: string, server: Server)
    requires server.pageCap >= 2
    ensures !WalkEnds([Row(0, a), Row(0, b)], (k: nat) => 1, server)
  {
    var all, limits := [Row(0, a), Row(0, b)], (k: nat) => 1;
    var upto, next, more := SpansUnfold(all, limits, 0, 0, server.pageCap);
    GenesisCons(all, Span(0, upto), Spans(all, limits, 1, next, server.pageCap));
    WalkEndsExactly(all, limits, server);
  }

  /** A request for as many rows as the indexer's cap, or more, ends the walk there. */
  lemma CapEndsWalk(all: seq<Row>, limits: nat -> nat, k: nat, before: string, server: Server, pages: seq<Page<Row>>)
    requires Descending(all) && Uint64Blocks(all) && Positive(limits) && server.pageCap <= limits(k)
    requires IsWalk(all, limits, k, before, server, pages)
    ensures |pages| == 1 && |pages[0].data| <= server.pageCap
  {
    var page, upto, next, cursor := Request(all, limits, k, before, server);
  }

  // ----- What a walk returns and what it leaves out -----

  ghost predicate Returned(spans: seq<Span>, i: nat) {
    exists k :: 0 <= k < |spans| && spans[k].from <= i < spans[k].upto
  }

  /** Row i lies past the cut of a page that is not the last, in the block that page ends in. */
  ghost predicate CutOff(all: seq<Row>, spans: seq<Span>, i: nat)
    requires i < |all|
  {
    exists k :: 0 <= k < |spans| - 1 && 0 < spans[k].upto <= i && spans[k].upto <= |all|
                && all[i].block == all[spans[k].upto - 1].block
  }

  /** The stretches do not overlap, and only the last can be empty or reach the end of the table. */
  ghost predicate Apart(all: seq<Row>, spans: seq<Span>) {
    && (forall i, j :: 0 <= i < j < |spans| ==> spans[i].upto <= spans[j].from)
    && (forall i :: 0 <= i < |spans| - 1 ==> spans[i].from < spans[i].upto < |all|)
  }

  lemma ApartOne(all: seq<Row>, span: Span)
    ensures Apart(all, [span])
  {
  }

  lemma ApartCons(all: seq<Row>, first: Span, rest: seq<Span>)
    requires Apart(all, rest) && first.from < first.upto < |all|
    requires forall j :: 0 <= j < |rest| ==> first.upto <= rest[j].from
    ensures Apart(all, [first] + rest)
  {
  }

  lemma {:induction false} SpansApart(all: seq<Row>, limits: nat -> nat, k: nat, from: nat, cap: nat)
    requires Descending(all) && Positive(limits) && from <= |all|
    ensures Apart(all, Spans(all, limits, k, from, cap))
    decreases |all| - from
  {
    hide Positive, Descending, Past, Spans, Apart;
    var upto, next, more := SpansUnfold(all, limits, k, from, cap);
    if !more {
      ApartOne(all, Span(from, upto));
    } else {
      SpansApart(all, limits, k + 1, next, cap);
      var rest := Spans(all, limits, k + 1, next, cap);
      forall j | 0 <= j < |rest| ensures upto <= rest[j].from {
        assert rest[j] in rest;
      }
      ApartCons(all, Span(from, upto), rest);
    }
  }

  /** Row i lies behind the last page. */
  ghost predicate NotReached(spans: seq<Span>, i: nat)
    requires spans != []
  {
    spans[|spans| - 1].upto <= i
  }

  lemma {:induction false} ReturnedExactly(all: seq<Row>, limits: nat -> nat, k: nat, from: nat, cap: nat, i: nat)
    requires Descending(all) && Positive(limits) && from <= i < |all|
    ensures var spans := Spans(all, limits, k, from, cap);
            Returned(spans, i) <==> !CutOff(all, spans, i) && !NotReached(spans, i)
    decreases |all| - from
  {
    hide Positive, Descending, Past, Spans, Returned, CutOff;
    var upto, next, more := SpansUnfold(all, limits, k, from, cap);
    if !more {
      LastSpan(all, from, upto, i);
    } else {
      PastExactly(all, all[upto - 1].block);
      hide Apart;
      var rest := Spans(all, limits, k + 1, next, cap);
      var spans := [Span(from, upto)] + rest;
      assert spans[1..] == rest && spans[|spans| - 1] == rest[|rest| - 1];
      assert rest[|rest| - 1] in rest;
      if i < upto {
        SpansApart(all, limits, k, from, cap);
        FirstSpan(all, spans, i);
      } else if i < next {
        BlockOrder(all, upto - 1, i);
        BetweenSpans(all, spans, i);
      } else {
        ReturnedExactly(all, limits, k + 1, next, cap, i);
        Shift(all, spans, i);
      }
    }
  }

  lemma BlockOrder(all: seq<Row>, i: nat, j: nat)
    requires Descending(all) && i <= j < |all|
    ensures all[i].block >= all[j].block
  {
  }

  lemma LastSpan(all: seq<Row>, from: nat, upto: nat, i: nat)
    requires from <= i < |all| && upto <= |all|
    ensures Returned([Span(from, upto)], i) <==> i < upto
    ensures !CutOff(all, [Span(from, upto)], i)
  {
    assert [Span(from, upto)][0] == Span(from, upto);
  }

  lemma FirstSpan(all: seq<Row>, spans: seq<Span>, i: nat)
    requires i < |all| && spans != [] && spans[0].from <= i < spans[0].upto
    requires Apart(all, spans)
    ensures Returned(spans, i) && !CutOff(all, spans, i)
  {
  }

  lemma BetweenSpans(all: seq<Row>, spans: seq<Span>, i: nat)
    requires |spans| >= 2 && 0 < spans[0].upto <= i < |all|
    requires all[i].block == all[spans[0].upto - 1].block
    requires forall k :: 1 <= k < |spans| ==> i < spans[k].from
    ensures !Returned(spans, i) && CutOff(all, spans, i)
  {
  }

  lemma Shift(all: seq<Row>, spans: seq<Span>, i: nat)
    requires i < |all| && |spans| >= 2 && 0 < spans[0].upto <= i && spans[0].upto <= |all|
    requires all[i].block != all[spans[0].upto - 1].block
    ensures Returned(spans, i) <==> Returned(spans[1..], i)
    ensures CutOff(all, spans, i) <==> CutOff(all, spans[1..], i)
  {
  }

  /**
   * A walk without a page but the last that ends in block 0 returns rows of the table in order and never one twice.
   * Row i is missing exactly if it shares the block a page ends in and lies past that page's cut, or lies behind the
   * last page, which the indexer's cap may have ended early.
   */
  lemma WalkReturns(all: seq<Row>, limits: nat -> nat, server: Server, pages: seq<Page<Row>>)
    requires Descending(all) && Uint64Blocks(all) && Positive(limits)
    requires !EndsInGenesis(all, Spans(all, limits, 0, 0, server.pageCap))
    requires IsWalk(all, limits, 0, "", server, pages)
    ensures var spans := Spans(all, limits, 0, 0, server.pageCap);
            && Covers(all, pages, spans)
            && Apart(all, spans)
            && (forall i :: 0 <= i < |all| ==>
                  (Returned(spans, i) <==> !CutOff(all, spans, i) && !NotReached(spans, i)))
  {
    EmptyText();
    hide IsWalk, Spans, Uint64Blocks, Descending, Positive, EndsInGenesis, Covers, Returned, CutOff, NotReached, Apart;
    var same := WalkIs(all, limits, 0, "", server);
    WalkUnique(all, limits, 0, "", server, pages, same);
    SpansApart(all, limits, 0, 0, server.pageCap);
    forall i | 0 <= i < |all|
      ensures var spans := Spans(all, limits, 0, 0, server.pageCap);
              Returned(spans, i) <==> !CutOff(all, spans, i) && !NotReached(spans, i)
    {
      ReturnedExactly(all, limits, 0, 0, server.pageCap, i);
    }
  }

  // ----- When nothing is lost -----

  /** Every page but the last ends with the last row of a block, and the last ends with the table. */
  ghost predicate Full(all: seq<Row>, spans: seq<Span>)
    requires spans != []
  {
    && spans[|spans| - 1].upto == |all|
    && forall k :: 0 <= k < |spans| - 1 ==>
         0 < spans[k].upto < |all| && all[spans[k].upto - 1].block > all[spans[k].upto].block
  }

  lemma FullOne(all: seq<Row>, span: Span)
    ensures Full(all, [span]) <==> span.upto == |all|
  {
  }

  lemma FullCons(all: seq<Row>, first: Span, rest: seq<Span>)
    requires 0 < first.upto < |all| && rest != []
    ensures Full(all, [first] + rest) <==> all[first.upto - 1].block > all[first.upto].block && Full(all, rest)
  {
    var spans := [first] + rest;
    assert spans[0] == first && spans[|spans| - 1] == rest[|rest| - 1];
    if Full(all, spans) {
      forall i | 0 <= i < |rest| - 1
        ensures 0 < rest[i].upto < |all| && all[rest[i].upto - 1].block > all[rest[i].upto].block
      {
        assert rest[i] == spans[i + 1];
      }
    }
  }

  /** The pages together are the table from the given position on. */
  predicate Yields(all: seq<Row>, pages: seq<Page<Row>>, from: nat) {
    from <= |all| && Concat(pages) == all[from..]
  }

  predicate NoLonger(all: seq<Row>, pages: seq<Page<Row>>, from: nat) {
    |Concat(pages)| <= |all| - from
  }

  lemma {:induction false} ConcatExactly(all: seq<Row>, limits: nat -> nat, k: nat, before: string, server: Server,
                                         pages: seq<Page<Row>>)
    requires Descending(all) && Uint64Blocks(all) && Positive(limits) && Start(all, before) <= |all|
    requires !EndsInGenesis(all, Spans(all, limits, k, Start(all, before), server.pageCap))
    requires IsWalk(all, limits, k, before, server, pages)
    ensures var from := Start(all, before);
            && NoLonger(all, pages, from)
            && (Yields(all, pages, from) <==> Full(all, Spans(all, limits, k, from, server.pageCap)))
    decreases |pages|
  {
    hide IsWalk, Start, Spans, Past, Full, Positive, Descending, Uint64Blocks, Stretch, Yields, NoLonger, GetPage,
         EndsInGenesis, Concat;
    var from := Start(all, before);
    var page, upto, next, cursor := Request(all, limits, k, before, server);
    var p, rest := IsWalkSplit(all, limits, k, before, server, pages);
    if page.hasMore {
      var spans := Spans(all, limits, k + 1, next, server.pageCap);
      GenesisCons(all, Span(from, upto), spans);
      ConcatExactly(all, limits, k + 1, cursor, server, rest);
      FullCons(all, Span(from, upto), spans);
      NextBoundary(all, upto, next);
      ConcatStep(all, from, upto, next, page, rest);
    } else {
      ConcatOne(all, page, from, upto);
      FullOne(all, Span(from, upto));
    }
  }

  lemma ConcatOne(all: seq<Row>, page: Page<Row>, from: nat, upto: nat)
    requires from <= upto <= |all| && page.data == all[from..upto]
    ensures NoLonger(all, [page], from) && (Yields(all, [page], from) <==> upto == |all|)
  {
    assert Concat([page]) == page.data + Concat([]);
    assert |all[from..upto]| == upto - from && |all[from..]| == |all| - from;
  }

  lemma NextBoundary(all: seq<Row>, upto: nat, next: nat)
    requires Descending(all) && 0 < upto < |all| && next == Past(all, all[upto - 1].block)
    ensures next == upto <==> all[upto - 1].block > all[upto].block
  {
    PastExactly(all, all[upto - 1].block);
  }

  lemma ConcatStep(all: seq<Row>, from: nat, upto: nat, start: nat, page: Page<Row>, rest: seq<Page<Row>>)
    requires from < upto <= start <= |all| && page.data == all[from..upto] && NoLonger(all, rest, start)
    ensures NoLonger(all, [page] + rest, from)
    ensures Yields(all, [page] + rest, from) <==> upto == start && Yields(all, rest, start)
  {
    var whole, tail := Concat([page] + rest), Concat(rest);
    assert ([page] + rest)[1..] == rest;
    assert whole == all[from..upto] + tail;
    hide Concat;
    assert all[from..] == all[from..upto] + all[upto..];
    assert whole[upto - from..] == tail && all[from..][upto - from..] == all[upto..];
  }

  /** A walk that starts over returns the first row again. */
  lemma {:induction false} RestartRepeats(all: seq<Row>, limits: nat -> nat, k: nat, before: string, server: Server,
                                          pages: seq<Page<Row>>) returns (p: nat)
    requires Descending(all) && Uint64Blocks(all) && Positive(limits) && Start(all, before) <= |all|
    requires EndsInGenesis(all, Spans(all, limits, k, Start(all, before), server.pageCap))
    requires IsWalk(all, limits, k, before, server, pages)
    ensures 0 < p < |Concat(pages)| && all != [] && Concat(pages)[p] == all[0]
    decreases |pages|
  {
    var from := Start(all, before);
    hide IsWalk, Start, Spans, Past, Positive, Descending, Uint64Blocks, GetPage, EndsInGenesis;
    var page, upto, next, cursor := Request(all, limits, k, before, server);
    var first, rest := IsWalkSplit(all, limits, k, before, server, pages);
    if page.hasMore {
      GenesisCons(all, Span(from, upto), Spans(all, limits, k + 1, next, server.pageCap));
      if all[upto - 1].block == 0 {
        p := |page.data|;
        FirstAgain(all, limits, k + 1, cursor, server, rest);
      } else {
        p := RestartRepeats(all, limits, k + 1, cursor, server, rest);
        p := p + |page.data|;
      }
    } else {
      p := 0;
      GenesisOne(all, Span(from, upto));
    }
  }

  lemma RestartShows(all: seq<Row>, limits: nat -> nat, server: Server, pages: seq<Page<Row>>)
    requires Descending(all) && Uint64Blocks(all) && Positive(limits) && Distinct(all)
    requires IsWalk(all, limits, 0, "", server, pages)
    ensures EndsInGenesis(all, Spans(all, limits, 0, 0, server.pageCap)) ==> Concat(pages) != all
  {
    EmptyText();
    hide IsWalk, Spans, Uint64Blocks, Descending, Positive, EndsInGenesis, Concat, ParseBeforeBlock;
    if EndsInGenesis(all, Spans(all, limits, 0, 0, server.pageCap)) {
      var p := RestartRepeats(all, limits, 0, "", server, pages);
    }
  }

  lemma FirstAgain(all: seq<Row>, limits: nat -> nat, k: nat, before: string, server: Server, pages: seq<Page<Row>>)
    requires Descending(all) && Uint64Blocks(all) && Positive(limits) && all != [] && server.pageCap >= 1
    requires Start(all, before) == 0 && IsWalk(all, limits, k, before, server, pages)
    ensures Concat(pages) != [] && Concat(pages)[0] == all[0]
  {
    var page, upto, next, cursor := Request(all, limits, k, before, server);
    hide GetPage, Spans;
    assert pages[0] == page && page.data[0] == all[0];
  }

  /** The rows asked for by the first k requests together. */
  ghost function Asked(limits: nat -> nat, k: nat): nat {
    if k == 0 then 0 else Asked(limits, k - 1) + limits(k - 1)
  }

  /** If the first k requests asked for less than the table, what they asked for ends with the last row of a block. */
  ghost predicate EndsBlock(all: seq<Row>, limits: nat -> nat, k: nat) {
    0 < Asked(limits, k) < |all| ==> all[Asked(limits, k) - 1].block > all[Asked(limits, k)].block
  }

  /**
   * If the first k requests asked for less than the table, the next one asks for less than the indexer's cap or for all
   * that is left, which is within the cap; and what has then been asked for ends with the last row of a block.
   */
  ghost predicate RequestRight(all: seq<Row>, limits: nat -> nat, k: nat, cap: nat) {
    Asked(limits, k) < |all| ==> WithinCap(all, limits, k, cap) && EndsBlock(all, limits, k + 1)
  }

  ghost predicate WithinCap(all: seq<Row>, limits: nat -> nat, k: nat, cap: nat) {
    limits(k) < cap || |all| - Asked(limits, k) <= cap
  }

  ghost predicate RightFrom(all: seq<Row>, limits: nat -> nat, k: nat, cap: nat) {
    forall j :: j >= k ==> RequestRight(all, limits, j, cap)
  }

  lemma {:induction false} AskedGrows(limits: nat -> nat, j: nat, k: nat)
    requires j <= k
    ensures Asked(limits, j) <= Asked(limits, k)
  {
    if j < k {
      AskedGrows(limits, j, k - 1);
    }
  }

  /** As long as nothing is lost the pages are as long as asked for, so the cuts are known beforehand. */
  lemma {:induction false} FullAsked(all: seq<Row>, limits: nat -> nat, k: nat, cap: nat)
    requires Descending(all) && Positive(limits) && Asked(limits, k) <= |all|
    ensures Full(all, Spans(all, limits, k, Asked(limits, k), cap)) <==> RightFrom(all, limits, k, cap)
    decreases |all| - Asked(limits, k)
  {
    hide Spans, Full, Past, Asked, Descending, Positive, RightFrom;
    var from, m := Asked(limits, k), k + 1;
    var upto, next, more := SpansUnfold(all, limits, k, from, cap);
    if more {
      FullCons(all, Span(from, upto), Spans(all, limits, m, next, cap));
      NextBoundary(all, upto, next);
      RightStep(all, limits, k, cap);
      if next == upto {
        FullAsked(all, limits, m, cap);
      }
    } else {
      FullOne(all, Span(from, upto));
      RightAtLast(all, limits, k, cap);
    }
  }

  lemma RightStep(all: seq<Row>, limits: nat -> nat, k: nat, cap: nat)
    requires Positive(limits) && More(all, Asked(limits, k), limits(k), cap)
    ensures var upto := Asked(limits, k + 1);
            && 0 < upto == Asked(limits, k) + limits(k)
            && (RightFrom(all, limits, k, cap)
                <==> all[upto - 1].block > all[upto].block && RightFrom(all, limits, k + 1, cap))
  {
    RightSplit(all, limits, k, cap);
    assert Asked(limits, k + 1) == Asked(limits, k) + limits(k);
    hide RightFrom, Asked;
  }

  lemma RightAtLast(all: seq<Row>, limits: nat -> nat, k: nat, cap: nat)
    requires Positive(limits) && Asked(limits, k) <= |all| && !More(all, Asked(limits, k), limits(k), cap)
    ensures RightFrom(all, limits, k, cap) <==> EndOf(all, Asked(limits, k), limits(k), cap) == |all|
  {
    RightSplit(all, limits, k, cap);
    var m := k + 1;
    assert Asked(limits, m) == Asked(limits, k) + limits(k);
    assert limits(k) >= 1;
    hide RightFrom, Asked, Positive;
    if Asked(limits, k) == |all| {
      NothingAfter(all, limits, k, cap);
    } else if Asked(limits, m) >= |all| {
      NothingAfter(all, limits, m, cap);
      assert EndsBlock(all, limits, m);
      hide EndsBlock;
    } else {
      assert !WithinCap(all, limits, k, cap);
      hide EndsBlock, WithinCap;
    }
  }

  lemma RightSplit(all: seq<Row>, limits: nat -> nat, k: nat, cap: nat)
    ensures RightFrom(all, limits, k, cap) <==> RequestRight(all, limits, k, cap) && RightFrom(all, limits, k + 1, cap)
  {
    hide RequestRight;
  }

  lemma NothingAfter(all: seq<Row>, limits: nat -> nat, k: nat, cap: nat)
    requires Asked(limits, k) >= |all|
    ensures RightFrom(all, limits, k, cap)
  {
    forall j | j >= k ensures RequestRight(all, limits, j, cap) {
      AskedGrows(limits, k, j);
    }
  }

  /** The walk ends and returns the whole table. */
  ghost predicate Complete(all: seq<Row>, limits: nat -> nat, server: Server) {
    exists pages :: IsWalk(all, limits, 0, "", server, pages) && Concat(pages) == all
  }

  lemma FullIsClear(all: seq<Row>, spans: seq<Span>)
    requires spans != [] && Full(all, spans)
    ensures !EndsInGenesis(all, spans)
  {
  }

  /**
   * A walk ends and returns the whole table exactly if every request made before the table is exhausted asks for less
   * than the indexer's cap, or finds no more than the cap left, and what has been asked for after it, if short of the
   * table, ends with the last row of a block.
   */
  lemma LosslessExactly(all: seq<Row>, limits: nat -> nat, server: Server)
    requires Descending(all) && Uint64Blocks(all) && Positive(limits) && Distinct(all)
    ensures Complete(all, limits, server) <==> RightFrom(all, limits, 0, server.pageCap)
  {
    EmptyText();
    var spans := Spans(all, limits, 0, 0, server.pageCap);
    FullAsked(all, limits, 0, server.pageCap);
    assert all[0..] == all && Start(all, "") == 0 && Asked(limits, 0) == 0;
    hide IsWalk, Spans, Uint64Blocks, Descending, Positive, EndsInGenesis, Covers, Full, Concat, RightFrom, Start;
    if Full(all, spans) {
      FullIsClear(all, spans);
      var pages := WalkIs(all, limits, 0, "", server);
      ConcatExactly(all, limits, 0, "", server, pages);
    }
    if Complete(all, limits, server) {
      var pages :| IsWalk(all, limits, 0, "", server, pages) && Concat(pages) == all;
      RestartShows(all, limits, server, pages);
      ConcatExactly(all, limits, 0, "", server, pages);
    }
  }

  /**
   * Following the block cursor to the end returns every block exactly once and in order exactly if every request made
   * before the chain is exhausted asks for less than the indexer's cap, or finds no more than the cap left.
   */
  lemma BlockWalkComplete(all: seq<Row>, limits: nat -> nat, server: Server)
    requires OneRowPerBlock(all) && Uint64Blocks(all) && Positive(limits)
    ensures Complete(all, limits, server)
            <==> forall k :: Asked(limits, k) < |all| ==> WithinCap(all, limits, k, server.pageCap)
  {
    LosslessExactly(all, limits, server);
    hide Complete, Asked, WithinCap;
    forall k: nat ensures EndsBlock(all, limits, k) {
    }
    if forall k :: Asked(limits, k) < |all| ==> WithinCap(all, limits, k, server.pageCap) {
      forall k: nat ensures RequestRight(all, limits, k, server.pageCap) {
      }
    }
    if RightFrom(all, limits, 0, server.pageCap) {
      forall k: nat | Asked(limits, k) < |all| ensures WithinCap(all, limits, k, server.pageCap) {
        assert RequestRight(all, limits, k, server.pageCap);
      }
    }
  }

  /** Two transactions in one block, one row a page: the second never appears. */
  lemma TransactionLost(block: nat, a: string, b: string, server: Server)
    requires block < TWO_64 && a != b && server.pageCap >= 2
    ensures !Complete([Row(block, a), Row(block, b)], (k: nat) => 1, server)
  {
    var all, limits := [Row(block, a), Row(block, b)], (k: nat) => 1;
    LosslessExactly(all, limits, server);
    assert Asked(limits, 1) == Asked(limits, 0) + limits(0) == 1;
    assert !RequestRight(all, limits, 0, server.pageCap);
  }
}
