/** How many of a sequence of spaced-out times fall into an interval. */
module Spacing {

  predicate Spaced(ts: seq<int>, gap: int) {
    forall i, j :: 0 <= i < j < |ts| ==> ts[j] - ts[i] >= gap
  }

  function CountIn(ts: seq<int>, lo: int, hi: int): nat {
    if ts == [] then 0
    else CountIn(ts[..|ts| - 1], lo, hi) + if lo <= ts[|ts| - 1] <= hi then 1 else 0
  }

  lemma {:induction false} CountSpan(ts: seq<int>, gap: int, lo: int, hi: int)
    requires Spaced(ts, gap) && gap >= 1
    ensures CountIn(ts, lo, hi) > 0 ==>
              && lo <= hi && (CountIn(ts, lo, hi) - 1) * gap <= hi - lo
              && (ts[|ts| - 1] <= hi ==> (CountIn(ts, lo, hi) - 1) * gap <= ts[|ts| - 1] - lo)
  {
    if ts != [] {
      var init, last := ts[..|ts| - 1], ts[|ts| - 1];
      CountSpan(init, gap, lo, hi);
      var n := CountIn(init, lo, hi);
      if n > 0 && lo <= last <= hi {
        assert init[|init| - 1] <= last - gap;
        assert n * gap == (n - 1) * gap + gap;
      }
    }
  }

  /** An interval of length span holds at most span / gap + 1 times that are gap apart. */
  lemma SpacedBound(ts: seq<int>, gap: int, lo: int, span: nat)
    requires Spaced(ts, gap) && gap >= 1
    ensures CountIn(ts, lo, lo + span) <= span / gap + 1
  {
    var n := CountIn(ts, lo, lo + span);
    CountSpan(ts, gap, lo, lo + span);
    if n > 1 {
      DivBound(n - 1, gap, span);
    }
  }

  lemma DivBound(n: nat, gap: int, span: nat)
    requires gap >= 1 && n * gap <= span
    ensures n <= span / gap
  {
    var q := span / gap;
    if n > q {
      MulMonotone(q + 1, n, gap);
    }
  }

  lemma MulMonotone(m: nat, n: nat, gap: int)
    requires m <= n && gap >= 1
    ensures m * gap <= n * gap
  {
  }

  predicate AtMost(ts: seq<int>, gap: int, lo: int, span: nat)
    requires gap >= 1
  {
    CountIn(ts, lo, lo + span) <= span / gap + 1
  }

  /** No interval of any length holds more of ts than its length allows. */
  ghost predicate CountBounded(ts: seq<int>, gap: int)
    requires gap >= 1
  {
    forall lo: int, span: nat :: AtMost(ts, gap, lo, span)
  }

  /** Times in order respect the bound on every interval exactly if they are gap apart. */
  lemma BoundedExactly(ts: seq<int>, gap: int)
    requires gap >= 1 && forall i, j :: 0 <= i < j < |ts| ==> ts[i] <= ts[j]
    ensures CountBounded(ts, gap) <==> Spaced(ts, gap)
  {
    if Spaced(ts, gap) {
      forall lo: int, span: nat ensures AtMost(ts, gap, lo, span) {
        SpacedBound(ts, gap, lo, span);
      }
    }
    if CountBounded(ts, gap) {
      forall i, j | 0 <= i < j < |ts| ensures ts[j] - ts[i] >= gap {
        var span: nat := ts[j] - ts[i];
        assert span < gap ==> span / gap == 0;
        CountTwo(ts, i, j);
        assert AtMost(ts, gap, ts[i], span);
      }
    }
  }

  lemma {:induction false} CountOne(ts: seq<int>, i: nat, lo: int, hi: int)
    requires i < |ts| && lo <= ts[i] <= hi
    ensures CountIn(ts, lo, hi) >= 1
  {
    if i < |ts| - 1 {
      CountOne(ts[..|ts| - 1], i, lo, hi);
    }
  }

  lemma {:induction false} CountTwo(ts: seq<int>, i: nat, j: nat)
    requires i < j < |ts| && ts[i] <= ts[j]
    ensures CountIn(ts, ts[i], ts[j]) >= 2
  {
    var init := ts[..|ts| - 1];
    if j < |ts| - 1 {
      CountTwo(init, i, j);
    } else {
      CountOne(init, i, ts[i], ts[j]);
    }
  }

  lemma SpacedAppend(ts: seq<int>, gap: int, x: int)
    requires Spaced(ts, gap) && forall i :: 0 <= i < |ts| ==> x - ts[i] >= gap
    ensures Spaced(ts + [x], gap)
  {
  }
}
