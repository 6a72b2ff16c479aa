/** Masking identifiers in logged request paths (backend/pkg/log/http.go). */
module RedactPath {
  import opened Text
  import opened Hex

  const REDACTED := "[redacted]"
  const GRANT := "grant"

  // ----- Runs of hexadecimal digits -----

  function HexSpan(s: string): (n: nat)
    ensures n <= |s|
  {
    if s != [] && IsHex(s[0]) then 1 + HexSpan(s[1..]) else 0
  }

  /** The length of the match at the start of s: 0x and at least six hexadecimal digits; 0 if there is none. */
  function RunLength(s: string): (n: nat)
    ensures n <= |s|
  {
    if |s| >= 8 && s[0] == '0' && (s[1] == 'x' || s[1] == 'X') && HexSpan(s[2..]) >= 6 then 2 + HexSpan(s[2..]) else 0
  }

  /** ReplaceAllString: leftmost, longest matches, one after the other. */
  function MaskHex(s: string): string
    decreases |s|
  {
    if s == [] then []
    else if RunLength(s) > 0 then REDACTED + MaskHex(s[RunLength(s)..])
    else [s[0]] + MaskHex(s[1..])
  }

  /** The span is hexadecimal and goes as far as possible. */
  lemma {:induction false} HexSpanIs(s: string)
    ensures forall i :: 0 <= i < HexSpan(s) ==> IsHex(s[i])
    ensures HexSpan(s) < |s| ==> !IsHex(s[HexSpan(s)])
  {
    if s != [] && IsHex(s[0]) {
      HexSpanIs(s[1..]);
    }
  }

  predicate HasRun(s: string) {
    exists p :: 0 <= p < |s| && RunLength(s[p..]) > 0
  }

  /** 0x and at least six hexadecimal digits, in either case. */
  predicate LongHexAt(s: string, p: nat) {
    p + 8 <= |s| && s[p] == '0' && (s[p + 1] == 'x' || s[p + 1] == 'X') && forall i :: p + 2 <= i < p + 8 ==> IsHex(s[i])
  }

  /** There is a match exactly where a long hexadecimal number starts, and it goes on to the number's end. */
  lemma RunExactly(s: string)
    ensures RunLength(s) > 0 <==> LongHexAt(s, 0)
    ensures var n := RunLength(s);
            n > 0 ==> n >= 8 && (forall i :: 2 <= i < n ==> IsHex(s[i])) && (n < |s| ==> !IsHex(s[n]))
  {
    hide IsHex;
    if |s| >= 2 {
      HexSpanIs(s[2..]);
      forall i | 2 <= i < |s| ensures s[i] == s[2..][i - 2] {
      }
      if LongHexAt(s, 0) {
        forall i | 0 <= i < 6 ensures IsHex(s[2..][i]) {
          assert IsHex(s[i + 2]);
        }
        HexSpanAtLeast(s[2..], 6);
      }
    }
  }

  /** A long hexadecimal number is replaced as a whole; any other character stays. */
  lemma MaskHexExactly(s: string, n: nat)
    ensures s == "" ==> MaskHex(s) == ""
    ensures s != "" && !LongHexAt(s, 0) ==> MaskHex(s) == [s[0]] + MaskHex(s[1..])
    ensures LongHexAt(s, 0) && n <= |s| && n >= 8 && (forall i :: 2 <= i < n ==> IsHex(s[i])) && (n < |s| ==> !IsHex(s[n]))
            ==> MaskHex(s) == "[redacted]" + MaskHex(s[n..])
  {
    hide MaskHex, RunLength, IsHex;
    RunExactly(s);
    MaskNothing();
    if s != "" {
      MaskStep(s);
    }
  }

  // ----- Segments after a grant -----

  /** How many non-empty segments are to be masked after s, when owed are before it. */
  function StillOwed(s: string, owed: nat): nat {
    if s == "" then owed
    else if owed > 0 then owed - 1
    else if s == GRANT then 2
    else 0
  }

  /** What becomes of the segments when the next owed non-empty ones are to be masked. */
  function Mask(segs: seq<string>, owed: nat): (masked: seq<string>)
    ensures |masked| == |segs|
  {
    if segs == [] then []
    else [if segs[0] != "" && owed > 0 then REDACTED else segs[0]] + Mask(segs[1..], StillOwed(segs[0], owed))
  }

  function Redacted(path: string): string {
    MaskHex(Join(Mask(Split(path, '/'), 0), '/'))
  }

  /** segs with its first n non-empty segments overwritten. */
  function Overwritten(segs: seq<string>, n: nat): (over: seq<string>)
    ensures |over| == |segs|
  {
    if segs == [] || n == 0 then segs
    else if segs[0] == "" then [""] + Overwritten(segs[1..], n)
    else [REDACTED] + Overwritten(segs[1..], n - 1)
  }

  lemma {:induction false} OverwriteThenMask(segs: seq<string>, n: nat)
    ensures Mask(Overwritten(segs, n), 0) == Mask(segs, n)
  {
    if segs != [] && n > 0 {
      OverwriteThenMask(segs[1..], if segs[0] == "" then n else n - 1);
      assert Overwritten(segs, n)[1..] == Overwritten(segs[1..], if segs[0] == "" then n else n - 1);
    }
  }

  // ----- The code -----

  method RedactPath(path: string) returns (out: string)
    ensures out == Redacted(path)
  {
    var parts := Split(path, '/');
    var segs := new string[|parts|](i requires 0 <= i < |parts| => parts[i]);
    assert segs[..] == parts;
    MaskGrants(segs);
    out := Join(segs[..], '/');
    out := MaskHex(out);
  }

  method MaskGrants(segs: array<string>)
    modifies segs
    ensures segs[..] == Mask(old(segs[..]), 0)
  {
    ghost var all := Mask(segs[..], 0);
    assert segs[0..] == segs[..] && MaskCourse(all, segs[..0], segs[0..], 0);
    hide MaskCourse, Mask;
    for i := 0 to segs.Length
      invariant MaskCourse(all, segs[..i], segs[i..], 0)
    {
      MaskAdvances(all, segs[..i], segs[i..]);
      assert segs[i..][1..] == segs[i + 1..] && segs[..i] + [segs[i]] == segs[..i + 1];
      if segs[i] != GRANT {
        continue;
      }
      MaskOverwrites(all, segs[..i + 1], segs[i + 1..]);
      MaskNext(segs, i + 1);
    }
    assert segs[..segs.Length] == segs[..];
    MaskDone(all, segs[..], segs[segs.Length..]);
  }

  /** The inner loop: mask the next two non-empty segments. */
  method MaskNext(segs: array<string>, from: nat)
    requires from <= segs.Length
    modifies segs
    ensures segs[..from] == old(segs[..from])
    ensures segs[from..] == Overwritten(old(segs[from..]), 2)
  {
    ghost var was := segs[..];
    var n, j := 0, from;
    Beginning(was, from);
    hide InnerCourse;
    while j < segs.Length && n < 2
      invariant from <= j <= segs.Length && n <= 2
      invariant InnerCourse(was, segs[..], from, j, n)
    {
      InnerAdvances(was, segs[..], from, j, n);
      if segs[j] == "" {
        j := j + 1;
        continue;
      }
      ghost var now := segs[..];
      segs[j] := REDACTED;
      assert segs[..] == now[j := REDACTED];
      n := n + 1;
      j := j + 1;
    }
    InnerDone(was, segs[..], from, j, n);
    assert segs[..][..from] == segs[..from] && segs[..][from..] == segs[from..];
  }

  /** now is was with n of the non-empty segments between from and j overwritten, and two in all to be overwritten. */
  predicate InnerCourse(was: seq<string>, now: seq<string>, from: nat, j: nat, n: nat) {
    && |now| == |was| && from <= j <= |was| && n <= 2 && now[..from] == was[..from]
    && Overwritten(was[from..], 2) == now[from..j] + Overwritten(now[j..], 2 - n)
  }

  lemma Beginning(was: seq<string>, from: nat)
    requires from <= |was|
    ensures InnerCourse(was, was, from, from, 0)
  {
  }

  lemma InnerAdvances(was: seq<string>, now: seq<string>, from: nat, j: nat, n: nat)
    requires InnerCourse(was, now, from, j, n) && j < |now| && n < 2
    ensures now[j] == "" ==> InnerCourse(was, now, from, j + 1, n)
    ensures now[j] != "" ==> InnerCourse(was, now[j := REDACTED], from, j + 1, n + 1)
  {
    assert now[j..][1..] == now[j + 1..] && now[from..j + 1] == now[from..j] + [now[j]];
    var next := now[j := REDACTED];
    assert next[j + 1..] == now[j + 1..] && next[from..j + 1] == now[from..j] + [REDACTED];
    assert next[..from] == now[..from];
  }

  lemma InnerDone(was: seq<string>, now: seq<string>, from: nat, j: nat, n: nat)
    requires InnerCourse(was, now, from, j, n) && (n == 2 || j == |now|)
    ensures now[..from] == was[..from] && now[from..] == Overwritten(was[from..], 2)
  {
    assert now[from..] == now[from..j] + now[j..];
  }

  /** With done masked, left remaining and owed segments to be masked next, all comes out. */
  predicate MaskCourse(all: seq<string>, done: seq<string>, left: seq<string>, owed: nat) {
    all == done + Mask(left, owed)
  }

  lemma MaskAdvances(all: seq<string>, done: seq<string>, left: seq<string>)
    requires left != [] && MaskCourse(all, done, left, 0)
    ensures MaskCourse(all, done + [left[0]], left[1..], if left[0] == GRANT then 2 else 0)
  {
  }

  lemma MaskOverwrites(all: seq<string>, done: seq<string>, left: seq<string>)
    ensures MaskCourse(all, done, left, 2) ==> MaskCourse(all, done, Overwritten(left, 2), 0)
  {
    OverwriteThenMask(left, 2);
  }

  lemma MaskDone(all: seq<string>, done: seq<string>, left: seq<string>)
    requires MaskCourse(all, done, left, 0) && left == []
    ensures all == done
  {
  }

  // ----- No run is left -----

  /** Where the masked text shows no bracket, it is the text itself. */
  lemma {:induction false} Copied(s: string, n: nat)
    requires n <= |MaskHex(s)| && '[' !in MaskHex(s)[..n]
    ensures n <= |s| && MaskHex(s)[..n] == s[..n]
  {
    hide RunLength, HexSpan, MaskHex;
    MaskNothing();
    if n > 0 && s != [] {
      MaskStep(s);
      assert MaskHex(s)[0] in MaskHex(s)[..n];
      assert RunLength(s) == 0 && MaskHex(s)[1..] == MaskHex(s[1..]);
      assert MaskHex(s)[..n] == [s[0]] + MaskHex(s[1..])[..n - 1];
      Copied(s[1..], n - 1);
      assert s[..n] == [s[0]] + s[1..][..n - 1];
    }
  }

  lemma {:induction false} HexSpanAtLeast(s: string, n: nat)
    requires n <= |s| && forall i :: 0 <= i < n ==> IsHex(s[i])
    ensures HexSpan(s) >= n
  {
    if n > 0 {
      HexSpanAtLeast(s[1..], n - 1);
    }
  }

  lemma RunIsText(s: string)
    requires RunLength(s) > 0
    ensures |s| >= 8 && '[' !in s[..8]
  {
    HexSpanIs(s[2..]);
    assert forall i :: 2 <= i < 8 ==> s[i] == s[2..][i - 2];
  }

  /** A position that does not start a run does not start one after masking what follows. */
  lemma NoNewRun(s: string)
    requires s != [] && RunLength(s) == 0
    ensures RunLength(MaskHex(s)) == 0
  {
    var m := MaskHex(s);
    if RunLength(m) > 0 {
      RunIsText(m);
      Copied(s, 8);
      HexSpanIs(m[2..]);
      forall i | 0 <= i < 8 ensures s[i] == m[i] && (i >= 2 ==> s[i] == s[2..][i - 2] && m[i] == m[2..][i - 2]) {
        assert s[i] == s[..8][i] == m[..8][i];
      }
      HexSpanAtLeast(s[2..], 6);
    }
  }

  lemma {:induction false} NoRunMasked(s: string, p: nat)
    requires p < |MaskHex(s)|
    ensures RunLength(MaskHex(s)[p..]) == 0
    decreases |s|
  {
    var m := MaskHex(s);
    if RunLength(s) > 0 {
      var rest := s[RunLength(s)..];
      if p < |REDACTED| {
        assert m[p..][0] == REDACTED[p] != '0';
      } else {
        NoRunMasked(rest, p - |REDACTED|);
        assert m[p..] == MaskHex(rest)[p - |REDACTED|..];
      }
    } else if p == 0 {
      NoNewRun(s);
      assert m[0..] == m;
    } else {
      NoRunMasked(s[1..], p - 1);
      assert m[p..] == MaskHex(s[1..])[p - 1..];
    }
  }

  /** No masked path contains 0x followed by six or more hexadecimal digits. */
  lemma NoRunLeft(path: string)
    ensures !HasRun(Redacted(path)) && forall p :: 0 <= p < |Redacted(path)| ==> !LongHexAt(Redacted(path), p)
  {
    var s := Join(Mask(Split(path, '/'), 0), '/');
    forall p | 0 <= p < |MaskHex(s)| ensures RunLength(MaskHex(s)[p..]) == 0 {
      NoRunMasked(s, p);
    }
    var out := Redacted(path);
    forall p | 0 <= p < |out| ensures !LongHexAt(out, p) {
      NoRunMasked(s, p);
      RunExactly(out[p..]);
      LongHexFrom(out, p);
    }
  }

  lemma LongHexFrom(s: string, p: nat)
    requires p <= |s|
    ensures LongHexAt(s[p..], 0) <==> LongHexAt(s, p)
  {
    forall i | 0 <= i < |s| - p ensures s[p..][i] == s[p + i] {
    }
    hide IsHex;
    if LongHexAt(s[p..], 0) {
      forall i | p + 2 <= i < p + 8 ensures IsHex(s[i]) {
        assert IsHex(s[p..][i - p]);
      }
    }
  }

  lemma {:induction false} MaskIdle(s: string)
    requires !HasRun(s)
    ensures MaskHex(s) == s
  {
    if s != [] {
      assert s[0..] == s;
      forall p | 0 <= p < |s[1..]| ensures RunLength(s[1..][p..]) == 0 {
        assert s[1..][p..] == s[p + 1..];
      }
      MaskIdle(s[1..]);
    }
  }

  // ----- Masking goes segment by segment -----

  function MaskEach(segs: seq<string>): (masked: seq<string>)
    ensures |masked| == |segs|
  {
    seq(|segs|, i requires 0 <= i < |segs| => MaskHex(segs[i]))
  }

  lemma {:induction false} MaskAcross(a: string, b: string)
    requires b != [] ==> b[0] == '/'
    ensures MaskHex(a + b) == MaskHex(a) + MaskHex(b)
    decreases |a|
  {
    hide RunLength, HexSpan, MaskHex;
    MaskNothing();
    if a == [] {
      assert a + b == b;
    } else {
      SpanAcross(a, b);
      MaskStep(a);
      MaskStep(a + b);
      var k := RunLength(a);
      if k > 0 {
        assert (a + b)[k..] == a[k..] + b;
        MaskAcross(a[k..], b);
      } else {
        assert (a + b)[1..] == a[1..] + b;
        MaskAcross(a[1..], b);
      }
    }
  }

  lemma MaskNothing()
    ensures MaskHex([]) == []
  {
  }

  lemma MaskStep(s: string)
    requires s != []
    ensures RunLength(s) > 0 ==> MaskHex(s) == REDACTED + MaskHex(s[RunLength(s)..])
    ensures RunLength(s) == 0 ==> MaskHex(s) == [s[0]] + MaskHex(s[1..])
  {
    hide RunLength, HexSpan;
  }

  lemma SpanAcross(a: string, b: string)
    requires a != [] && (b != [] ==> b[0] == '/')
    ensures RunLength(a + b) == RunLength(a)
  {
    var ab := a + b;
    if |a| >= 2 {
      assert ab[2..] == a[2..] + b;
      SpanPrefix(a[2..], b);
    } else if b != [] {
      assert ab[1] == '/';
    }
  }

  lemma {:induction false} SpanPrefix(a: string, b: string)
    requires b != [] ==> b[0] == '/'
    ensures HexSpan(a + b) == HexSpan(a)
  {
    if a == [] {
      assert a + b == b;
    } else {
      assert (a + b)[1..] == a[1..] + b;
      SpanPrefix(a[1..], b);
    }
  }

  lemma {:induction false} MaskJoined(segs: seq<string>)
    ensures MaskHex(Join(segs, '/')) == Join(MaskEach(segs), '/')
  {
    hide MaskHex, RunLength;
    if segs == [] {
      MaskNothing();
    } else if |segs| > 1 {
      var s, rest := segs[0], Join(segs[1..], '/');
      assert Join(segs, '/') == s + (['/'] + rest);
      assert segs == [s] + segs[1..];
      EachCons(s, segs[1..]);
      assert MaskEach(segs)[1..] == MaskEach(segs[1..]);
      assert Join(MaskEach(segs), '/') == MaskHex(s) + (['/'] + Join(MaskEach(segs[1..]), '/'));
      hide Join, MaskEach;
      MaskJoined(segs[1..]);
      MaskAcross(s, ['/'] + rest);
      MaskSlash(rest);
    }
  }

  lemma MaskSlash(s: string)
    ensures MaskHex(['/'] + s) == ['/'] + MaskHex(s)
  {
    hide HexSpan;
    assert (['/'] + s)[1..] == s && RunLength(['/'] + s) == 0;
  }

  lemma {:induction false} SlashFree(s: string)
    requires '/' !in s
    ensures '/' !in MaskHex(s)
    decreases |s|
  {
    if s != [] {
      assert '/' !in REDACTED;
      if RunLength(s) > 0 {
        SlashFree(s[RunLength(s)..]);
      } else {
        SlashFree(s[1..]);
      }
    }
  }

  lemma {:induction false} MaskSlashFree(segs: seq<string>, owed: nat)
    requires forall i :: 0 <= i < |segs| ==> '/' !in segs[i]
    ensures forall i :: 0 <= i < |segs| ==> '/' !in Mask(segs, owed)[i]
  {
    assert '/' !in REDACTED;
    if segs != [] {
      MaskSlashFree(segs[1..], StillOwed(segs[0], owed));
    }
  }

  /** The segments of a masked path are the path's segments, each masked on its own after the ones behind a grant. */
  lemma SegmentsOf(path: string)
    ensures Split(Redacted(path), '/') == MaskEach(Mask(Split(path, '/'), 0))
  {
    var masked := Mask(Split(path, '/'), 0);
    MaskSlashFree(Split(path, '/'), 0);
    MaskJoined(masked);
    forall i | 0 <= i < |masked| ensures '/' !in MaskEach(masked)[i] {
      SlashFree(masked[i]);
    }
    SplitJoin(MaskEach(masked), '/');
  }

  // ----- After a grant -----

  /** The first n non-empty segments are masked. */
  predicate MaskedFirst(segs: seq<string>, n: nat) {
    segs == [] || n == 0
    || (if segs[0] == "" then MaskedFirst(segs[1..], n) else segs[0] == "[redacted]" && MaskedFirst(segs[1..], n - 1))
  }

  /** The next two non-empty segments after every grant segment are masked. */
  predicate GrantsMasked(segs: seq<string>) {
    segs == [] || ((segs[0] == "grant" ==> MaskedFirst(segs[1..], 2)) && GrantsMasked(segs[1..]))
  }

  /** How many segments are to be masked from position i on. */
  function OwedAt(segs: seq<string>, owed: nat, i: nat): nat
    requires i <= |segs|
  {
    if i == 0 then owed else OwedAt(segs[1..], StillOwed(segs[0], owed), i - 1)
  }

  lemma {:induction false} MaskAt(segs: seq<string>, owed: nat, i: nat)
    requires i < |segs|
    ensures Mask(segs, owed)[i] == if segs[i] != "" && OwedAt(segs, owed, i) > 0 then REDACTED else segs[i]
  {
    if i > 0 {
      MaskAt(segs[1..], StillOwed(segs[0], owed), i - 1);
    }
  }

  lemma {:induction false} OwedNext(segs: seq<string>, owed: nat, i: nat)
    requires i < |segs|
    ensures OwedAt(segs, owed, i + 1) == StillOwed(segs[i], OwedAt(segs, owed, i))
  {
    hide StillOwed;
    if i > 0 {
      OwedNext(segs[1..], StillOwed(segs[0], owed), i - 1);
    } else {
      assert OwedAt(segs[1..], StillOwed(segs[0], owed), 0) == StillOwed(segs[0], owed);
    }
  }

  /** The non-empty segments from i to before j. */
  function CountBetween(segs: seq<string>, i: nat, j: nat): (n: nat)
    requires j <= |segs|
    ensures n > 0 ==> i < j
  {
    if j <= i then 0 else CountBetween(segs, i, j - 1) + if segs[j - 1] != "" then 1 else 0
  }

  /** A grant that is not itself masked, with n non-empty segments between it and position i. */
  predicate GrantBefore(segs: seq<string>, g: nat, i: nat, n: nat)
    requires i <= |segs|
  {
    g < i && segs[g] == "grant" && Mask(segs, 0)[g] == "grant" && CountBetween(segs, g + 1, i) == n
  }

  predicate HasGrant(segs: seq<string>, i: nat, n: nat)
    requires i <= |segs|
  {
    exists g :: 0 <= g < i && GrantBefore(segs, g, i, n)
  }

  lemma HasGrantNext(segs: seq<string>, h: nat, n: nat)
    requires h < |segs|
    ensures HasGrant(segs, h + 1, n)
            <==> || (n == 0 && segs[h] == "grant" && Mask(segs, 0)[h] == "grant")
                 || (if segs[h] == "" then HasGrant(segs, h, n) else n > 0 && HasGrant(segs, h, n - 1))
  {
    hide Mask;
    var i := h + 1;
    assert CountBetween(segs, h + 1, i) == 0;
    forall g | 0 <= g < h
      ensures GrantBefore(segs, g, i, n)
              <==> if segs[h] == "" then GrantBefore(segs, g, h, n) else n > 0 && GrantBefore(segs, g, h, n - 1)
    {
    }
    assert GrantBefore(segs, h, i, n) <==> n == 0 && segs[h] == "grant" && Mask(segs, 0)[h] == "grant";
    hide GrantBefore;
    if HasGrant(segs, i, n) {
      var g :| 0 <= g < i && GrantBefore(segs, g, i, n);
      assert g < h || g == h;
    }
    if segs[h] == "" && HasGrant(segs, h, n) {
      var g :| 0 <= g < h && GrantBefore(segs, g, h, n);
      assert GrantBefore(segs, g, i, n);
    }
    if segs[h] != "" && n > 0 && HasGrant(segs, h, n - 1) {
      var g :| 0 <= g < h && GrantBefore(segs, g, h, n - 1);
      assert GrantBefore(segs, g, i, n);
    }
  }

  lemma {:induction false} OwedMeans(segs: seq<string>, i: nat)
    requires i <= |segs|
    ensures OwedAt(segs, 0, i) <= 2
    ensures OwedAt(segs, 0, i) == 2 <==> HasGrant(segs, i, 0)
    ensures OwedAt(segs, 0, i) == 1 <==> HasGrant(segs, i, 1)
  {
    if i > 0 {
      var h := i - 1;
      OwedMeans(segs, h);
      OwedNext(segs, 0, h);
      MaskAt(segs, 0, h);
      HasGrantNext(segs, h, 0);
      HasGrantNext(segs, h, 1);
      hide OwedAt, Mask, HasGrant;
    }
  }

  /**
   * A segment is masked exactly if it is not empty and a grant before it, not itself masked, has at most one non-empty
   * segment in between; every other segment stays.
   */
  lemma MaskExactly(segs: seq<string>, i: nat)
    requires i < |segs|
    ensures if segs[i] != "" && (HasGrant(segs, i, 0) || HasGrant(segs, i, 1))
            then Mask(segs, 0)[i] == "[redacted]" else Mask(segs, 0)[i] == segs[i]
  {
    MaskAt(segs, 0, i);
    OwedMeans(segs, i);
    hide OwedAt, Mask, HasGrant;
  }

  /** Masking leaves alone exactly the segments whose grants are masked already. */
  lemma {:induction false} MaskFixed(segs: seq<string>, owed: nat)
    ensures Mask(segs, owed) == segs <==> GrantsMasked(segs) && MaskedFirst(segs, owed)
  {
    if segs != [] {
      var next := StillOwed(segs[0], owed);
      MaskFixed(segs[1..], next);
      assert Mask(segs, owed)[1..] == Mask(segs[1..], next);
      assert segs == [segs[0]] + segs[1..];
    }
  }

  lemma {:induction false} MaskTwice(segs: seq<string>, owed: nat)
    ensures Mask(Mask(segs, owed), owed) == Mask(segs, owed)
  {
    if segs != [] {
      var s, rest := segs[0], segs[1..];
      var next := StillOwed(s, owed);
      MaskTwice(rest, next);
      assert Mask(segs, owed)[1..] == Mask(rest, next);
    }
  }

  /** Masking hexadecimal runs neither makes nor unmakes an empty, a grant or a masked segment. */
  lemma {:induction false} MaskHexShape(s: string)
    ensures (MaskHex(s) == "") == (s == "") && (MaskHex(s) == GRANT) == (s == GRANT)
    ensures MaskHex(REDACTED) == REDACTED
  {
    hide MaskHex;
    RedactedFixed();
    GrantFixed();
    if MaskHex(s) == GRANT {
      assert '[' !in GRANT;
      CopiedWhole(s);
    }
    if s != [] {
      MaskStep(s);
    } else {
      MaskNothing();
    }
  }

  lemma {:induction false} CopiedWhole(s: string)
    requires '[' !in MaskHex(s)
    ensures MaskHex(s) == s
  {
    hide RunLength, HexSpan, MaskHex;
    MaskNothing();
    if s != [] {
      MaskStep(s);
      assert REDACTED[0] == '[' && MaskHex(s)[0] in MaskHex(s);
      assert MaskHex(s) == [s[0]] + MaskHex(s[1..]);
      CopiedWhole(s[1..]);
      assert s == [s[0]] + s[1..];
    }
  }

  lemma GrantFixed()
    ensures MaskHex(GRANT) == GRANT
  {
    assert !HasRun(GRANT);
    MaskIdle(GRANT);
  }

  lemma RedactedFixed()
    ensures MaskHex(REDACTED) == REDACTED
  {
    assert forall p :: 0 <= p < |REDACTED| ==> REDACTED[p..][0] != '0';
    MaskIdle(REDACTED);
  }

  lemma {:induction false} MaskEachCommutes(segs: seq<string>, owed: nat)
    ensures Mask(MaskEach(segs), owed) == MaskEach(Mask(segs, owed))
  {
    if segs != [] {
      assert segs == [segs[0]] + segs[1..];
      MaskEachCommutes(segs[1..], StillOwed(segs[0], owed));
      hide MaskEach, Mask;
      MaskEachStep(segs[0], segs[1..], owed);
    }
  }

  lemma MaskEachStep(s: string, rest: seq<string>, owed: nat)
    requires Mask(MaskEach(rest), StillOwed(s, owed)) == MaskEach(Mask(rest, StillOwed(s, owed)))
    ensures Mask(MaskEach([s] + rest), owed) == MaskEach(Mask([s] + rest, owed))
  {
    hide MaskHex, MaskEach, Mask;
    MaskHexShape(s);
    assert StillOwed(MaskHex(s), owed) == StillOwed(s, owed);
    hide StillOwed;
    EachCons(s, rest);
    EachCons(if s != "" && owed > 0 then REDACTED else s, Mask(rest, StillOwed(s, owed)));
    MaskCons(s, rest, owed);
    MaskCons(MaskHex(s), MaskEach(rest), owed);
  }

  lemma MaskCons(s: string, rest: seq<string>, owed: nat)
    ensures Mask([s] + rest, owed)
            == [if s != "" && owed > 0 then REDACTED else s] + Mask(rest, StillOwed(s, owed))
  {
    assert ([s] + rest)[1..] == rest;
  }

  lemma EachCons(s: string, rest: seq<string>)
    ensures MaskEach([s] + rest) == [MaskHex(s)] + MaskEach(rest)
  {
  }

  // ----- The promises -----

  /** A masked path has as many segments as the path. */
  lemma KeepsSegmentCount(path: string)
    ensures |Split(Redacted(path), '/')| == |Split(path, '/')|
  {
    SegmentsOf(path);
  }

  /** In a masked path the next two non-empty segments after every grant are masked. */
  lemma GrantsAreMasked(path: string)
    ensures GrantsMasked(Split(Redacted(path), '/'))
  {
    var segs := Split(path, '/');
    SegmentsOf(path);
    MaskEachCommutes(segs, 0);
    MaskTwice(MaskEach(segs), 0);
    MaskFixed(Mask(MaskEach(segs), 0), 0);
  }

  lemma Idempotent(path: string)
    ensures Redacted(Redacted(path)) == Redacted(path)
  {
    var once := Redacted(path);
    var segs := Split(path, '/');
    SegmentsOf(path);
    MaskEachCommutes(segs, 0);
    MaskTwice(MaskEach(segs), 0);
    JoinSplit(once, '/');
    NoRunLeft(path);
    MaskIdle(once);
  }

  /** The two paths have the same segments except, perhaps, where masking is owed. */
  predicate Agree(a: seq<string>, b: seq<string>, owed: nat) {
    && |a| == |b|
    && (a != [] ==>
          && (a[0] == "" <==> b[0] == "") && (owed == 0 ==> a[0] == b[0])
          && Agree(a[1..], b[1..], StillOwed(a[0], owed)))
  }

  lemma {:induction false} MaskAgree(a: seq<string>, b: seq<string>, owed: nat)
    requires Agree(a, b, owed)
    ensures Mask(a, owed) == Mask(b, owed)
  {
    if a != [] {
      MaskAgree(a[1..], b[1..], StillOwed(a[0], owed));
    }
  }

  /** The masked path says nothing about the segments behind a grant but that they are not empty. */
  lemma GrantSegmentsDoNotShow(path: string, other: string)
    requires Agree(Split(path, '/'), Split(other, '/'), 0)
    ensures Redacted(path) == Redacted(other)
  {
    MaskAgree(Split(path, '/'), Split(other, '/'), 0);
  }
}
