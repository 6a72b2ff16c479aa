/** Splitting the parameter list of a text signature (frontend/src/lib/eventDecoder.ts, parseParamTypes). */
module TypeList {
  import opened Text

  // ----- String.prototype.trim -----

  /** White space and line terminators of ECMAScript. */
  predicate IsSpace(c: char) {
    var n := c as int;
    || 0x09 <= n <= 0x0D || n == 0x20 || n == 0xA0 || n == 0x1680 || 0x2000 <= n <= 0x200A
    || n == 0x2028 || n == 0x2029 || n == 0x202F || n == 0x205F || n == 0x3000 || n == 0xFEFF
  }

  lemma SpacesAre(c: char)
    ensures IsSpace(c)
            <==> c in {'\t', '\n', '\U{0B}', '\U{0C}', '\r', ' ', '\U{A0}', '\U{1680}', '\U{2000}', '\U{2001}', '\U{2002}',
                       '\U{2003}', '\U{2004}', '\U{2005}', '\U{2006}', '\U{2007}', '\U{2008}', '\U{2009}', '\U{200A}',
                       '\U{2028}', '\U{2029}', '\U{202F}', '\U{205F}', '\U{3000}', '\U{FEFF}'}
  {
  }

  function TrimLeft(s: string): string {
    if s != [] && IsSpace(s[0]) then TrimLeft(s[1..]) else s
  }

  function TrimRight(s: string): string {
    if s != [] && IsSpace(s[|s| - 1]) then TrimRight(s[..|s| - 1]) else s
  }

  function Trim(s: string): string {
    TrimRight(TrimLeft(s))
  }

  predicate Trimmed(s: string) {
    s != [] ==> !IsSpace(s[0]) && !IsSpace(s[|s| - 1])
  }

  // ----- Splitting at the commas outside all brackets -----

  function Delta(c: char): int {
    if c == '(' || c == '[' then 1 else if c == ')' || c == ']' then -1 else 0
  }

  /** How much s opens more brackets than it closes. */
  function Net(s: string): int {
    if s == [] then 0 else Delta(s[0]) + Net(s[1..])
  }

  lemma {:induction false} NetCounts(s: string)
    ensures Net(s) + multiset(s)[')'] + multiset(s)[']'] == multiset(s)['('] + multiset(s)['[']
  {
    if s != [] {
      NetCounts(s[1..]);
      assert s == [s[0]] + s[1..];
    }
  }

  /** No comma of s lies outside all brackets when s starts at the given depth. */
  predicate NoTopComma(s: string, depth: int) {
    s == [] || ((s[0] == ',' ==> depth != 0) && NoTopComma(s[1..], depth + Delta(s[0])))
  }

  /** A comma counts exactly if as many brackets of either kind have been closed before it as opened. */
  lemma {:induction false} NoTopCommaExactly(s: string, depth: int)
    ensures NoTopComma(s, depth) <==> forall i :: 0 <= i < |s| && s[i] == ',' ==> depth + Net(s[..i]) != 0
  {
    if s != [] {
      NoTopCommaExactly(s[1..], depth + Delta(s[0]));
      forall i | 0 <= i < |s| - 1 ensures s[1..][i] == s[i + 1] && Net(s[..i + 1]) == Delta(s[0]) + Net(s[1..][..i]) {
        assert s[..i + 1][1..] == s[1..][..i];
      }
      hide NoTopComma, Delta, Net;
      NetNothing(s);
      NoTopCommaCons(s, depth);
      if forall i :: 0 <= i < |s| && s[i] == ',' ==> depth + Net(s[..i]) != 0 {
        forall i | 0 <= i < |s| - 1 && s[1..][i] == ',' ensures depth + Delta(s[0]) + Net(s[1..][..i]) != 0 {
          var j := i + 1;
          assert s[j] == ',';
        }
        assert s[0] == ',' ==> depth != 0;
      }
      if NoTopComma(s, depth) {
        forall i | 0 <= i < |s| && s[i] == ',' ensures depth + Net(s[..i]) != 0 {
          if i > 0 {
            var h := i - 1;
            assert s[1..][h] == ',';
          }
        }
      }
    }
  }

  lemma NetNothing(s: string)
    ensures Net(s[..0]) == 0
  {
  }

  lemma NoTopCommaCons(s: string, depth: int)
    requires s != []
    ensures NoTopComma(s, depth) <==> (s[0] == ',' ==> depth != 0) && NoTopComma(s[1..], depth + Delta(s[0]))
  {
  }

  function TopSplit(s: string, depth: int): (pieces: seq<string>)
    ensures pieces != []
  {
    if s == [] then [[]]
    else
      var rest := TopSplit(s[1..], depth + Delta(s[0]));
      if s[0] == ',' && depth == 0 then [[]] + rest else [[s[0]] + rest[0]] + rest[1..]
  }

  /** A piece trimmed, or nothing if it is only white space. */
  function Flushed(current: string): seq<string> {
    if Trim(current) != "" then [Trim(current)] else []
  }

  /** The pieces that are more than white space, trimmed. */
  function Kept(pieces: seq<string>): seq<string> {
    if pieces == [] then []
    else Flushed(pieces[0]) + Kept(pieces[1..])
  }

  /** The parameter types of a parameter list. */
  function Types(s: string): seq<string> {
    Kept(TopSplit(s, 0))
  }

  function Glue(current: string, pieces: seq<string>): seq<string>
    requires pieces != []
  {
    [current + pieces[0]] + pieces[1..]
  }

  /** With types found, current read and left remaining at the given depth, all will be found. */
  predicate OnCourse(all: seq<string>, types: seq<string>, current: string, left: string, depth: int) {
    all == types + Kept(Glue(current, TopSplit(left, depth)))
  }

  method ParseParamTypes(paramsStr: string) returns (types: seq<string>)
    ensures types == Types(paramsStr)
  {
    types := [];
    var depth := 0;
    var current := "";
    Begin(paramsStr);
    hide OnCourse, Trim, Types;
    for i := 0 to |paramsStr|
      invariant OnCourse(Types(paramsStr), types, current, paramsStr[i..], depth)
    {
      var c := paramsStr[i];
      NextChar(Types(paramsStr), types, current, paramsStr[i..], depth);
      assert paramsStr[i..][1..] == paramsStr[i + 1..];
      if c == '(' || c == '[' {
        depth := depth + 1;
        current := current + [c];
      } else if c == ')' || c == ']' {
        depth := depth - 1;
        current := current + [c];
      } else if c == ',' && depth == 0 {
        if Trim(current) != "" {
          types := types + [Trim(current)];
        }
        current := "";
      } else {
        current := current + [c];
      }
    }
    End(Types(paramsStr), types, current, paramsStr[|paramsStr|..], depth);
    if Trim(current) != "" {
      types := types + [Trim(current)];
    }
  }

  lemma Begin(s: string)
    ensures OnCourse(Types(s), [], "", s[0..], 0)
  {
    GlueNothing(TopSplit(s, 0));
    assert s[0..] == s;
  }

  lemma NextChar(all: seq<string>, types: seq<string>, current: string, left: string, depth: int)
    requires OnCourse(all, types, current, left, depth) && left != []
    ensures if left[0] == ',' && depth == 0 then
              && (Trim(current) == "" ==> OnCourse(all, types, "", left[1..], 0))
              && (Trim(current) != "" ==> OnCourse(all, types + [Trim(current)], "", left[1..], 0))
            else OnCourse(all, types, current + [left[0]], left[1..], depth + Delta(left[0]))
  {
    if left[0] == ',' && depth == 0 {
      FlushStep(current, left);
      hide TopSplit, Glue, Kept, Trim;
      var flushed, ahead := Flushed(current), Kept(Glue("", TopSplit(left[1..], 0)));
      assert types + (flushed + ahead) == types + flushed + ahead;
      assert flushed == [] ==> types + flushed == types;
    } else {
      GlueStep(current, left, depth);
      hide TopSplit, Glue, Kept;
    }
  }

  lemma FlushStep(current: string, left: string)
    requires left != [] && left[0] == ','
    ensures Kept(Glue(current, TopSplit(left, 0))) == Flushed(current) + Kept(Glue("", TopSplit(left[1..], 0)))
  {
    var rest := TopSplit(left[1..], 0);
    assert TopSplit(left, 0) == [[]] + rest;
    hide TopSplit, Glue, Kept, Trim;
    GlueComma(current, rest);
  }

  lemma GlueStep(current: string, left: string, depth: int)
    requires left != [] && !(left[0] == ',' && depth == 0)
    ensures Glue(current, TopSplit(left, depth))
            == Glue(current + [left[0]], TopSplit(left[1..], depth + Delta(left[0])))
  {
    var rest := TopSplit(left[1..], depth + Delta(left[0]));
    assert TopSplit(left, depth) == [[left[0]] + rest[0]] + rest[1..];
    hide TopSplit, Glue;
    GlueChar(current, left[0], rest);
  }

  lemma End(all: seq<string>, types: seq<string>, current: string, left: string, depth: int)
    requires OnCourse(all, types, current, left, depth) && left == []
    ensures all == types + Flushed(current)
  {
    assert current + [] == current;
    assert Glue(current, [[]]) == [current];
    assert Kept([current]) == Flushed(current) + Kept([]);
  }

  lemma GlueNothing(pieces: seq<string>)
    requires pieces != []
    ensures Glue("", pieces) == pieces
  {
    assert "" + pieces[0] == pieces[0];
  }

  lemma GlueChar(current: string, c: char, rest: seq<string>)
    requires rest != []
    ensures Glue(current, [[c] + rest[0]] + rest[1..]) == Glue(current + [c], rest)
  {
    assert current + ([c] + rest[0]) == current + [c] + rest[0];
  }

  lemma GlueComma(current: string, rest: seq<string>)
    requires rest != []
    ensures Kept(Glue(current, [[]] + rest)) == Flushed(current) + Kept(Glue("", rest))
  {
    GlueNothing(rest);
    assert current + [] == current;
    assert Glue(current, [[]] + rest)[1..] == rest;
  }

  // ----- The lists that splitting inverts -----

  /** Trimmed, not empty, without a comma outside its brackets. */
  predicate Proper(t: string) {
    t != [] && Trimmed(t) && NoTopComma(t, 0)
  }

  /** Proper types, all but the last with as many brackets closed as opened. */
  predicate ProperList(ts: seq<string>) {
    forall i :: 0 <= i < |ts| ==> Proper(ts[i]) && (i < |ts| - 1 ==> Net(ts[i]) == 0)
  }

  lemma {:induction false} SplitAt(a: string, b: string, depth: int)
    requires NoTopComma(a, depth)
    ensures TopSplit(a + b, depth) == Glue(a, TopSplit(b, depth + Net(a)))
  {
    if a == [] {
      assert a + b == b;
      GlueNothing(TopSplit(b, depth));
    } else {
      var tail := a[1..];
      SplitAt(tail, b, depth + Delta(a[0]));
      assert (a + b)[1..] == tail + b;
      var rest := TopSplit(b, depth + Net(a));
      assert [a[0]] + (tail + rest[0]) == a + rest[0];
    }
  }

  lemma {:induction false} SplitJoined(ts: seq<string>)
    requires ts != [] && ProperList(ts)
    ensures TopSplit(Join(ts, ','), 0) == ts
  {
    var head := ts[0];
    if |ts| == 1 {
      SplitAt(head, [], 0);
      assert head + [] == head && ts == [head];
    } else {
      var tail := ts[1..];
      assert forall i :: 0 <= i < |tail| ==> tail[i] == ts[i + 1];
      SplitJoined(tail);
      assert Proper(head) && Net(head) == 0;
      SplitOff(head, Join(tail, ','));
      assert ts == [head] + tail;
    }
  }

  lemma SplitOff(head: string, rest: string)
    requires NoTopComma(head, 0) && Net(head) == 0
    ensures TopSplit(head + [','] + rest, 0) == [head] + TopSplit(rest, 0)
  {
    SplitAt(head, [','] + rest, 0);
    assert head + [','] + rest == head + ([','] + rest);
    assert ([','] + rest)[1..] == rest;
    assert head + [] == head && ([[]] + TopSplit(rest, 0))[1..] == TopSplit(rest, 0);
  }

  lemma {:induction false} KeepProper(ts: seq<string>)
    requires forall i :: 0 <= i < |ts| ==> ts[i] != [] && Trimmed(ts[i])
    ensures Kept(ts) == ts
  {
    if ts != [] {
      KeepProper(ts[1..]);
      assert Trim(ts[0]) == ts[0];
    }
  }

  // ----- Every result is such a list -----

  lemma {:induction false} TrimKeeps(s: string, depth: int)
    ensures Trimmed(Trim(s)) && Net(Trim(s)) == Net(s)
    ensures NoTopComma(s, depth) ==> NoTopComma(Trim(s), depth)
  {
    TrimLeftKeeps(s, depth);
    TrimRightKeeps(TrimLeft(s), depth);
  }

  lemma {:induction false} TrimLeftKeeps(s: string, depth: int)
    ensures var t := TrimLeft(s);
            && (t != [] ==> !IsSpace(t[0])) && Net(t) == Net(s)
            && (NoTopComma(s, depth) ==> NoTopComma(t, depth))
  {
    if s != [] && IsSpace(s[0]) {
      TrimLeftKeeps(s[1..], depth);
    }
  }

  lemma {:induction false} TrimRightKeeps(s: string, depth: int)
    ensures var t := TrimRight(s);
            && t <= s && (t != [] ==> !IsSpace(t[|t| - 1])) && Net(t) == Net(s)
            && (NoTopComma(s, depth) ==> NoTopComma(t, depth))
  {
    if s != [] && IsSpace(s[|s| - 1]) {
      var init := s[..|s| - 1];
      assert s == init + [s[|s| - 1]];
      TrimRightKeeps(init, depth);
      Appended(init, s[|s| - 1], depth);
    }
  }

  lemma {:induction false} Appended(s: string, c: char, depth: int)
    ensures Net(s + [c]) == Net(s) + Delta(c)
    ensures NoTopComma(s + [c], depth) ==> NoTopComma(s, depth)
  {
    if s != [] {
      assert (s + [c])[1..] == s[1..] + [c];
      Appended(s[1..], c, depth + Delta(s[0]));
    }
  }

  /** The first piece goes on from depth, the others start outside all brackets; only the last may leave some open. */
  lemma {:induction false} PiecesProper(s: string, depth: int)
    ensures var pieces := TopSplit(s, depth);
            && NoTopComma(pieces[0], depth) && (|pieces| > 1 ==> depth + Net(pieces[0]) == 0)
            && forall i :: 1 <= i < |pieces| ==>
                 NoTopComma(pieces[i], 0) && (i < |pieces| - 1 ==> Net(pieces[i]) == 0)
  {
    if s != [] {
      PiecesProper(s[1..], depth + Delta(s[0]));
    }
  }

  lemma {:induction false} KeptProper(pieces: seq<string>)
    requires forall i :: 0 <= i < |pieces| ==>
               NoTopComma(pieces[i], 0) && (i < |pieces| - 1 ==> Net(pieces[i]) == 0)
    ensures ProperList(Kept(pieces))
  {
    if pieces != [] {
      KeptProper(pieces[1..]);
      TrimKeeps(pieces[0], 0);
      if Kept(pieces[1..]) != [] {
        assert |pieces| > 1;
      }
    }
  }

  /** Whatever the text, the result is a list of proper types. */
  lemma ResultProper(s: string)
    ensures ProperList(Types(s))
  {
    PiecesProper(s, 0);
    KeptProper(TopSplit(s, 0));
  }

  /** Splitting inverts comma-joining exactly on the lists of proper types. */
  lemma InvertsJoin(ts: seq<string>)
    ensures Types(Join(ts, ',')) == ts <==> ProperList(ts)
  {
    ResultProper(Join(ts, ','));
    if ProperList(ts) {
      if ts == [] {
        assert TopSplit([], 0) == [[]] && Trim([]) == [];
      } else {
        SplitJoined(ts);
        KeepProper(ts);
      }
    }
  }
}
