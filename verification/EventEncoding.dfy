/** What the event decoder inverts (frontend/src/lib/eventDecoder.ts): encoded logs, and text signatures. */
module EventEncoding {
  import opened Wrappers
  import opened Text
  import opened Hex
  import opened TypeList
  import opened EventDecoder
  import Decimal

  // ----- Words -----

  function Pow16(k: nat): (p: nat)
    ensures p >= 1
  {
    if k == 0 then 1 else 16 * Pow16(k - 1)
  }

  function HexDigit(d: nat): (c: char)
    requires d < 16
    ensures DigitValue(c) == Some(d) && LowerChar(c) == c && !IsSpace(c)
  {
    if d < 10 then '0' + d as char else 'a' + (d - 10) as char
  }

  /** The k low hexadecimal digits of n. */
  function HexOf(n: nat, k: nat): (s: string)
    ensures |s| == k
    ensures forall i :: 0 <= i < k ==> LowerChar(s[i]) == s[i] && !IsSpace(s[i])
  {
    if k == 0 then [] else HexOf(n / 16, k - 1) + [HexDigit(n % 16)]
  }

  lemma {:induction false} HexValueOf(n: nat, k: nat)
    requires n < Pow16(k)
    ensures HexValue(HexOf(n, k)) == Some(n)
  {
    if k > 0 {
      HexValueOf(n / 16, k - 1);
      var s := HexOf(n, k);
      assert s[..|s| - 1] == HexOf(n / 16, k - 1) && s[|s| - 1] == HexDigit(n % 16);
    }
  }

  lemma {:induction false} HexSuffix(n: nat, k: nat, m: nat)
    ensures HexOf(n, m + k)[m..] == HexOf(n, k)
  {
    if k > 0 {
      HexSuffix(n / 16, k - 1, m);
      var s := HexOf(n, m + k);
      assert s == HexOf(n / 16, m + (k - 1)) + [HexDigit(n % 16)];
      assert s[m..] == HexOf(n / 16, m + (k - 1))[m..] + [HexDigit(n % 16)];
    }
  }

  // ----- Static values -----

  predicate IsUint(typ: string) {
    StartsWith(typ, "uint") && Decimal.AllDigits(typ[4..])
  }

  /** n stands for a value of the type: an address, a truth value or an unsigned number of at most 256 bits. */
  predicate Fits(typ: string, n: nat) {
    || (typ == "address" && n < Pow16(40))
    || (typ == "bool" && n < 2)
    || (IsUint(typ) && n < Pow16(WORD))
  }

  function Shown(typ: string, n: nat): string {
    if typ == "address" then "0x" + HexOf(n, 40)
    else if typ == "bool" then (if n == 1 then "true" else "false")
    else Decimal.Itoa(n)
  }

  function Encoded(n: nat): (w: string)
    ensures |w| == WORD
  {
    HexOf(n, WORD)
  }

  lemma {:induction false} PowGrows(a: nat, b: nat)
    requires a <= b
    ensures Pow16(a) <= Pow16(b)
  {
    if a < b {
      PowGrows(a, b - 1);
    }
  }

  /** Decoding a word inverts encoding a static value. */
  lemma WordRoundTrip(typ: string, n: nat)
    requires Fits(typ, n)
    ensures DecodeValue("0x" + Encoded(n), typ) == Shown(typ, n)
  {
    hide DecodeAddress, DecodeUint256, DecodeBool, HexOf, Decimal.Itoa, Decimal.AllDigits;
    NumberTypes(typ);
    if typ == "address" {
      AddressWord(n);
    } else if typ == "bool" {
      PowGrows(1, WORD);
      assert Pow16(1) == 16;
      hide Pow16;
      NumberWord(n);
      assert DecodeValue("0x" + HexOf(n, WORD), typ) == DecodeBool("0x" + HexOf(n, WORD));
    } else {
      hide Pow16;
      NumberWord(n);
      assert DecodeValue("0x" + HexOf(n, WORD), typ) == DecodeUint256("0x" + HexOf(n, WORD));
      assert Shown(typ, n) == Decimal.Itoa(n);
    }
  }

  // ----- Signed numbers -----

  /** The word of a signed number: two's complement. */
  function SignedWord(v: int): (n: nat)
    requires 0 <= Pow16(WORD) + 2 * v < 2 * Pow16(WORD)
    ensures n < Pow16(WORD)
  {
    if v >= 0 then v else Pow16(WORD) + v
  }

  function SignedText(v: int): string {
    if v >= 0 then Decimal.Itoa(v) else "-" + Decimal.Itoa(-v)
  }

  /** A signed number is shown as what it is exactly if it is not negative; a negative one as its word, without a sign. */
  lemma SignedExactly(typ: string, v: int)
    requires StartsWith(typ, "int") && 0 <= Pow16(WORD) + 2 * v < 2 * Pow16(WORD)
    ensures DecodeValue("0x" + Encoded(SignedWord(v)), typ) == Decimal.Itoa(SignedWord(v))
    ensures DecodeValue("0x" + Encoded(SignedWord(v)), typ) == SignedText(v) <==> v >= 0
  {
    hide DecodeAddress, DecodeUint256, DecodeBool, HexOf, Pow16;
    assert typ[0] == 'i';
    var n := SignedWord(v);
    NumberWord(n);
    assert DecodeValue("0x" + HexOf(n, WORD), typ) == DecodeUint256("0x" + HexOf(n, WORD));
    hide Decimal.Itoa;
    assert Decimal.IsDigit(Decimal.Itoa(n)[0]) && !Decimal.IsDigit('-');
  }

  /** A type that starts with uint is neither an address nor a bool. */
  lemma NumberTypes(typ: string)
    ensures IsUint(typ) ==> typ != "address" && typ != "bool"
  {
    assert IsUint(typ) ==> typ[0] == "uint"[0];
  }

  lemma AddressWord(n: nat)
    ensures DecodeAddress("0x" + HexOf(n, WORD)) == "0x" + HexOf(n, 40)
  {
    var w := HexOf(n, WORD);
    assert ("0x" + w)[2..] == w;
    HexSuffix(n, 40, 24);
    assert ToLower(HexOf(n, 40)) == HexOf(n, 40);
  }

  lemma NumberWord(n: nat)
    requires n < Pow16(WORD)
    ensures DecodeUint256("0x" + HexOf(n, WORD)) == Decimal.Itoa(n)
    ensures DecodeBool("0x" + HexOf(n, WORD)) == if n != 0 then "true" else "false"
  {
    var w := HexOf(n, WORD);
    var hex := "0x" + w;
    HexValueOf(n, WORD);
    hide HexOf, HexValue, Pow16;
    assert hex[2..] == w && StartsWith(hex, "0x");
    assert TrimRight(w) == w;
    assert BigIntOf(Prefixed(hex)) == Some(n);
  }

  // ----- Logs -----

  predicate AllFit(params: seq<Param>, values: seq<nat>) {
    |values| == |params| && forall i :: 0 <= i < |params| ==> Fits(params[i].typ, values[i])
  }

  /** The topics that carry the indexed values. */
  function TopicsOf(params: seq<Param>, values: seq<nat>): seq<string>
    requires |values| == |params|
  {
    if params == [] then []
    else
      var n := |params| - 1;
      TopicsOf(params[..n], values[..n]) + if params[n].indexed then ["0x" + Encoded(values[n])] else []
  }

  /** The words of the other values. */
  function DataOf(params: seq<Param>, values: seq<nat>): string
    requires |values| == |params|
  {
    if params == [] then []
    else
      var n := |params| - 1;
      DataOf(params[..n], values[..n]) + if params[n].indexed then [] else Encoded(values[n])
  }

  function TopicAt(topics: seq<string>, k: nat): Option<string> {
    if k < |topics| then Some(topics[k]) else None
  }

  lemma {:induction false} TopicsLength(params: seq<Param>, values: seq<nat>)
    requires |values| == |params|
    ensures |TopicsOf(params, values)| == CountIndexed(params)
    ensures |DataOf(params, values)| == WORD * |Unindexed(params)|
    ensures forall t :: t in TopicsOf(params, values) ==> t != ""
  {
    hide Encoded;
    if params != [] {
      var n := |params| - 1;
      TopicsLength(params[..n], values[..n]);
    }
  }

  lemma {:induction false} TopicHolds(params: seq<Param>, values: seq<nat>, i: nat)
    requires |values| == |params| && i < |params| && params[i].indexed
    ensures var k := CountIndexed(params[..i]);
            k < |TopicsOf(params, values)| && TopicsOf(params, values)[k] == "0x" + Encoded(values[i])
    decreases |params|
  {
    var n := |params| - 1;
    if i < n {
      TopicHolds(params[..n], values[..n], i);
      assert params[..n][..i] == params[..i];
    } else {
      TopicsLength(params[..n], values[..n]);
    }
  }

  lemma {:induction false} WordHolds(params: seq<Param>, values: seq<nat>, i: nat)
    requires |values| == |params| && i < |params| && !params[i].indexed
    ensures var j := i - CountIndexed(params[..i]);
            && j >= 0 && WORD * (j + 1) <= |DataOf(params, values)|
            && WordAt(DataOf(params, values), j) == Encoded(values[i])
    decreases |params|
  {
    var n := |params| - 1;
    var init, last := DataOf(params[..n], values[..n]), if params[n].indexed then [] else Encoded(values[n]);
    assert DataOf(params, values) == init + last;
    UnindexedLength(params[..i]);
    hide Encoded, DataOf, WordAt;
    var j := i - CountIndexed(params[..i]);
    if i < n {
      WordHolds(params[..n], values[..n], i);
      assert params[..n][..i] == params[..i];
      WordKept(init, last, j);
    } else {
      TopicsLength(params[..n], values[..n]);
      EncodedLength(values[n]);
      WordLast(init, last, j);
    }
  }

  lemma EncodedLength(value: nat)
    ensures |Encoded(value)| == WORD
  {
  }

  lemma WordKept(data: string, more: string, j: nat)
    requires WORD * (j + 1) <= |data|
    ensures WordAt(data + more, j) == WordAt(data, j)
  {
  }

  lemma WordLast(data: string, word: string, j: nat)
    requires |data| == WORD * j && |word| == WORD
    ensures WordAt(data + word, j) == word
  {
  }

  lemma TopicsBack(topics: seq<string>)
    requires |topics| <= 3 && forall t :: t in topics ==> t != ""
    ensures Topics(TopicAt(topics, 0), TopicAt(topics, 1), TopicAt(topics, 2)) == topics
  {
    var ts := Topics(TopicAt(topics, 0), TopicAt(topics, 1), TopicAt(topics, 2));
    assert forall k :: 0 <= k < |topics| ==> topics[k] in topics;
    assert |topics| == 0 ==> ts == topics;
    assert |topics| == 1 ==> ts == [topics[0]];
    assert |topics| == 2 ==> ts == [topics[0], topics[1]];
    assert |topics| == 3 ==> ts == [topics[0], topics[1], topics[2]];
  }

  /**
   * Decoding a log inverts encoding its values: for any signature of static parameters with distinct names, at most
   * three of them indexed, every parameter gets its own value back.
   */
  lemma LogRoundTrip(sig: EventSignature, values: seq<nat>, i: nat)
    requires DistinctNames(sig.params) && AllFit(sig.params, values) && CountIndexed(sig.params) <= 3
    requires i < |sig.params|
    ensures var topics := TopicsOf(sig.params, values);
            Decoded(sig, Topics(TopicAt(topics, 0), TopicAt(topics, 1), TopicAt(topics, 2)),
                    "0x" + DataOf(sig.params, values)).params[i]
            == EventParam(sig.params[i], Some(Shown(sig.params[i].typ, values[i])))
  {
    hide DecodeValue, Fits, Shown, Encoded, Decoded, DistinctNames, Topics, DataOf, TopicsOf;
    var topics := TopicsOf(sig.params, values);
    var data := "0x" + DataOf(sig.params, values);
    TopicsLength(sig.params, values);
    TopicsBack(topics);
    Positions(sig, topics, data, i);
    assert Clean(data) == DataOf(sig.params, values);
    WordRoundTrip(sig.params[i].typ, values[i]);
    if sig.params[i].indexed {
      TopicHolds(sig.params, values, i);
    } else {
      WordHolds(sig.params, values, i);
    }
  }

  // ----- Text signatures -----

  predicate IsWordChar(c: char) {
    'a' <= c <= 'z' || 'A' <= c <= 'Z' || '0' <= c <= '9' || c == '_'
  }

  /** Matched by neither . nor \w. */
  predicate IsLineEnd(c: char) {
    c == '\n' || c == '\r' || c as int == 0x2028 || c as int == 0x2029
  }

  function NameLength(s: string): (n: nat)
    ensures n <= |s|
  {
    if s != [] && IsWordChar(s[0]) then 1 + NameLength(s[1..]) else 0
  }

  /** The name and the parameter list of a text that is a name with a parenthesised rest. */
  function MatchSignature(textSig: string): Option<(string, string)> {
    var n := NameLength(textSig);
    if n == 0 || n + 2 > |textSig| || textSig[n] != '(' || textSig[|textSig| - 1] != ')' then None
    else
      var inner := textSig[n + 1..|textSig| - 1];
      if exists i :: 0 <= i < |inner| && IsLineEnd(inner[i]) then None else Some((textSig[..n], inner))
  }

  function Params(types: seq<string>, indexedCount: int): (params: seq<Param>)
    ensures |params| == |types|
  {
    seq(|types|, i requires 0 <= i < |types| => Param("arg" + Decimal.Itoa(i), types[i], i < indexedCount))
  }

  function Listed(params: seq<Param>): string {
    if params == [] then []
    else
      var p := params[0];
      p.typ + (if p.indexed then " indexed " else " ") + p.name
      + if |params| == 1 then [] else ", " + Listed(params[1..])
  }

  /** The signature a text gives: its types in order, as many of them indexed as there are topics after the first. */
  function SignatureOf(textSig: string, topicCount: int): Option<EventSignature> {
    match MatchSignature(textSig)
    case None => None
    case Some((name, inner)) =>
      if inner == "" then Some(EventSignature(name, textSig, []))
      else
        var params := Params(Types(inner), if topicCount - 1 > 0 then topicCount - 1 else 0);
        Some(EventSignature(name, name + "(" + Listed(params) + ")", params))
  }

  method ParseTextSignature(textSig: string, topicCount: int) returns (sig: Option<EventSignature>)
    ensures sig == SignatureOf(textSig, topicCount)
    ensures sig.Some? ==>
              && sig.value.name != "" && sig.value.name <= textSig && DistinctNames(sig.value.params)
              && forall i :: 0 <= i < |sig.value.params| ==>
                   Proper(sig.value.params[i].typ) && (sig.value.params[i].indexed <==> i < topicCount - 1)
                   && sig.value.params[i].name == "arg" + Decimal.Itoa(i)
  {
    var m := MatchSignature(textSig);
    if m == None {
      return None;
    }
    var (name, paramsStr) := m.value;
    if paramsStr == "" {
      return Some(EventSignature(name, textSig, []));
    }
    var paramTypes := ParseParamTypes(paramsStr);
    ResultProper(paramsStr);
    var indexedCount := if topicCount - 1 > 0 then topicCount - 1 else 0;
    var params := Params(paramTypes, indexedCount);
    ParamsDistinct(paramTypes, indexedCount);
    sig := Some(EventSignature(name, name + "(" + Listed(params) + ")", params));
  }

  lemma ParamsDistinct(types: seq<string>, indexedCount: int)
    ensures DistinctNames(Params(types, indexedCount))
  {
    var params := Params(types, indexedCount);
    forall i, j | 0 <= i < j < |params| ensures params[i].name != params[j].name {
      Decimal.AtoiItoa(i);
      Decimal.AtoiItoa(j);
      assert params[i].name[3..] == Decimal.Itoa(i) && params[j].name[3..] == Decimal.Itoa(j);
    }
  }

  lemma {:induction false} NameEnds(name: string, rest: string)
    requires forall i :: 0 <= i < |name| ==> IsWordChar(name[i])
    requires rest != [] && !IsWordChar(rest[0])
    ensures NameLength(name + rest) == |name|
  {
    if name == [] {
      assert name + rest == rest;
    } else {
      assert (name + rest)[1..] == name[1..] + rest;
      NameEnds(name[1..], rest);
    }
  }

  lemma MatchesText(name: string, inner: string)
    requires name != [] && forall i :: 0 <= i < |name| ==> IsWordChar(name[i])
    requires forall i :: 0 <= i < |inner| ==> !IsLineEnd(inner[i])
    ensures MatchSignature(name + "(" + inner + ")") == Some((name, inner))
  {
    var text := name + "(" + inner + ")";
    assert text == name + ("(" + inner + ")");
    NameEnds(name, "(" + inner + ")");
    assert text[|name| + 1..|text| - 1] == inner && text[..|name|] == name;
  }

  /** The letters, digits and underscores of a regular expression's word, by their codes. */
  lemma WordCharsAre(c: char)
    ensures var n := c as int;
            IsWordChar(c) <==> 48 <= n <= 57 || 65 <= n <= 90 || n == 95 || 97 <= n <= 122
  {
  }

  lemma LineEndsAre(c: char)
    ensures IsLineEnd(c) <==> c in {'\n', '\r', '\U{2028}', '\U{2029}'}
  {
  }

  predicate IsName(s: string) {
    s != "" && forall i :: 0 <= i < |s| ==> IsWordChar(s[i])
  }

  predicate OneLine(s: string) {
    forall i :: 0 <= i < |s| ==> !IsLineEnd(s[i])
  }

  lemma {:induction false} NameIs(s: string)
    ensures NameLength(s) <= |s| && forall i :: 0 <= i < NameLength(s) ==> IsWordChar(s[i])
  {
    if s != [] && IsWordChar(s[0]) {
      NameIs(s[1..]);
    }
  }

  /** A text matches exactly if it is a name and, in parentheses, something without line ends: its parts. */
  lemma MatchesExactly(textSig: string, name: string, inner: string)
    ensures MatchSignature(textSig) == Some((name, inner))
            <==> IsName(name) && OneLine(inner) && textSig == name + "(" + inner + ")"
  {
    if IsName(name) && OneLine(inner) && textSig == name + "(" + inner + ")" {
      MatchesText(name, inner);
    }
    if MatchSignature(textSig) == Some((name, inner)) {
      var n := NameLength(textSig);
      NameIs(textSig);
      assert textSig == textSig[..n] + [textSig[n]] + textSig[n + 1..|textSig| - 1] + [textSig[|textSig| - 1]];
      forall i | 0 <= i < |inner| ensures !IsLineEnd(inner[i]) {
      }
    }
  }

  /** A parameter as the signature's text shows it. */
  predicate ShowsParam(text: string, p: Param) {
    text == p.typ + (if p.indexed then " indexed " else " ") + p.name
  }

  /** The text lists the parameters, separated by a comma and a space. */
  lemma ListsAll(params: seq<Param>, texts: seq<string>)
    requires |texts| == |params| && forall i :: 0 <= i < |params| ==> ShowsParam(texts[i], params[i])
    ensures params == [] ==> Listed(params) == ""
    ensures |params| == 1 ==> Listed(params) == texts[0]
    ensures |params| > 1 ==> Listed(params) == texts[0] + ", " + Listed(params[1..])
  {
  }

  /** A signature's text is the one given if it has no parameters, and otherwise its name with the list of them. */
  lemma SignatureText(textSig: string, topicCount: int)
    ensures SignatureOf(textSig, topicCount).Some? <==> MatchSignature(textSig).Some?
    ensures MatchSignature(textSig).Some? ==>
              var (name, inner), sig := MatchSignature(textSig).value, SignatureOf(textSig, topicCount).value;
              sig.name == name && sig.signature == if inner == "" then textSig else name + "(" + Listed(sig.params) + ")"
  {
    hide MatchSignature, Types;
  }

  /**
   * The text written from a name and proper types gives back those types under distinct names, the first
   * topicCount - 1 of them indexed.
   */
  lemma TextRoundTrip(name: string, ts: seq<string>, topicCount: int)
    requires name != [] && forall i :: 0 <= i < |name| ==> IsWordChar(name[i])
    requires ProperList(ts)
    requires forall i :: 0 <= i < |Join(ts, ',')| ==> !IsLineEnd(Join(ts, ',')[i])
    ensures var sig := SignatureOf(name + "(" + Join(ts, ',') + ")", topicCount);
            && sig.Some? && sig.value.name == name && |sig.value.params| == |ts| && DistinctNames(sig.value.params)
            && forall i :: 0 <= i < |ts| ==>
                 sig.value.params[i].typ == ts[i] && (sig.value.params[i].indexed <==> i < topicCount - 1)
  {
    MatchesText(name, Join(ts, ','));
    hide MatchSignature, Listed, Types, Proper;
    InvertsJoin(ts);
    ParamsDistinct(ts, if topicCount - 1 > 0 then topicCount - 1 else 0);
    if ts != [] {
      JoinNotEmpty(ts);
    }
  }

  lemma JoinNotEmpty(ts: seq<string>)
    requires ts != [] && ProperList(ts)
    ensures Join(ts, ',') != []
  {
    assert Proper(ts[0]);
  }
}
