/** Decoding event logs (frontend/src/lib/eventDecoder.ts). */
module EventDecoder {
  import opened Wrappers
  import opened Text
  import opened Hex
  import opened TypeList
  import Decimal

  datatype Param = Param(name: string, typ: string, indexed: bool)

  datatype EventSignature = EventSignature(name: string, signature: string, params: seq<Param>)

  datatype EventParam = EventParam(param: Param, value: Option<string>)

  datatype DecodedEvent = DecodedEvent(name: string, signature: string, params: seq<EventParam>)

  predicate StartsWith(s: string, prefix: string) {
    prefix <= s
  }

  // ----- One value -----

  /** The value of a string of hexadecimal digits. */
  function HexValue(s: string): Option<nat> {
    if s == [] then Some(0)
    else
      match (HexValue(s[..|s| - 1]), DigitValue(s[|s| - 1]))
      case (Some(v), Some(d)) => Some(16 * v + d)
      case _ => None
  }

  /** BigInt of a text that starts with 0x; None where it throws. White space at the end is allowed. */
  function BigIntOf(text: string): Option<nat>
    requires StartsWith(text, "0x")
  {
    var digits := TrimRight(text[2..]);
    if digits == [] then None else HexValue(digits)
  }

  function Prefixed(hex: string): (r: string)
    ensures StartsWith(r, "0x")
    ensures r == hex || (r == "0x" + hex && !StartsWith(hex, "0x"))
  {
    if StartsWith(hex, "0x") then hex else "0x" + hex
  }

  /** slice(-40): the last 40 characters. */
  function Last40(s: string): (r: string)
    ensures |r| <= 40 && (|s| >= 40 ==> |r| == 40 && r == s[|s| - 40..]) && (|s| < 40 ==> r == s)
  {
    if |s| <= 40 then s else s[|s| - 40..]
  }

  function DecodeAddress(hex: string): string {
    "0x" + ToLower(Last40(if StartsWith(hex, "0x") then hex[2..] else hex))
  }

  function DecodeUint256(hex: string): string {
    match BigIntOf(Prefixed(hex))
    case Some(n) => Decimal.Itoa(n)
    case None => hex
  }

  function DecodeBool(hex: string): string {
    match BigIntOf(Prefixed(hex))
    case Some(n) => if n != 0 then "true" else "false"
    case None => hex
  }

  function DecodeValue(hex: string, typ: string): string {
    if typ == "address" then DecodeAddress(hex)
    else if typ == "bool" then DecodeBool(hex)
    else if StartsWith(typ, "uint") || StartsWith(typ, "int") then DecodeUint256(hex)
    else if StartsWith(typ, "bytes") then Prefixed(hex)
    else hex
  }

  /** Bytes are shown in hexadecimal, and types that are none of these as they come. */
  lemma OtherKinds(hex: string, typ: string)
    ensures StartsWith(typ, "bytes") && StartsWith(hex, "0x") ==> DecodeValue(hex, typ) == hex
    ensures StartsWith(typ, "bytes") && !StartsWith(hex, "0x") ==> DecodeValue(hex, typ) == "0x" + hex
    ensures typ == "address" || typ == "bool" || StartsWith(typ, "bytes") || StartsWith(typ, "uint") || StartsWith(typ, "int")
            || DecodeValue(hex, typ) == hex
  {
    assert StartsWith(typ, "bytes") ==> typ[1] == 'y';
    assert StartsWith(typ, "uint") ==> typ[0] == 'u';
    assert StartsWith(typ, "int") ==> typ[0] == 'i';
    assert StartsWith(typ, "bytes") ==> typ[0] == 'b';
  }

  /** A text without digits is no number and shown as it comes. */
  lemma NoDigits()
    ensures DecodeUint256("0x") == DecodeBool("0x") == "0x" && DecodeUint256("") == DecodeBool("") == ""
  {
    assert "0x"[2..] == "";
  }

  /** A topic shorter than an address is shown whole, in lower case. */
  lemma ShortAddress(digits: string)
    requires |digits| <= 40 && !StartsWith(digits, "0x")
    ensures DecodeAddress("0x" + digits) == "0x" + ToLower(digits) == DecodeAddress(digits)
  {
    assert ("0x" + digits)[2..] == digits;
  }

  /** Digits count alike in either case. */
  lemma {:induction false} EitherCase(s: string)
    ensures HexValue(ToLower(s)) == HexValue(s)
  {
    if s != [] {
      EitherCase(s[..|s| - 1]);
      var t := ToLower(s);
      assert t[..|t| - 1] == ToLower(s[..|s| - 1]) && t[|t| - 1] == LowerChar(s[|s| - 1]);
      hide ToLower;
    }
  }

  // ----- The data words -----

  /** 32 bytes are 64 hexadecimal digits. */
  const WORD := 64

  function Unindexed(params: seq<Param>): seq<Param> {
    if params == [] then []
    else Unindexed(params[..|params| - 1])
         + if params[|params| - 1].indexed then [] else [params[|params| - 1]]
  }

  function WordAt(data: string, j: nat): string
    requires WORD * (j + 1) <= |data|
  {
    data[WORD * j..WORD * (j + 1)]
  }

  /** The values of the first n of params, by name: parameter j has the j-th word if the data reaches that far. */
  function ValuesOf(data: string, params: seq<Param>, n: nat): map<string, string>
    requires n <= |params|
  {
    if n == 0 then map[]
    else
      var most := ValuesOf(data, params, n - 1);
      if WORD * n > |data| then most
      else most[params[n - 1].name := DecodeValue("0x" + WordAt(data, n - 1), params[n - 1].typ)]
  }

  function Clean(data: string): string {
    if StartsWith(data, "0x") then data[2..] else data
  }

  method DecodeDataParams(data: string, params: seq<Param>) returns (result: map<string, string>)
    ensures result == ValuesOf(Clean(data), Unindexed(params), |Unindexed(params)|)
  {
    hide DecodeValue, Unindexed;
    result := map[];
    var nonIndexedParams := Unindexed(params);
    if data == "" || data == "0x" {
      NoData(Clean(data), nonIndexedParams, |nonIndexedParams|, 0);
      return;
    }
    var cleanData := if StartsWith(data, "0x") then data[2..] else data;
    var offset := 0;
    for j := 0 to |nonIndexedParams|
      invariant offset == WORD * j && result == ValuesOf(cleanData, nonIndexedParams, j)
    {
      if offset + WORD > |cleanData| {
        NoData(cleanData, nonIndexedParams, |nonIndexedParams|, j);
        return;
      }
      ValuesNext(cleanData, nonIndexedParams, j);
      hide ValuesOf;
      var param := nonIndexedParams[j];
      var chunk := cleanData[offset..offset + WORD];
      result := result[param.name := DecodeValue("0x" + chunk, param.typ)];
      offset := offset + WORD;
    }
  }

  lemma ValuesNext(data: string, params: seq<Param>, j: nat)
    requires j < |params| && WORD * (j + 1) <= |data|
    ensures ValuesOf(data, params, j + 1)
            == ValuesOf(data, params, j)[params[j].name
                 := DecodeValue("0x" + data[WORD * j..WORD * j + WORD], params[j].typ)]
  {
    hide DecodeValue;
    assert WordAt(data, j) == data[WORD * j..WORD * j + WORD];
  }

  /** Past the end of the data nothing is added. */
  lemma {:induction false} NoData(data: string, params: seq<Param>, n: nat, j: nat)
    requires j <= n <= |params| && WORD * (j + 1) > |data|
    ensures ValuesOf(data, params, n) == ValuesOf(data, params, j)
  {
    if j < n {
      NoData(data, params, n - 1, j);
    }
  }

  // ----- The event -----

  function Present(t: Option<string>): seq<string> {
    if t.Some? && t.value != "" then [t.value] else []
  }

  /** The topics after the first, without the missing and the empty ones. */
  function Topics(topic1: Option<string>, topic2: Option<string>, topic3: Option<string>): seq<string> {
    Present(topic1) + Present(topic2) + Present(topic3)
  }

  function CountIndexed(params: seq<Param>): nat {
    if params == [] then 0
    else CountIndexed(params[..|params| - 1]) + if params[|params| - 1].indexed then 1 else 0
  }

  /** Parameter i's value: the k-th indexed one has the k-th topic, the others are looked up by name. */
  function ValueAt(params: seq<Param>, topics: seq<string>, values: map<string, string>, i: nat): Option<string>
    requires i < |params|
  {
    if params[i].indexed then
      var k := CountIndexed(params[..i]);
      if k < |topics| then Some(DecodeValue(topics[k], params[i].typ)) else None
    else if params[i].name in values then Some(values[params[i].name])
    else None
  }

  /** What a log decodes to under a signature. */
  function Decoded(sig: EventSignature, topics: seq<string>, data: string): DecodedEvent {
    var values := ValuesOf(Clean(data), Unindexed(sig.params), |Unindexed(sig.params)|);
    DecodedEvent(sig.name, sig.signature,
      seq(|sig.params|, i requires 0 <= i < |sig.params| =>
        EventParam(sig.params[i], ValueAt(sig.params, topics, values, i))))
  }

  method DecodeEventWithSignature(eventSig: EventSignature, topic1: Option<string>, topic2: Option<string>,
                                  topic3: Option<string>, data: string)
    returns (event: DecodedEvent)
    ensures event == Decoded(eventSig, Topics(topic1, topic2, topic3), data)
    ensures event.name == eventSig.name && event.signature == eventSig.signature
  {
    var topics := Topics(topic1, topic2, topic3);
    TopicsPresent(topic1, topic2, topic3);
    hide DecodeValue, Topics, Clean, Unindexed, ValuesOf;
    var dataValues := DecodeDataParams(data, eventSig.params);
    var decodedParams: seq<EventParam> := [];
    var topicIndex := 0;
    for i := 0 to |eventSig.params|
      invariant topicIndex == CountIndexed(eventSig.params[..i])
      invariant |decodedParams| == i
      invariant forall j :: 0 <= j < i ==> decodedParams[j] == EventParam(eventSig.params[j],
                                             ValueAt(eventSig.params, topics, dataValues, j))
    {
      var param := eventSig.params[i];
      CountNext(eventSig.params, i);
      if param.indexed {
        var topicValue := if topicIndex < |topics| then topics[topicIndex] else "";
        decodedParams := decodedParams
          + [EventParam(param, if topicValue != "" then Some(DecodeValue(topicValue, param.typ)) else None)];
        topicIndex := topicIndex + 1;
      } else {
        decodedParams := decodedParams
          + [EventParam(param, if param.name in dataValues then Some(dataValues[param.name]) else None)];
      }
    }
    event := DecodedEvent(eventSig.name, eventSig.signature, decodedParams);
  }

  lemma CountNext(params: seq<Param>, i: nat)
    requires i < |params|
    ensures CountIndexed(params[..i + 1]) == CountIndexed(params[..i]) + if params[i].indexed then 1 else 0
  {
    assert params[..i + 1][..i] == params[..i];
  }

  lemma TopicsPresent(topic1: Option<string>, topic2: Option<string>, topic3: Option<string>)
    ensures forall k :: 0 <= k < |Topics(topic1, topic2, topic3)| ==> Topics(topic1, topic2, topic3)[k] != ""
  {
  }

  /** known is the table of events by topic. */
  method DecodeEvent(known: map<string, EventSignature>, topic0: Option<string>, topic1: Option<string>,
                     topic2: Option<string>, topic3: Option<string>, data: string)
    returns (event: Option<DecodedEvent>)
    ensures event == if topic0.Some? && topic0.value != "" && ToLower(topic0.value) in known
                     then Some(Decoded(known[ToLower(topic0.value)], Topics(topic1, topic2, topic3), data))
                     else None
    ensures event.Some? ==>
              exists t :: t in known && event.value.name == known[t].name && event.value.signature == known[t].signature
                          && |event.value.params| == |known[t].params|
                          && forall i :: 0 <= i < |known[t].params| ==> event.value.params[i].param == known[t].params[i]
  {
    if topic0 == None || topic0.value == "" {
      return None;
    }
    if ToLower(topic0.value) !in known {
      return None;
    }
    var e := DecodeEventWithSignature(known[ToLower(topic0.value)], topic1, topic2, topic3, data);
    event := Some(e);
  }

  // ----- Where each value comes from -----

  predicate DistinctNames(params: seq<Param>) {
    forall i, j :: 0 <= i < j < |params| ==> params[i].name != params[j].name
  }

  lemma {:induction false} UnindexedAt(params: seq<Param>, i: nat)
    requires i < |params| && !params[i].indexed
    ensures var j := i - CountIndexed(params[..i]);
            0 <= j < |Unindexed(params)| && Unindexed(params)[j] == params[i]
    decreases |params|
  {
    var n := |params| - 1;
    UnindexedLength(params[..i]);
    if i < n {
      UnindexedAt(params[..n], i);
      assert params[..n][..i] == params[..i];
    } else {
      assert params[..i] == params[..n];
    }
  }

  lemma {:induction false} UnindexedLength(params: seq<Param>)
    ensures |Unindexed(params)| == |params| - CountIndexed(params)
  {
    if params != [] {
      UnindexedLength(params[..|params| - 1]);
    }
  }

  lemma {:induction false} UnindexedFrom(params: seq<Param>, j: nat)
    requires j < |Unindexed(params)|
    ensures exists i :: 0 <= i < |params| && params[i] == Unindexed(params)[j] && i >= j
                        && forall m :: 0 <= m < j ==> exists h :: 0 <= h < i && params[h] == Unindexed(params)[m]
  {
    var n := |params| - 1;
    var init := params[..n];
    if j < |Unindexed(init)| {
      UnindexedFrom(init, j);
    } else {
      UnindexedLength(init);
      forall m | 0 <= m < j ensures exists h :: 0 <= h < n && params[h] == Unindexed(params)[m] {
        UnindexedFrom(init, m);
        var h :| 0 <= h < n && init[h] == Unindexed(init)[m];
        assert params[h] == Unindexed(params)[m];
      }
    }
  }

  lemma UnindexedDistinct(params: seq<Param>)
    requires DistinctNames(params)
    ensures DistinctNames(Unindexed(params))
  {
    forall m, j | 0 <= m < j < |Unindexed(params)| ensures Unindexed(params)[m].name != Unindexed(params)[j].name {
      UnindexedFrom(params, j);
    }
  }

  lemma {:induction false} ValueOfName(data: string, params: seq<Param>, n: nat, j: nat)
    requires DistinctNames(params) && j < n <= |params|
    ensures var values := ValuesOf(data, params, n);
            && (params[j].name in values <==> WORD * (j + 1) <= |data|)
            && (WORD * (j + 1) <= |data| ==>
                  values[params[j].name] == DecodeValue("0x" + WordAt(data, j), params[j].typ))
  {
    hide DecodeValue;
    if j < n - 1 {
      ValueOfName(data, params, n - 1, j);
    } else {
      NotYet(data, params, n - 1, params[j].name);
    }
  }

  lemma {:induction false} NotYet(data: string, params: seq<Param>, n: nat, name: string)
    requires n <= |params| && forall m :: 0 <= m < n ==> params[m].name != name
    ensures name !in ValuesOf(data, params, n)
  {
    if n > 0 {
      NotYet(data, params, n - 1, name);
    }
  }

  /**
   * With distinct names, the k-th indexed parameter has the k-th topic, the j-th unindexed one the j-th word of the
   * data, and a parameter has no value exactly if the topics or the data do not reach that far.
   */
  lemma Positions(sig: EventSignature, topics: seq<string>, data: string, i: nat)
    requires DistinctNames(sig.params) && i < |sig.params|
    ensures var p, before := sig.params[i], CountIndexed(sig.params[..i]);
            var j := i - before;
            && Decoded(sig, topics, data).name == sig.name && Decoded(sig, topics, data).signature == sig.signature
            && Decoded(sig, topics, data).params[i].param == p && j >= 0
            && Decoded(sig, topics, data).params[i].value
               == if p.indexed then
                    (if before < |topics| then Some(DecodeValue(topics[before], p.typ)) else None)
                  else
                    (if WORD * (j + 1) <= |Clean(data)| then Some(DecodeValue("0x" + WordAt(Clean(data), j), p.typ))
                     else None)
  {
    hide DecodeValue, Clean, DistinctNames;
    var params := sig.params;
    UnindexedLength(params[..i]);
    if !params[i].indexed {
      UnindexedAt(params, i);
      UnindexedDistinct(params);
      ValueOfName(Clean(data), Unindexed(params), |Unindexed(params)|, i - CountIndexed(params[..i]));
    }
  }
}
