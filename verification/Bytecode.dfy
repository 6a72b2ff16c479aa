/** Comparing bytecode up to the compiler's metadata (backend/internal/verifier/bytecode.go). */
module Bytecode {
  import opened Wrappers
  import opened Text
  import opened Hex

  datatype MatchType = Exact | Partial | NoMatch

  /** Lengths are in bytes; a hash is empty if the code is not hexadecimal. */
  datatype Comparison = Comparison(matchType: MatchType, onChainHash: string, compiledHash: string,
                                   onChainLength: nat, compiledLength: nat, metadataStripped: bool)

  /** Keccak-256, printed; it stands for any function of the bytes. */
  type Hash = seq<nat> -> string

  /** The CBOR prefixes of an ipfs and of a bzzr metadata hash. */
  const IPFS := "a264697066"
  const BZZR := "a165627a7a72"

  /** Hexadecimal digits below which there is no room for metadata. */
  const MIN_LENGTH := 86

  // ----- Text -----

  function TrimPrefix(s: string, prefix: string): string {
    if prefix <= s then s[|prefix|..] else s
  }

  predicate HasSuffix(s: string, suffix: string) {
    |suffix| <= |s| && s[|s| - |suffix|..] == suffix
  }

  predicate OccursAt(s: string, m: string, i: int) {
    0 <= i <= |s| - |m| && s[i..i + |m|] == m
  }

  function LastIndexFrom(s: string, m: string, n: nat): (at: Option<nat>)
    ensures at.Some? ==> OccursAt(s, m, at.value) && at.value < n
    ensures forall i :: (if at.Some? then at.value < i else 0 <= i) && i < n ==> !OccursAt(s, m, i)
  {
    if n == 0 then None
    else if OccursAt(s, m, n - 1) then Some(n - 1)
    else LastIndexFrom(s, m, n - 1)
  }

  /** Where m occurs last in s. */
  function LastIndex(s: string, m: string): (at: Option<nat>)
    ensures at.Some? ==> OccursAt(s, m, at.value)
    ensures forall i :: OccursAt(s, m, i) ==> at.Some? && i <= at.value
  {
    LastIndexFrom(s, m, |s| + 1)
  }

  // ----- The code -----

  function StripMetadata(bytecode: string): (stripped: string)
    ensures stripped <= bytecode
  {
    if |bytecode| < MIN_LENGTH then bytecode
    else
      var at := LastIndex(bytecode, IPFS);
      var idx := if at == None then LastIndex(bytecode, BZZR) else at;
      if idx == None then bytecode else bytecode[..idx.value]
  }

  function Normal(code: string): string {
    TrimPrefix(ToLower(code), "0x")
  }

  /** code without the constructor arguments at its end, if they are there. */
  function WithoutArgs(code: string, args: string): string {
    if args != "" && HasSuffix(code, args) then code[..|code| - |args|] else code
  }

  /** hex.DecodeString. */
  function HexBytes(s: string): Option<seq<nat>> {
    if s == [] then Some([])
    else if |s| == 1 then None
    else
      match (DigitValue(s[0]), DigitValue(s[1]), HexBytes(s[2..]))
      case (Some(h), Some(l), Some(rest)) => Some([16 * h + l] + rest)
      case _ => None
  }

  /** Exactly the texts of pairs of hexadecimal digits are bytes, one for each pair. */
  lemma {:induction false} BytesExactly(s: string)
    ensures HexBytes(s).Some? <==> |s| % 2 == 0 && Hexadecimal(s)
    ensures HexBytes(s).Some? ==>
              |HexBytes(s).value| == |s| / 2
              && forall i :: 0 <= i < |s| / 2 ==>
                   DigitValue(s[2 * i]).Some? && DigitValue(s[2 * i + 1]).Some?
                   && HexBytes(s).value[i] == 16 * DigitValue(s[2 * i]).value + DigitValue(s[2 * i + 1]).value
  {
    hide DigitValue;
    if |s| >= 2 {
      var rest := s[2..];
      BytesExactly(rest);
      forall i | 0 <= i < |rest| ensures rest[i] == s[i + 2] {
      }
      if Hexadecimal(rest) && DigitValue(s[0]).Some? && DigitValue(s[1]).Some? {
        forall i | 0 <= i < |s| ensures DigitValue(s[i]).Some? {
          assert i >= 2 ==> DigitValue(rest[i - 2]).Some?;
        }
      }
      if HexBytes(s).Some? {
        forall i | 0 <= i < |s| / 2
          ensures DigitValue(s[2 * i]).Some? && DigitValue(s[2 * i + 1]).Some?
                  && HexBytes(s).value[i] == 16 * DigitValue(s[2 * i]).value + DigitValue(s[2 * i + 1]).value
        {
          if i > 0 {
            var h := i - 1;
            assert rest[2 * h] == s[2 * i] && rest[2 * h + 1] == s[2 * i + 1];
          }
        }
      }
    }
  }

  function HashOf(code: string, keccak: Hash): string {
    match HexBytes(code)
    case Some(bytes) => keccak(bytes)
    case None => ""
  }

  function MatchOf(onChain: string, compiled: string): MatchType {
    var o, c := StripMetadata(onChain), StripMetadata(compiled);
    if onChain == compiled then Exact
    else if o != "" && c != "" && o == c then Partial
    else NoMatch
  }

  /** The comparison of two normalised codes. */
  function Compared(onChain: string, compiled: string, keccak: Hash): (r: Comparison)
    ensures r.matchType == Exact ==> r.onChainHash == r.compiledHash && r.onChainLength == r.compiledLength
    ensures r.metadataStripped <==> r.matchType == Partial
  {
    var m := MatchOf(onChain, compiled);
    Comparison(m, HashOf(onChain, keccak), HashOf(compiled, keccak), |onChain| / 2, |compiled| / 2, m == Partial)
  }

  /** The comparison of two codes as they are passed in. */
  function Comparing(onChain: string, compiled: string, constructorArgs: string, keccak: Hash): Comparison {
    Compared(WithoutArgs(Normal(onChain), Normal(constructorArgs)), Normal(compiled), keccak)
  }

  method CompareBytecode(onChain: string, compiled: string, constructorArgs: string, keccak: Hash)
    returns (result: Comparison)
    ensures result == Comparing(onChain, compiled, constructorArgs, keccak)
    ensures var code, other := WithoutArgs(Normal(onChain), Normal(constructorArgs)), Normal(compiled);
            && result.onChainLength == |code| / 2 && result.compiledLength == |other| / 2
            && result.onChainHash == (if HexBytes(code).Some? then keccak(HexBytes(code).value) else "")
            && result.compiledHash == (if HexBytes(other).Some? then keccak(HexBytes(other).value) else "")
  {
    hide HexBytes, StripMetadata, Normal;
    var code, other, args := Normal(onChain), Normal(compiled), Normal(constructorArgs);
    if args != "" && HasSuffix(code, args) {
      code := code[..|code| - |args|];
    }
    result := Comparison(NoMatch, "", "", |code| / 2, |other| / 2, false);
    var onChainBytes := HexBytes(code);
    if onChainBytes.Some? {
      result := result.(onChainHash := keccak(onChainBytes.value));
    }
    var compiledBytes := HexBytes(other);
    if compiledBytes.Some? {
      result := result.(compiledHash := keccak(compiledBytes.value));
    }
    if code == other {
      result := result.(matchType := Exact);
      return;
    }
    var onChainStripped := StripMetadata(code);
    var compiledStripped := StripMetadata(other);
    if onChainStripped != "" && compiledStripped != "" && onChainStripped == compiledStripped {
      result := result.(matchType := Partial, metadataStripped := true);
      return;
    }
  }

  /** Short of a collision, equal hashes of lower-case hexadecimal codes mean equal codes, so an exact match. */
  lemma {:induction false} BytesDetermine(a: string, b: string)
    requires ToLower(a) == a && ToLower(b) == b
    requires HexBytes(a).Some? && HexBytes(a) == HexBytes(b)
    ensures a == b
  {
    hide HexBytes, DigitValue, ToLower, LowerChar;
    BytesEmpty(a);
    BytesEmpty(b);
    if a != [] && b != [] {
      var x, xs := BytesCons(a);
      var y, ys := BytesCons(b);
      FirstByte(x, xs, y, ys);
      LowerTail(a);
      LowerTail(b);
      BytesDetermine(a[2..], b[2..]);
      DigitsDetermine(a[0], a[1], b[0], b[1]);
      assert a == [a[0], a[1]] + a[2..] && b == [b[0], b[1]] + b[2..];
    }
  }

  lemma BytesEmpty(s: string)
    requires HexBytes(s).Some?
    ensures HexBytes(s) == Some([]) <==> s == []
  {
  }

  lemma FirstByte(x: nat, xs: seq<nat>, y: nat, ys: seq<nat>)
    requires [x] + xs == [y] + ys
    ensures x == y && xs == ys
  {
    assert ([x] + xs)[0] == x && ([y] + ys)[0] == y;
    assert ([x] + xs)[1..] == xs && ([y] + ys)[1..] == ys;
  }

  lemma BytesCons(s: string) returns (x: nat, xs: seq<nat>)
    requires s != [] && HexBytes(s).Some?
    ensures |s| >= 2 && DigitValue(s[0]).Some? && DigitValue(s[1]).Some? && HexBytes(s[2..]) == Some(xs)
    ensures x == 16 * DigitValue(s[0]).value + DigitValue(s[1]).value && HexBytes(s) == Some([x] + xs)
  {
    hide DigitValue;
    assert |s| >= 2;
    var h, l, rest := DigitValue(s[0]), DigitValue(s[1]), HexBytes(s[2..]);
    assert h.Some? && l.Some? && rest.Some?;
    x, xs := 16 * h.value + l.value, rest.value;
  }

  lemma LowerTail(s: string)
    requires |s| >= 2 && ToLower(s) == s
    ensures LowerChar(s[0]) == s[0] && LowerChar(s[1]) == s[1] && ToLower(s[2..]) == s[2..]
  {
    assert ToLower(s)[0] == LowerChar(s[0]) && ToLower(s)[1] == LowerChar(s[1]);
    forall i | 0 <= i < |s[2..]| ensures LowerChar(s[2..][i]) == s[2..][i] {
      assert ToLower(s)[i + 2] == LowerChar(s[i + 2]);
    }
  }

  lemma DigitDetermines(c: char, d: char)
    requires LowerChar(c) == c && LowerChar(d) == d && DigitValue(c).Some? && DigitValue(c) == DigitValue(d)
    ensures c == d
  {
  }

  lemma DigitsDetermine(c1: char, c2: char, d1: char, d2: char)
    requires LowerChar(c1) == c1 && LowerChar(c2) == c2 && LowerChar(d1) == d1 && LowerChar(d2) == d2
    requires DigitValue(c1).Some? && DigitValue(c2).Some? && DigitValue(d1).Some? && DigitValue(d2).Some?
    requires 16 * DigitValue(c1).value + DigitValue(c2).value == 16 * DigitValue(d1).value + DigitValue(d2).value
    ensures c1 == d1 && c2 == d2
  {
    hide LowerChar;
    assert DigitValue(c1) == DigitValue(d1) && DigitValue(c2) == DigitValue(d2);
    DigitDetermines(c1, d1);
    DigitDetermines(c2, d2);
  }

  // ----- What a match means -----

  /** t is what stripping may take off: nothing, or text from a metadata marker on. */
  predicate MetadataTail(t: string) {
    t == "" || "a264697066" <= t || "a165627a7a72" <= t
  }

  /** Metadata that runs to the end: it starts with the marker, and the marker does not come again. */
  predicate IpfsMetadata(m: string) {
    "a264697066" <= m && forall i :: 0 < i <= |m| ==> !OccursAt(m, "a264697066", i)
  }

  /** Stripping finds the metadata behind any code, even one that itself contains markers. */
  lemma StripsMetadata(c: string, m: string)
    requires IpfsMetadata(m) && |c + m| >= 86
    ensures StripMetadata(c + m) == c
  {
    var code := c + m;
    assert code[|c|..|c| + |IPFS|] == m[..|IPFS|];
    assert OccursAt(code, IPFS, |c|);
    forall i | i > |c| ensures !OccursAt(code, IPFS, i) {
      assert !OccursAt(m, IPFS, i - |c|);
      if i <= |code| - |IPFS| {
        assert code[i..i + |IPFS|] == m[i - |c|..i - |c| + |IPFS|];
      }
    }
  }

  /** m occurs in s at i and not after it. */
  predicate LastAt(s: string, m: string, i: nat) {
    OccursAt(s, m, i) && forall j :: i < j <= |s| ==> !OccursAt(s, m, j)
  }

  predicate Occurs(s: string, m: string) {
    exists i :: 0 <= i <= |s| && OccursAt(s, m, i)
  }

  /** Long enough code is cut at its last ipfs marker, and without one at its last bzzr marker. */
  lemma StripExactly(code: string, i: nat)
    ensures |code| < 86 ==> StripMetadata(code) == code
    ensures |code| >= 86 && LastAt(code, "a264697066", i) ==> StripMetadata(code) == code[..i]
    ensures |code| >= 86 && !Occurs(code, "a264697066") && LastAt(code, "a165627a7a72", i) ==>
              StripMetadata(code) == code[..i]
    ensures !Occurs(code, "a264697066") && !Occurs(code, "a165627a7a72") ==> StripMetadata(code) == code
  {
    hide LastIndex;
    var ipfs, bzzr := LastIndex(code, IPFS), LastIndex(code, BZZR);
    if OccursAt(code, IPFS, i) {
      assert ipfs.Some? && i <= ipfs.value;
    }
    if OccursAt(code, BZZR, i) {
      assert bzzr.Some? && i <= bzzr.value;
    }
    assert ipfs.Some? ==> 0 <= ipfs.value <= |code| && OccursAt(code, "a264697066", ipfs.value);
    assert bzzr.Some? ==> 0 <= bzzr.value <= |code| && OccursAt(code, "a165627a7a72", bzzr.value);
  }

  /** Two builds that differ only in their metadata match partially. */
  lemma SameCodeMatches(c: string, m1: string, m2: string)
    requires c != "" && m1 != m2 && IpfsMetadata(m1) && IpfsMetadata(m2)
    requires |c + m1| >= 86 && |c + m2| >= 86
    ensures MatchOf(c + m1, c + m2) == Partial
  {
    StripsMetadata(c, m1);
    StripsMetadata(c, m2);
    assert (c + m1)[|c|..] == m1 && (c + m2)[|c|..] == m2;
  }

  lemma StripSplits(code: string)
    ensures MetadataTail(code[|StripMetadata(code)|..])
  {
    var s := StripMetadata(code);
    if |code| >= MIN_LENGTH {
      var at := LastIndex(code, IPFS);
      var idx := if at == None then LastIndex(code, BZZR) else at;
      if idx.Some? {
        var tail := code[idx.value..];
        assert at.Some? ==> tail[..|IPFS|] == IPFS;
        assert at == None ==> tail[..|BZZR|] == BZZR;
      }
    }
  }

  /** Nothing but metadata tails behind a common non-empty code tells two partially matching codes apart. */
  lemma PartialMeans(a: string, b: string)
    requires MatchOf(a, b) == Partial
    ensures a != b
    ensures exists n :: 0 < n <= |a| && n <= |b| && a[..n] == b[..n] && MetadataTail(a[n..]) && MetadataTail(b[n..])
  {
    StripSplits(a);
    StripSplits(b);
    var n := |StripMetadata(a)|;
    assert a[..n] == StripMetadata(a) == b[..n];
  }

  predicate Matches(a: string, b: string) {
    MatchOf(a, b) != NoMatch
  }

  /** Without constructor arguments the match type is symmetric and matching is an equivalence relation. */
  lemma MatchIsEquivalence(a: string, b: string, c: string)
    ensures Matches(a, a)
    ensures MatchOf(a, b) == MatchOf(b, a)
    ensures Matches(a, b) && Matches(b, c) ==> Matches(a, c)
  {
    hide StripMetadata;
  }

  /** Code followed by its constructor arguments compares as the code alone. */
  lemma ArgsDoNotCount(code: string, args: string, compiled: string, keccak: Hash)
    ensures Compared(WithoutArgs(code + args, args), compiled, keccak)
            == Compared(WithoutArgs(code, ""), compiled, keccak)
  {
    ArgsCutOff(code, args);
  }

  lemma ArgsCutOff(code: string, args: string)
    ensures WithoutArgs(code + args, args) == code
  {
    assert (code + args)[|code|..] == args && (code + args)[..|code|] == code;
    assert args == "" ==> code + args == code;
  }

  /** Short code is compared whole: below 86 digits a match is always exact. */
  lemma ShortCodeIsWhole(a: string, b: string)
    requires |a| < 86 && |b| < 86
    ensures Matches(a, b) <==> a == b
  {
  }

  // ----- Inputs as they are spelled -----

  predicate Hexadecimal(s: string) {
    forall i :: 0 <= i < |s| ==> DigitValue(s[i]).Some?
  }

  /** s writes the code in either case, with or without a 0x in front. */
  predicate Spells(s: string, code: string) {
    Hexadecimal(code)
    && (ToLower(s) == ToLower(code) || (|s| >= 2 && ToLower(s[..2]) == "0x" && ToLower(s[2..]) == ToLower(code)))
  }

  lemma LowerConcat(a: string, b: string)
    ensures ToLower(a + b) == ToLower(a) + ToLower(b)
  {
  }

  lemma SpelledNormal(s: string, code: string)
    requires Spells(s, code)
    ensures Normal(s) == ToLower(code)
  {
    if |s| >= 2 && ToLower(s[..2]) == "0x" && ToLower(s[2..]) == ToLower(code) {
      LowerConcat(s[..2], s[2..]);
      assert s == s[..2] + s[2..];
    } else if |code| >= 2 {
      assert DigitValue(code[1]).Some?;
      assert ToLower(code)[1] == LowerChar(code[1]) != 'x';
    }
  }

  /** Neither case nor a 0x in front makes a difference. */
  lemma SpellingDoesNotCount(s1: string, s2: string, t1: string, t2: string, u1: string, u2: string,
                             onChain: string, compiled: string, args: string, keccak: Hash)
    requires Spells(s1, onChain) && Spells(s2, onChain)
    requires Spells(t1, compiled) && Spells(t2, compiled)
    requires Spells(u1, args) && Spells(u2, args)
    ensures Comparing(s1, t1, u1, keccak) == Comparing(s2, t2, u2, keccak)
  {
    hide Normal, Spells;
    SpelledNormal(s1, onChain);
    SpelledNormal(s2, onChain);
    SpelledNormal(t1, compiled);
    SpelledNormal(t2, compiled);
    SpelledNormal(u1, args);
    SpelledNormal(u2, args);
  }

  /**
   * Deployed code with its constructor arguments matches the compiled code: exactly if it has the same metadata, and
   * partially if its metadata differs and both are long enough; however the three inputs are spelled.
   */
  lemma DeployedMatches(s: string, t: string, u: string, code: string, m1: string, m2: string, args: string,
                        keccak: Hash)
    requires Spells(s, code + m1 + args) && Spells(t, code + m2) && Spells(u, args)
    ensures ToLower(m1) == ToLower(m2) ==> Comparing(s, t, u, keccak).matchType == Exact
    ensures code != "" && ToLower(m1) != ToLower(m2) && IpfsMetadata(ToLower(m1)) && IpfsMetadata(ToLower(m2))
            && |code + m1| >= 86 && |code + m2| >= 86
            ==> Comparing(s, t, u, keccak).matchType == Partial
  {
    hide StripMetadata, MatchOf, Spells, IpfsMetadata;
    SpelledNormal(s, code + m1 + args);
    SpelledNormal(t, code + m2);
    SpelledNormal(u, args);
    LowerConcat(code + m1, args);
    LowerConcat(code, m1);
    LowerConcat(code, m2);
    hide ToLower, Normal;
    var c, n1, n2, a := ToLower(code), ToLower(m1), ToLower(m2), ToLower(args);
    ArgsCutOff(c + n1, a);
    MatchOfSelf(c + n1);
    LowerLengths(code, m1, m2);
    if code != "" && n1 != n2 && IpfsMetadata(n1) && IpfsMetadata(n2)
       && |code + m1| >= 86 && |code + m2| >= 86 {
      SameCodeMatches(c, n1, n2);
    }
  }

  lemma LowerLengths(code: string, m1: string, m2: string)
    ensures |ToLower(code)| == |code| && |ToLower(m1)| == |m1| && |ToLower(m2)| == |m2|
  {
  }

  lemma MatchOfSelf(a: string)
    ensures MatchOf(a, a) == Exact
  {
  }

  /** Without constructor arguments, the comparison of inputs as passed in is symmetric and an equivalence as well. */
  lemma ComparingIsEquivalence(a: string, b: string, c: string, keccak: Hash)
    ensures Comparing(a, b, "", keccak).matchType == Comparing(b, a, "", keccak).matchType
    ensures Comparing(a, a, "", keccak).matchType == Exact
    ensures Comparing(a, b, "", keccak).matchType != NoMatch && Comparing(b, c, "", keccak).matchType != NoMatch
            ==> Comparing(a, c, "", keccak).matchType != NoMatch
  {
    assert Normal("") == "";
    hide Normal;
    MatchIsEquivalence(Normal(a), Normal(b), Normal(c));
  }
}
