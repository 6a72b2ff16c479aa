/** Decoding token metadata from untrusted return data (backend/internal/rpc/rpc.go). */
module AbiString {

  type Byte = n: nat | n < 256

  const TWO_63: nat := 0x8000_0000_0000_0000
  const TWO_64: nat := 0x1_0000_0000_0000_0000
  const TWO_256: nat := Pow256(32)

  /** 256 to the k. */
  function Pow256(k: nat): (p: nat)
    ensures p >= 1
  {
    if k == 0 then 1 else 256 * Pow256(k - 1)
  }

  /** big.Int.SetBytes. */
  function BigEndian(bytes: seq<Byte>): nat {
    if bytes == [] then 0 else 256 * BigEndian(bytes[..|bytes| - 1]) + bytes[|bytes| - 1]
  }

  /** big.Int.Uint64: the low 64 bits, whatever the size. */
  function Low64(n: nat): nat {
    n % TWO_64
  }

  function Add64(a: nat, b: nat): nat {
    (a + b) % TWO_64
  }

  function Sub64(a: nat, b: nat): nat {
    (a - b) % TWO_64
  }

  function BeforeNul(s: seq<Byte>): (r: seq<Byte>)
    ensures r <= s && 0 !in r
    ensures |r| < |s| ==> s[|r|] == 0
  {
    if s == [] || s[0] == 0 then [] else [s[0]] + BeforeNul(s[1..])
  }

  // ----- What is decoded, in unbounded arithmetic -----

  function Decoded(data: seq<Byte>): seq<Byte> {
    if |data| < 64 then BeforeNul(data)
    else
      var offset := Low64(BigEndian(data[..32]));
      if offset + 32 > |data| then []
      else
        var length := Low64(BigEndian(data[offset..offset + 32]));
        if offset + 32 + length > |data| then []
        else BeforeNul(data[offset + 32..offset + 32 + length])
  }

  // ----- The code, in 64-bit arithmetic -----

  lemma {:induction false} BeforeNulAt(s: seq<Byte>, i: nat)
    requires i <= |s| && 0 !in s[..i] && (i < |s| ==> s[i] == 0)
    ensures BeforeNul(s) == s[..i]
  {
    if i > 0 {
      assert s[0] == s[..i][0];
      assert forall b :: b in s[1..][..i - 1] ==> b in s[..i];
      BeforeNulAt(s[1..], i - 1);
    }
  }

  method CutAtNul(s: seq<Byte>) returns (r: seq<Byte>)
    ensures r == BeforeNul(s)
  {
    var i := 0;
    while i < |s|
      invariant i <= |s| && 0 !in s[..i]
    {
      if s[i] == 0 {
        BeforeNulAt(s, i);
        return s[..i];
      }
      i := i + 1;
    }
    BeforeNulAt(s, i);
    r := s;
    assert s[..i] == s;
  }

  /** Never slices out of range, and decodes as unbounded arithmetic would. Go's lengths fit an int. */
  method ParseStringResult(data: seq<Byte>) returns (result: seq<Byte>)
    requires |data| < TWO_63
    ensures result == Decoded(data)
  {
    hide BigEndian, BeforeNul;
    if |data| < 64 {
      result := CutAtNul(data);
      return;
    }
    var n := |data|;
    var offset := Low64(BigEndian(data[..32]));
    if offset > n || Sub64(n, offset) < 32 {
      return [];
    }
    assert Sub64(n, offset) == n - offset && Add64(offset, 32) == offset + 32;
    var length := Low64(BigEndian(data[offset..Add64(offset, 32)]));
    var dataStart := Add64(offset, 32);
    assert Sub64(n, dataStart) == n - dataStart;
    if length > Sub64(n, dataStart) {
      return [];
    }
    assert Add64(dataStart, length) == dataStart + length;
    result := CutAtNul(data[dataStart..Add64(dataStart, length)]);
  }

  /** Decimals above 255, or out of 64 bits, or in too little data, read as 18. */
  function ParseDecimals(data: seq<Byte>): (d: nat)
    ensures d <= 255
    ensures |data| >= 32 && BigEndian(data) <= 255 ==> d == BigEndian(data)
    ensures |data| < 32 || BigEndian(data) > 255 ==> d == 18
  {
    if |data| < 32 then 18
    else
      var n := BigEndian(data);
      if !(n < TWO_63) then 18
      else if n < 0 || n > 255 then 18
      else n
  }

  // ----- The encoding of the contract ABI specification -----

  /** The k low bytes of n, most significant first. */
  function BytesOf(n: nat, k: nat): (b: seq<Byte>)
    ensures |b| == k
  {
    if k == 0 then [] else BytesOf(n / 256, k - 1) + [n % 256]
  }

  function Word(n: nat): (w: seq<Byte>)
    ensures |w| == 32
  {
    BytesOf(n, 32)
  }

  function Zeros(k: nat): (z: seq<Byte>)
    ensures |z| == k && forall i :: 0 <= i < k ==> z[i] == 0
  {
    seq(k, _ => 0)
  }

  function Padding(length: nat): (padding: nat)
    ensures padding < 32 && (length + padding) % 32 == 0
  {
    (32 - length % 32) % 32
  }

  /** A single string as return data: its offset, its length, its bytes padded to whole words. */
  function Encode(s: seq<Byte>): seq<Byte> {
    Word(32) + Word(|s|) + s + Zeros(Padding(|s|))
  }

  /** Return data whose first word is offset, with a length word and text behind between. */
  function Layout(offset: nat, between: seq<Byte>, length: nat, s: seq<Byte>, tail: seq<Byte>): seq<Byte> {
    Word(offset) + between + Word(length) + s + tail
  }

  lemma {:induction false} BigEndianOf(n: nat, k: nat)
    ensures BigEndian(BytesOf(n, k)) == n % Pow256(k)
  {
    if k > 0 {
      BigEndianOf(n / 256, k - 1);
      var b := BytesOf(n, k);
      assert b[..|b| - 1] == BytesOf(n / 256, k - 1);
      ModSplit(n, Pow256(k - 1));
    }
  }

  lemma ModSplit(n: nat, m: nat)
    requires m >= 1
    ensures n % (256 * m) == 256 * ((n / 256) % m) + n % 256
  {
    var q, r := (n / 256) / m, (n / 256) % m;
    assert n / 256 == q * m + r;
    assert n == 256 * (q * m + r) + n % 256;
    assert n == q * (256 * m) + (256 * r + n % 256);
    Remainder(n, 256 * m, q, 256 * r + n % 256);
  }

  lemma Remainder(n: nat, m: nat, q: nat, r: nat)
    requires m >= 1 && n == q * m + r && r < m
    ensures n % m == r
  {
    var p := n / m;
    assert n == p * m + n % m;
    assert (q - p) * m == n % m - r;
    AtLeastOne(q - p, m);
    AtLeastOne(p - q, m);
    assert (p - q) * m == -((q - p) * m);
    assert q == p;
  }

  lemma AtLeastOne(k: int, m: nat)
    ensures k >= 1 ==> k * m >= m
  {
    if k >= 1 {
      assert k * m == (k - 1) * m + m && (k - 1) * m >= 0;
    }
  }

  lemma WordValue(n: nat)
    requires n < TWO_256
    ensures BigEndian(Word(n)) == n
  {
    hide BytesOf, BigEndian, Pow256;
    BigEndianOf(n, 32);
    SmallRemainder(n, Pow256(32));
  }

  lemma SmallRemainder(n: nat, m: nat)
    requires n < m
    ensures n % m == n
  {
  }

  lemma Sizes()
    ensures Pow256(8) == TWO_64 && TWO_64 < TWO_256 && Pow256(24) * TWO_64 == TWO_256
  {
    hide Pow256;
    PowOne();
    PowAdd(1, 1);
    PowAdd(2, 2);
    PowAdd(4, 4);
    PowAdd(8, 8);
    PowAdd(16, 8);
    PowAdd(24, 8);
  }

  lemma PowOne()
    ensures Pow256(1) == 256
  {
    assert Pow256(1) == 256 * Pow256(0);
  }

  lemma {:induction false} PowAdd(a: nat, b: nat)
    ensures Pow256(a + b) == Pow256(a) * Pow256(b)
  {
    if b > 0 {
      PowAdd(a, b - 1);
      assert 256 * (Pow256(a) * Pow256(b - 1)) == Pow256(a) * (256 * Pow256(b - 1));
    }
  }

  /**
   * Return data whose first word points at an encoded string anywhere behind it decodes to that string up to its first
   * NUL, whatever comes in between and after. Only the low 64 bits of the two words count.
   */
  lemma DecodesAt(offset: nat, between: seq<Byte>, length: nat, s: seq<Byte>, tail: seq<Byte>)
    requires offset < TWO_256 && length < TWO_256
    requires Low64(offset) == 32 + |between| && Low64(length) == |s|
    ensures Decoded(Layout(offset, between, length, s, tail)) == BeforeNul(s)
  {
    hide Word, BeforeNul, BigEndian, Pow256, Layout, Low64;
    LayoutParts(offset, between, length, s, tail);
    WordValue(offset);
    WordValue(length);
  }

  lemma LayoutParts(offset: nat, between: seq<Byte>, length: nat, s: seq<Byte>, tail: seq<Byte>)
    ensures var data, at := Layout(offset, between, length, s, tail), 32 + |between|;
            && |data| >= 64 && |data| >= at + 32 + |s| && data[..32] == Word(offset)
            && data[at..at + 32] == Word(length) && data[at + 32..at + 32 + |s|] == s
  {
    hide Word;
  }

  /** The round trip: an encoded string decodes to its part before the first NUL, hence to itself if it has none. */
  lemma RoundTrip(s: seq<Byte>, tail: seq<Byte>)
    requires |s| < TWO_63
    ensures Decoded(Encode(s) + tail) == BeforeNul(s)
    ensures Decoded(Encode(s) + tail) == s <==> 0 !in s
  {
    EncodedDecodes(s, tail);
    hide Decoded, Encode;
    NulFree(s);
  }

  lemma NulFree(s: seq<Byte>)
    ensures BeforeNul(s) == s <==> 0 !in s
  {
    if 0 !in s {
      BeforeNulAt(s, |s|);
      assert s[..|s|] == s;
    }
  }

  lemma EncodedDecodes(s: seq<Byte>, tail: seq<Byte>)
    requires |s| < TWO_63
    ensures Decoded(Encode(s) + tail) == BeforeNul(s)
  {
    hide Pow256, Decoded, Word, Zeros, Encode, BeforeNul, Padding, Layout, Low64;
    EncodingSplit(s, tail);
    SmallWord(32);
    SmallWord(|s|);
    DecodesAt(32, [], |s|, s, Zeros(Padding(|s|)) + tail);
  }

  lemma SmallWord(n: nat)
    requires n < TWO_63
    ensures n < TWO_256 && Low64(n) == n
  {
    hide Pow256;
    Sizes();
  }

  lemma EncodingSplit(s: seq<Byte>, tail: seq<Byte>)
    ensures Encode(s) + tail == Layout(32, [], |s|, s, Zeros(Padding(|s|)) + tail)
  {
    hide Word, Zeros, Padding;
    assert Word(32) + [] == Word(32);
  }

  /** A bytes32 result, padded with NULs on the right, decodes to its text. */
  lemma Bytes32Text(s: seq<Byte>)
    requires |s| <= 32 && 0 !in s
    ensures Decoded(s + Zeros(32 - |s|)) == s
  {
    var data := s + Zeros(32 - |s|);
    assert data[..|s|] == s;
    BeforeNulAt(data, |s|);
  }

  // ----- Which bytes count -----

  lemma {:induction false} BigEndianConcat(a: seq<Byte>, b: seq<Byte>)
    ensures BigEndian(a + b) == BigEndian(a) * Pow256(|b|) + BigEndian(b)
  {
    if b == [] {
      assert a + b == a;
    } else {
      var init, last := b[..|b| - 1], b[|b| - 1];
      assert (a + b)[..|a + b| - 1] == a + init;
      BigEndianConcat(a, init);
      hide BigEndian;
      assert 256 * (BigEndian(a) * Pow256(|init|)) == BigEndian(a) * (256 * Pow256(|init|));
    }
  }

  lemma {:induction false} BigEndianBound(a: seq<Byte>)
    ensures BigEndian(a) < Pow256(|a|)
  {
    if a != [] {
      BigEndianBound(a[..|a| - 1]);
    }
  }

  /** Of a word only the last eight bytes are read. */
  lemma LastEight(w: seq<Byte>)
    requires |w| == 32
    ensures Low64(BigEndian(w)) == BigEndian(w[24..])
  {
    hide BigEndian, Pow256;
    assert w == w[..24] + w[24..];
    BigEndianConcat(w[..24], w[24..]);
    BigEndianBound(w[24..]);
    Sizes();
    Remainder(BigEndian(w), TWO_64, BigEndian(w[..24]), BigEndian(w[24..]));
  }

  /** The first 24 bytes, the high bits of the offset, are ignored, not rejected, whatever the data. */
  lemma HighBitsIgnored(high: seq<Byte>, other: seq<Byte>, rest: seq<Byte>)
    requires |high| == 24 == |other| && |rest| >= 40
    ensures Decoded(high + rest) == Decoded(other + rest)
  {
    hide BigEndian, Low64, BeforeNul;
    OnlyRest(high, rest);
    OnlyRest(other, rest);
  }

  /** What is decoded, from the bytes after the first 24. */
  function DecodedFrom(rest: seq<Byte>): seq<Byte>
    requires |rest| >= 40
  {
    var offset := BigEndian(rest[..8]);
    if offset + 32 > |rest| + 24 then []
    else
      var length := BigEndian(rest[offset..offset + 8]);
      if offset + 32 + length > |rest| + 24 then []
      else BeforeNul(rest[offset + 8..offset + 8 + length])
  }

  lemma OnlyRest(high: seq<Byte>, rest: seq<Byte>)
    requires |high| == 24 && |rest| >= 40
    ensures Decoded(high + rest) == DecodedFrom(rest)
  {
    hide BigEndian, Low64, BeforeNul;
    var data := high + rest;
    LastEight(data[..32]);
    assert data[..32][24..] == rest[..8];
    var offset := BigEndian(rest[..8]);
    if offset + 32 <= |data| {
      LastEight(data[offset..offset + 32]);
      assert data[offset..offset + 32][24..] == rest[offset..offset + 8];
      var length := BigEndian(rest[offset..offset + 8]);
      if offset + 32 + length <= |data| {
        assert data[offset + 32..offset + 32 + length] == rest[offset + 8..offset + 8 + length];
      }
    }
  }

  /** Decimals survive their encoding exactly up to 255. */
  lemma DecimalsRoundTrip(d: nat)
    requires d < TWO_256
    ensures ParseDecimals(Word(d)) == d <==> d <= 255
  {
    WordValue(d);
  }
}
