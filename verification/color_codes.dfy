/** The colour code of a pixel: each channel is written as an 8-character
    zero-padded binary string, the first two characters of the red, green
    and blue strings are concatenated in that order, and the six-character
    result is read back as a base-2 integer. */
module ColorCodes {

  /** An 8-bit colour channel value. */
  type Channel = x: int | 0 <= x < 256

  datatype Pixel = Pixel(r: Channel, g: Channel, b: Channel)

  predicate IsBit(c: char) { c == '0' || c == '1' }

  predicate AllBits(s: string) { forall i :: 0 <= i < |s| ==> IsBit(s[i]) }

  function Pow2(n: nat): (p: nat)
    ensures p >= 1
  {
    if n == 0 then 1 else 2 * Pow2(n - 1)
  }

  function BitChar(v: nat): (c: char)
    requires v < 2
    ensures IsBit(c)
  {
    if v == 0 then '0' else '1'
  }

  /** Python's `format(v, 'b')`: binary digits without leading zeros. */
  function ToBinary(v: nat): (s: string)
    ensures 1 <= |s| && AllBits(s)
    decreases v
  {
    if v < 2 then [BitChar(v)] else ToBinary(v / 2) + [BitChar(v % 2)]
  }

  function Zeros(n: nat): (s: string)
    ensures |s| == n && forall i :: 0 <= i < n ==> s[i] == '0'
  {
    if n == 0 then [] else Zeros(n - 1) + ['0']
  }

  /** Python's `s.zfill(width)` on an unsigned string: '0's are added on
      the left until the string is `width` long; a longer one is kept. */
  function ZFill(s: string, width: nat): (r: string)
    ensures |r| == if |s| >= width then |s| else width
    ensures r[|r| - |s|..] == s
    ensures forall i :: 0 <= i < |r| - |s| ==> r[i] == '0'
  {
    if |s| >= width then s else Zeros(width - |s|) + s
  }

  /** Python's `int(s, 2)` on a string of binary digits. */
  function BinaryValue(s: string): nat
    requires AllBits(s)
  {
    if s == [] then 0 else 2 * BinaryValue(s[..|s| - 1]) + (if s[|s| - 1] == '1' then 1 else 0)
  }

  /** The 8-character binary string of a channel, as the tool builds it. */
  function Padded(v: Channel): (s: string)
    ensures |s| >= 8 && AllBits(s)
  {
    ZFill(ToBinary(v), 8)
  }

  /** The two leading characters of a channel's padded binary string. */
  function TopPair(v: Channel): (s: string)
    ensures |s| == 2 && AllBits(s)
  {
    AllBitsPrefix(Padded(v), 2);
    Padded(v)[..2]
  }

  /** The per-pixel colour-code expression: two leading characters of each
      channel's padded binary string, R then G then B, read in base 2. */
  function ColorCode(p: Pixel): nat
  {
    AllBitsAppend(TopPair(p.r), TopPair(p.g));
    AllBitsAppend(TopPair(p.r) + TopPair(p.g), TopPair(p.b));
    BinaryValue(TopPair(p.r) + TopPair(p.g) + TopPair(p.b))
  }

  lemma AllBitsAppend(a: string, b: string)
    requires AllBits(a) && AllBits(b)
    ensures AllBits(a + b)
  {
    forall i | 0 <= i < |a + b| ensures IsBit((a + b)[i]) {
      if i < |a| {
        assert (a + b)[i] == a[i];
      } else {
        assert (a + b)[i] == b[i - |a|];
      }
    }
  }

  lemma AllBitsPrefix(s: string, n: nat)
    requires AllBits(s) && n <= |s|
    ensures AllBits(s[..n])
  {
    forall i | 0 <= i < n ensures IsBit(s[..n][i]) {
      assert s[..n][i] == s[i];
    }
  }

  lemma AllBitsSuffix(s: string, n: nat)
    requires AllBits(s) && n <= |s|
    ensures AllBits(s[n..])
  {
    forall i | 0 <= i < |s| - n ensures IsBit(s[n..][i]) {
      assert s[n..][i] == s[n + i];
    }
  }

  /** Appending one binary digit doubles the value and adds the digit. */
  lemma BinaryValueSnoc(s: string, c: char)
    requires AllBits(s) && IsBit(c)
    ensures BinaryValue(s + [c]) == 2 * BinaryValue(s) + (if c == '1' then 1 else 0)
  {
    assert (s + [c])[..|s|] == s;
  }

  lemma ShiftStep(x: int, q: int, y: int, l: int)
    ensures 2 * (x * q + y) + l == x * (2 * q) + (2 * y + l)
  {
  }

  lemma {:induction false} BinaryValueAppend(a: string, b: string)
    requires AllBits(a) && AllBits(b)
    ensures BinaryValue(a + b) == BinaryValue(a) * Pow2(|b|) + BinaryValue(b)
  {
    if b == [] {
      assert a + b == a;
    } else {
      var b', c := b[..|b| - 1], b[|b| - 1];
      assert a + b == (a + b') + [c] && b == b' + [c];
      BinaryValueAppend(a, b');
      BinaryValueSnoc(a + b', c);
      BinaryValueSnoc(b', c);
      assert Pow2(|b|) == 2 * Pow2(|b'|);
      ShiftStep(BinaryValue(a), Pow2(|b'|), BinaryValue(b'), if c == '1' then 1 else 0);
    }
  }

  lemma {:induction false} BinaryValueBound(s: string)
    requires AllBits(s)
    ensures BinaryValue(s) < Pow2(|s|)
  {
    if s != [] {
      BinaryValueBound(s[..|s| - 1]);
    }
  }

  lemma {:induction false} BinaryValueOfZeros(n: nat)
    ensures BinaryValue(Zeros(n)) == 0
  {
    if n > 0 {
      assert Zeros(n)[..n - 1] == Zeros(n - 1);
      BinaryValueOfZeros(n - 1);
    }
  }

  /** `int(format(v, 'b'), 2) == v`. */
  lemma {:induction false} BinaryValueOfToBinary(v: nat)
    ensures BinaryValue(ToBinary(v)) == v
    decreases v
  {
    if v >= 2 {
      var s := ToBinary(v);
      assert s[..|s| - 1] == ToBinary(v / 2);
      BinaryValueOfToBinary(v / 2);
    }
  }

  /** A value below 2^k has at most k binary digits. */
  lemma {:induction false} ToBinaryLength(v: nat, k: nat)
    requires 1 <= k && v < Pow2(k)
    ensures |ToBinary(v)| <= k
    decreases k
  {
    if v >= 2 {
      ToBinaryLength(v / 2, k - 1);
    }
  }

  /** Zero-padding to width 8 keeps the value of a binary string. */
  lemma ZFillKeepsValue(s: string)
    requires AllBits(s) && |s| <= 8
    ensures |ZFill(s, 8)| == 8 && AllBits(ZFill(s, 8))
    ensures BinaryValue(ZFill(s, 8)) == BinaryValue(s)
  {
    var z := Zeros(8 - |s|);
    assert AllBits(z);
    AllBitsAppend(z, s);
    if |s| < 8 {
      assert ZFill(s, 8) == z + s;
    } else {
      assert z + s == s;
    }
    BinaryValueAppend(z, s);
    BinaryValueOfZeros(8 - |s|);
  }

  /** The padded string of a channel is exactly 8 characters and still
      denotes the channel's value. */
  lemma PaddedChannel(v: Channel)
    ensures |Padded(v)| == 8
    ensures BinaryValue(Padded(v)) == v
  {
    assert Pow2(8) == 256;
    ToBinaryLength(v, 8);
    BinaryValueOfToBinary(v);
    ZFillKeepsValue(ToBinary(v));
  }

  /** The first two characters of a channel's padded string denote its top
      two bits, `v div 64`. */
  lemma TopTwoBits(v: Channel)
    ensures BinaryValue(TopPair(v)) == v / 64
  {
    PaddedChannel(v);
    var p := Padded(v);
    AllBitsPrefix(p, 2);
    AllBitsSuffix(p, 2);
    assert p == p[..2] + p[2..];
    BinaryValueAppend(p[..2], p[2..]);
    BinaryValueBound(p[2..]);
    assert Pow2(6) == 64;
  }

  /** Three two-digit binary strings read together in base 2. */
  lemma BinaryValueOfThreePairs(r: string, g: string, b: string)
    requires AllBits(r) && AllBits(g) && AllBits(b)
    requires |r| == 2 && |g| == 2 && |b| == 2
    ensures BinaryValue(r + g + b) == BinaryValue(r) * 16 + BinaryValue(g) * 4 + BinaryValue(b)
  {
    assert Pow2(2) == 4;
    BinaryValueAppend(r, g);
    AllBitsAppend(r, g);
    BinaryValueAppend(r + g, b);
  }

  lemma TopBitsBound(hr: int, hg: int, hb: int)
    requires 0 <= hr < 4 && 0 <= hg < 4 && 0 <= hb < 4
    ensures hr * 16 + hg * 4 + hb < 64
  {
  }

  /** The string-built colour code equals `(r div 64)*16 + (g div 64)*4 +
      b div 64`, and so always lies in 0..63. */
  lemma ColorCodeFormula(p: Pixel)
    ensures ColorCode(p) == (p.r / 64) * 16 + (p.g / 64) * 4 + p.b / 64
    ensures ColorCode(p) < 64
  {
    TopTwoBits(p.r);
    TopTwoBits(p.g);
    TopTwoBits(p.b);
    BinaryValueOfThreePairs(TopPair(p.r), TopPair(p.g), TopPair(p.b));
    TopBitsBound(p.r / 64, p.g / 64, p.b / 64);
  }

  /** A code packed from three values below 4 gives them back. */
  lemma UnpackTopBits(c: int, hr: int, hg: int, hb: int)
    requires 0 <= hr < 4 && 0 <= hg < 4 && 0 <= hb < 4
    requires c == hr * 16 + hg * 4 + hb
    ensures c / 16 == hr
    ensures (c / 4) % 4 == hg
    ensures c % 4 == hb
  {
    assert c == hr * 16 + (hg * 4 + hb);
    assert c / 4 == hr * 4 + hg;
  }

  /** Packing three values below 4 into one is injective. */
  lemma PackInjective(hr: int, hg: int, hb: int, hr': int, hg': int, hb': int)
    requires 0 <= hr < 4 && 0 <= hg < 4 && 0 <= hb < 4
    requires 0 <= hr' < 4 && 0 <= hg' < 4 && 0 <= hb' < 4
    ensures hr * 16 + hg * 4 + hb == hr' * 16 + hg' * 4 + hb' <==> hr == hr' && hg == hg' && hb == hb'
  {
    UnpackTopBits(hr * 16 + hg * 4 + hb, hr, hg, hb);
    UnpackTopBits(hr' * 16 + hg' * 4 + hb', hr', hg', hb');
  }

  /** The code is a faithful packing: it gives back the top two bits of
      each channel. */
  lemma ColorCodeUnpacks(p: Pixel)
    ensures ColorCode(p) / 16 == p.r / 64
    ensures (ColorCode(p) / 4) % 4 == p.g / 64
    ensures ColorCode(p) % 4 == p.b / 64
  {
    var c := ColorCode(p);
    ColorCodeFormula(p);
    TopBitsRange(p);
    UnpackTopBits(c, p.r / 64, p.g / 64, p.b / 64);
  }

  /** Two pixels share a code exactly when their channels agree on their
      top two bits. */
  lemma ColorCodeInjective(p: Pixel, q: Pixel)
    ensures ColorCode(p) == ColorCode(q) <==>
              p.r / 64 == q.r / 64 && p.g / 64 == q.g / 64 && p.b / 64 == q.b / 64
  {
    ColorCodeFormula(p);
    ColorCodeFormula(q);
    TopBitsRange(p);
    TopBitsRange(q);
    PackInjective(p.r / 64, p.g / 64, p.b / 64, q.r / 64, q.g / 64, q.b / 64);
  }

  lemma TopBitsRange(p: Pixel)
    ensures 0 <= p.r / 64 < 4 && 0 <= p.g / 64 < 4 && 0 <= p.b / 64 < 4
  {
  }
}
