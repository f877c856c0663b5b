/** The image path convention `images/{n}.jpg`: how a path is built from an
    image number and how the number is read back by slicing the path at
    positions chosen by the path's total length. */
module ImagePaths {
  import opened Common

  const Prefix: string := "images/"
  const Suffix: string := ".jpg"

  predicate IsDigit(c: char) { '0' <= c <= '9' }

  predicate AllDigits(s: string) { forall i :: 0 <= i < |s| ==> IsDigit(s[i]) }

  function DigitChar(d: nat): (c: char)
    requires d < 10
    ensures IsDigit(c)
  {
    ('0' as int + d) as char
  }

  function DigitValue(c: char): nat
    requires IsDigit(c)
  {
    c as int - '0' as int
  }

  /** Python's `str(n)` for a non-negative integer: its decimal digits,
      most significant first, without leading zeros. */
  function DecimalString(n: nat): (s: string)
    ensures 1 <= |s| && AllDigits(s)
    ensures n < 10 <==> |s| == 1
    ensures 10 <= n < 100 <==> |s| == 2
    ensures 100 <= n < 1000 <==> |s| == 3
    ensures n >= 1000 <==> |s| >= 4
    decreases n
  {
    if n < 10 then [DigitChar(n)] else DecimalString(n / 10) + [DigitChar(n % 10)]
  }

  /** The value of a string of decimal digits (leading zeros allowed). */
  function DigitsValue(s: string): nat
    requires AllDigits(s)
  {
    if s == [] then 0 else DigitsValue(s[..|s| - 1]) * 10 + DigitValue(s[|s| - 1])
  }

  /** Python's `int(s)` on an optional sign followed by decimal digits;
      anything else raises ValueError. */
  function ParseInt(s: string): (r: Result<int>)
    ensures r.Ok? <==> (|s| >= 1 && AllDigits(s)) ||
                       (|s| >= 2 && (s[0] == '-' || s[0] == '+') && AllDigits(s[1..]))
    ensures |s| >= 1 && AllDigits(s) ==> r == Ok(DigitsValue(s))
    ensures |s| >= 2 && s[0] == '-' && AllDigits(s[1..]) ==> r == Ok(0 - DigitsValue(s[1..]) as int)
    ensures |s| >= 2 && s[0] == '+' && AllDigits(s[1..]) ==> r == Ok(DigitsValue(s[1..]))
    ensures r.Err? ==> r.error == ValueError
  {
    if |s| >= 1 && AllDigits(s) then Ok(DigitsValue(s))
    else if |s| >= 2 && s[0] == '-' && AllDigits(s[1..]) then Ok(0 - DigitsValue(s[1..]) as int)
    else if |s| >= 2 && s[0] == '+' && AllDigits(s[1..]) then Ok(DigitsValue(s[1..]))
    else Err(ValueError)
  }

  /** Python's `s[i:j]` for non-negative bounds: both ends are clamped to
      the length, and an inverted range is empty. */
  function Slice(s: string, i: nat, j: nat): (r: string)
    ensures j <= |s| && i <= j ==> r == s[i..j]
    ensures |r| <= |s|
  {
    var lo := if i < |s| then i else |s|;
    var hi := if j < |s| then j else |s|;
    if lo <= hi then s[lo..hi] else []
  }

  /** `get_img_num`: the digit slice is chosen by the path's total length. */
  function GetImgNum(path: string): Result<int>
  {
    if |path| == 12 then ParseInt(Slice(path, 7, 8))
    else if |path| == 13 then ParseInt(Slice(path, 7, 9))
    else ParseInt(Slice(path, 7, 10))
  }

  /** `get_image_path`, and the path built for every ranked image. */
  function ImagePath(n: nat): string
  {
    Prefix + DecimalString(n) + Suffix
  }

  lemma {:induction false} DigitsOfDecimalString(n: nat)
    ensures DigitsValue(DecimalString(n)) == n
    decreases n
  {
    if n >= 10 {
      var s := DecimalString(n);
      assert s[..|s| - 1] == DecimalString(n / 10);
      DigitsOfDecimalString(n / 10);
    }
  }

  /** A path of the form `images/{d}.jpg` with one to three digits yields the
      value of those digits, leading zeros included. */
  lemma GetImgNumShortDigits(d: string)
    requires AllDigits(d) && 1 <= |d| <= 3
    ensures GetImgNum(Prefix + d + Suffix) == Ok(DigitsValue(d))
  {
    var p := Prefix + d + Suffix;
    assert p[7..7 + |d|] == d;
  }

  /** With four or more digits only the first three are read. */
  lemma GetImgNumLongDigits(d: string)
    requires AllDigits(d) && |d| >= 4
    ensures GetImgNum(Prefix + d + Suffix) == Ok(DigitsValue(d[..3]))
  {
    var p := Prefix + d + Suffix;
    assert p[7..10] == d[..3];
  }

  /** `get_img_num` inverts `get_image_path` for every number below 1000
      (the collection uses 1..100). */
  lemma GetImgNumInvertsImagePath(n: nat)
    requires n < 1000
    ensures GetImgNum(ImagePath(n)) == Ok(n)
  {
    DigitsOfDecimalString(n);
    GetImgNumShortDigits(DecimalString(n));
  }

  /** Distinct image numbers below 1000 have distinct paths. */
  lemma ImagePathInjective(m: nat, n: nat)
    requires m < 1000 && n < 1000
    ensures ImagePath(m) == ImagePath(n) <==> m == n
  {
    if ImagePath(m) == ImagePath(n) {
      GetImgNumInvertsImagePath(m);
      GetImgNumInvertsImagePath(n);
    }
  }

  /** The round trip stops at 1000: image 1000's path reads back as 100. */
  lemma GetImgNumTruncatesAtFourDigits()
    ensures GetImgNum(ImagePath(1000)) == Ok(100)
  {
    DigitsOfDecimalString(1000);
    var d := DecimalString(1000);
    GetImgNumLongDigits(d);
    assert d == "1000";
    assert d[..3] == "100";
  }
}
