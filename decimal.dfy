/** Decimal text of integers as `std::ostream << int` writes it, and the
    zero fill `std::setw(w) << std::setfill('0')` puts in front of it. */
module Decimal {

  predicate IsDigit(c: char) { '0' <= c <= '9' }

  predicate AllDigits(s: string) { forall k :: 0 <= k < |s| ==> IsDigit(s[k]) }

  predicate AllZeros(s: string) { forall k :: 0 <= k < |s| ==> s[k] == '0' }

  function DigitChar(d: nat): (c: char)
    requires d < 10
    ensures IsDigit(c)
    ensures c as int - '0' as int == d
  {
    ('0' as int + d) as char
  }

  function DigitValue(c: char): nat
    requires IsDigit(c)
  {
    c as int - '0' as int
  }

  /** The shortest decimal text of a natural number: no leading zero except for 0 itself. */
  function Digits(n: nat): (s: string)
    ensures |s| >= 1
    ensures AllDigits(s)
    ensures |s| > 1 ==> s[0] != '0'
    decreases n
  {
    if n < 10 then [DigitChar(n)] else Digits(n / 10) + [DigitChar(n % 10)]
  }

  /** The value of a digit string read most-significant first; the empty string reads as 0. */
  function Value(s: string): nat
    requires AllDigits(s)
  {
    if s == [] then 0 else Value(s[..|s| - 1]) * 10 + DigitValue(s[|s| - 1])
  }

  /** The text the stream writes for an integer: a '-' before the digits of a negative one. */
  function Signed(n: int): (s: string)
    ensures n >= 0 ==> AllDigits(s)
    ensures n < 0 <==> '-' in s
    ensures n < 0 ==> s[0] == '-' && AllDigits(s[1..])
  {
    if n < 0 then ['-'] + Digits(-n) else Digits(n)
  }

  /** `std::setw(width)` with fill `fill` and the default right adjustment: the fill
      goes in front until the text is `width` long; a shorter width changes nothing. */
  function PadLeft(s: string, width: int, fill: char): (r: string)
    ensures |r| == if width > |s| then width else |s|
    ensures r[|r| - |s|..] == s
    ensures forall k :: 0 <= k < |r| - |s| ==> r[k] == fill
  {
    if width > |s| then seq(width - |s|, _ => fill) + s else s
  }

  /** Reading back the decimal text of `n` gives `n`. */
  lemma {:induction false} ValueDigits(n: nat)
    ensures Value(Digits(n)) == n
    decreases n
  {
    var s := Digits(n);
    if n >= 10 {
      ValueDigits(n / 10);
      assert s[..|s| - 1] == Digits(n / 10);
    }
  }

  /** Leading zeros do not change the value of a digit string. */
  lemma {:induction false} ValueLeadingZeros(z: string, s: string)
    requires AllZeros(z) && AllDigits(s)
    ensures AllDigits(z + s)
    ensures Value(z + s) == Value(s)
    decreases |s|
  {
    if s == [] {
      assert z + s == z;
      ZerosValue(z);
    } else {
      var t := s[..|s| - 1];
      assert (z + s)[..|z + s| - 1] == z + t;
      ValueLeadingZeros(z, t);
    }
  }

  lemma {:induction false} ZerosValue(z: string)
    requires AllZeros(z)
    ensures AllDigits(z)
    ensures Value(z) == 0
    decreases |z|
  {
    if z != [] {
      ZerosValue(z[..|z| - 1]);
    }
  }

  /** The zero-filled decimal text of a number, as the output counter is written. */
  function Padded(n: int, width: int): (s: string)
  {
    PadLeft(Signed(n), width, '0')
  }

  /** A zero-filled natural number reads back as itself, whatever the width. */
  lemma PaddedValue(n: nat, width: int)
    ensures AllDigits(Padded(n, width))
    ensures Value(Padded(n, width)) == n
  {
    var z := PaddedParts(n, width);
    var d := Digits(n);
    ValueLeadingZeros(z, d);
    ValueDigits(n);
  }

  /** Different numbers never share a zero-filled text of the same width. */
  lemma PaddedInjective(n: int, m: int, width: int)
    requires Padded(n, width) == Padded(m, width)
    ensures n == m
  {
    if n >= 0 && m >= 0 {
      PaddedValue(n, width);
      PaddedValue(m, width);
    } else if n < 0 && m < 0 {
      PaddedNegative(n, m, width);
      NegativeDigitsInjective(n, m);
    } else if n < 0 {
      MinusNotDigit(Padded(n, width), Signed(n));
    } else {
      MinusNotDigit(Padded(m, width), Signed(m));
    }
  }

  /** Different natural numbers have different decimal texts. */
  lemma DigitsInjective(n: nat, m: nat)
    requires Digits(n) == Digits(m)
    ensures n == m
  {
    ValueDigits(n);
    ValueDigits(m);
  }

  /** Different negative numbers have different digits after the sign. */
  lemma NegativeDigitsInjective(n: int, m: int)
    requires n < 0 && m < 0
    requires Digits(-n) == Digits(-m)
    ensures n == m
  {
    DigitsInjective(-n, -m);
  }

  /** Two negative numbers with the same padded text have the same digits: the
      text's only '-' sits right before them. */
  lemma PaddedNegative(n: int, m: int, width: int)
    requires n < 0 && m < 0
    requires Padded(n, width) == Padded(m, width)
    ensures Digits(-n) == Digits(-m)
  {
    var z1 := PaddedParts(n, width);
    var z2 := PaddedParts(m, width);
    assert z1 + ['-'] + Digits(-n) == z2 + ['-'] + Digits(-m);
    SignAfterZeros(z1, Digits(-n), z2, Digits(-m));
  }

  /** A padded text is zeros followed by the number's own text. */
  lemma PaddedParts(n: int, width: int) returns (z: string)
    ensures AllZeros(z) && Padded(n, width) == z + Signed(n)
  {
    var s := Padded(n, width);
    z := s[..|s| - |Signed(n)|];
    assert s == z + Signed(n);
  }

  /** Zeros, a '-' and digits: the '-' splits such a text in only one way. */
  lemma SignAfterZeros(z1: string, d1: string, z2: string, d2: string)
    requires AllZeros(z1) && AllZeros(z2) && AllDigits(d1) && AllDigits(d2)
    requires z1 + ['-'] + d1 == z2 + ['-'] + d2
    ensures d1 == d2
  {
    var s := z1 + ['-'] + d1;
    assert s[|z1|] == '-';
    assert s[|z2|] == '-';
    assert |z1| == |z2|;
    assert d1 == s[|z1| + 1..];
    assert d2 == (z2 + ['-'] + d2)[|z2| + 1..];
  }

  /** A padded negative number holds a '-', which a padded natural one cannot. */
  lemma MinusNotDigit(s: string, t: string)
    requires |t| <= |s| && s[|s| - |t|..] == t && '-' in t
    ensures !AllDigits(s)
  {
    var k :| 0 <= k < |t| && t[k] == '-';
    assert s[|s| - |t| + k] == '-';
  }
}
