/**
  Number-to-text conversions used by the time tracker: `Number.prototype.toString`
  in base 10 and base 16 for integers, `String.prototype.padStart`, and the
  inverse readers needed to state round trips.
 */
module Text {

  import opened Common

  const DigitAlphabet: string := "0123456789abcdef"

  /** The lower-case digit character for a value below 16. */
  function DigitChar(d: int): char
    requires 0 <= d < 16
  {
    DigitAlphabet[d]
  }

  /** The value of a lower-case digit character, or 16 for any other character. */
  function DigitValue(c: char): (v: int)
    ensures 0 <= v <= 16
    ensures v < 16 ==> DigitChar(v) == c
  {
    if '0' <= c <= '9' then c as int - '0' as int
    else if 'a' <= c <= 'f' then c as int - 'a' as int + 10
    else 16
  }

  lemma DigitValueOfChar(d: int)
    requires 0 <= d < 16
    ensures DigitValue(DigitChar(d)) == d
  {
  }

  /** Euclidean division facts for a base at least 2 and a number at least the base. */
  lemma DivideByBase(n: nat, base: int)
    requires 2 <= base <= 16
    requires n >= base
    ensures 1 <= n / base < n
    ensures n == (n / base) * base + n % base
    ensures 0 <= n % base < base
  {
  }

  /** Only the zero value is written as the digit '0'. */
  lemma NonZeroDigit(d: int)
    requires 1 <= d < 16
    ensures DigitChar(d) != '0'
  {
    DigitValueOfChar(d);
  }

  predicate AllDigits(s: string, base: int)
  {
    forall i :: 0 <= i < |s| ==> DigitValue(s[i]) < base
  }

  /**
    `n.toString(base)` for a non-negative integer: the shortest digit string,
    most significant digit first, "0" for zero.
   */
  function Digits(n: nat, base: int): (r: string)
    requires 2 <= base <= 16
    ensures |r| >= 1
    ensures AllDigits(r, base)
    ensures |r| > 1 ==> r[0] != '0'
    ensures |r| == 1 <==> n < base
    decreases n
  {
    if n < base then [DigitChar(n)]
    else
      DivideByBase(n, base);
      var prefix := Digits(n / base, base);
      DigitValueOfChar(n % base);
      if n / base < base then NonZeroDigit(n / base); prefix + [DigitChar(n % base)]
      else prefix + [DigitChar(n % base)]
  }

  /** Reads a digit string back, most significant digit first. */
  function ReadDigits(s: string, base: int): nat
    requires 2 <= base <= 16
    requires AllDigits(s, base)
  {
    if s == [] then 0
    else ReadDigits(s[..|s| - 1], base) * base + DigitValue(s[|s| - 1])
  }

  /** Reading back what Digits wrote recovers the number. */
  lemma {:induction false} ReadDigitsOfDigits(n: nat, base: int)
    requires 2 <= base <= 16
    ensures ReadDigits(Digits(n, base), base) == n
    decreases n
  {
    var r := Digits(n, base);
    if n < base {
      DigitValueOfChar(n);
    } else {
      DivideByBase(n, base);
      var prefix := Digits(n / base, base);
      assert r[..|r| - 1] == prefix;
      DigitValueOfChar(n % base);
      ReadDigitsOfDigits(n / base, base);
    }
  }

  /** Two numbers with the same digit string are equal. */
  lemma DigitsInjective(m: nat, n: nat, base: int)
    requires 2 <= base <= 16
    requires Digits(m, base) == Digits(n, base)
    ensures m == n
  {
    ReadDigitsOfDigits(m, base);
    ReadDigitsOfDigits(n, base);
  }

  /** A leading zero does not change the value read. */
  lemma {:induction false} ReadDigitsLeadingZero(s: string, base: int)
    requires 2 <= base <= 16
    requires AllDigits(s, base)
    ensures AllDigits("0" + s, base)
    ensures ReadDigits("0" + s, base) == ReadDigits(s, base)
    decreases |s|
  {
    if s != [] {
      assert ("0" + s)[..|"0" + s| - 1] == "0" + s[..|s| - 1];
      ReadDigitsLeadingZero(s[..|s| - 1], base);
    }
  }

  /** A number has at most two decimal digits exactly when it is below 100. */
  lemma DecimalAtMostTwo(n: nat)
    ensures |Digits(n, 10)| <= 2 <==> n < 100
  {
    if n >= 10 {
      DivideByBase(n, 10);
      assert |Digits(n, 10)| == |Digits(n / 10, 10)| + 1;
    }
  }

  /** JavaScript `toString()` of an integer in base 10, with a minus sign when negative. */
  function IntToString(i: int): (r: string)
    ensures |r| >= 1
    ensures i >= 0 ==> r == Digits(i, 10)
    ensures i < 0 ==> r[0] == '-' && r[1..] == Digits(-i, 10)
  {
    if i < 0 then "-" + Digits(-i, 10) else Digits(i, 10)
  }

  function Repeat(c: char, n: nat): (r: string)
    ensures |r| == n
    ensures forall i :: 0 <= i < n ==> r[i] == c
  {
    if n == 0 then [] else [c] + Repeat(c, n - 1)
  }

  /** `s.padStart(width, c)`: left-pads with c up to the width, never truncates. */
  function PadStart(s: string, width: nat, c: char): (r: string)
    ensures |r| == Max(|s|, width)
    ensures r[|r| - |s|..] == s
    ensures forall i :: 0 <= i < |r| - |s| ==> r[i] == c
  {
    if |s| >= width then s else Repeat(c, width - |s|) + s
  }

  /** A character outside the Basic Multilingual Plane, which UTF-16 writes as a surrogate pair. */
  predicate Supplementary(c: char)
  {
    c as int > 0xFFFF
  }

  /**
    JavaScript's `s.length`: the number of UTF-16 code units, one per
    character and two for a supplementary one.
   */
  function Utf16Length(s: string): (n: nat)
    ensures |s| <= n <= 2 * |s|
    ensures n == |s| <==> forall i :: 0 <= i < |s| ==> !Supplementary(s[i])
  {
    if s == [] then 0
    else
      var init := s[..|s| - 1];
      assert forall i :: 0 <= i < |init| ==> init[i] == s[i];
      Utf16Length(init) + (if Supplementary(s[|s| - 1]) then 2 else 1)
  }
}
