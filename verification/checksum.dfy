/**
  The sync engine's integrity checksum: a rolling 32-bit string hash over the
  UTF-16 code units of a serialised snapshot, printed as the hexadecimal of
  its absolute value. The serialisation itself is not modelled; the hash
  works on the code units it would produce.
 */
module Checksum {

  import opened Common
  import opened Text

  /** A UTF-16 code unit, as `charCodeAt` returns it. */
  type CodeUnit = c: int | 0 <= c < 0x1_0000

  /**
    One step of the loop: `hash << 5` truncates to 32 bits and shifts,
    `- hash + char` is exact in double precision, and `hash & hash`
    truncates to 32 bits again.
   */
  function HashStep(h: int, c: CodeUnit): (r: int)
    ensures -Two31 <= r < Two31
  {
    ToInt32(ToInt32(h * 32) - h + c)
  }

  /** The hash after consuming every code unit, from the left, starting at 0. */
  function Hash(s: seq<CodeUnit>): (h: int)
    ensures -Two31 <= h < Two31
  {
    if s == [] then 0 else HashStep(Hash(s[..|s| - 1]), s[|s| - 1])
  }

  /** The same hash in plain arithmetic: the code units as digits in base 31. */
  function Polynomial(s: seq<CodeUnit>): int
  {
    if s == [] then 0 else 31 * Polynomial(s[..|s| - 1]) + s[|s| - 1]
  }

  /** The shift-and-subtract step is multiplication by 31 modulo 2^32. */
  lemma HashStepIsTimes31(h: int, c: CodeUnit)
    ensures HashStep(h, c) == ToInt32(31 * h + c)
  {
    ToInt32Absorbs(h * 32, c - h);
  }

  /** Multiplying by 31 and adding respects congruence modulo 2^32. */
  lemma ScaleCongruent(a: int, b: int, c: int)
    requires (a - b) % Two32 == 0
    ensures ToInt32(31 * a + c) == ToInt32(31 * b + c)
  {
    var k := (a - b) / Two32;
    assert a - b == k * Two32;
    assert (31 * a + c) - (31 * b + c) == (31 * k) * Two32;
    ToInt32Congruent(31 * a + c, 31 * b + c);
  }

  /** The loop computes the base-31 polynomial, reduced to a signed 32-bit value. */
  lemma {:induction false} HashIsPolynomial(s: seq<CodeUnit>)
    ensures Hash(s) == ToInt32(Polynomial(s))
  {
    if s == [] {
      ToInt32Identity(0);
    } else {
      var init := s[..|s| - 1];
      var c := s[|s| - 1];
      calc {
        Hash(s);
        HashStep(Hash(init), c);
        { HashStepIsTimes31(Hash(init), c); }
        ToInt32(31 * Hash(init) + c);
        { HashIsPolynomial(init); ScaleOfTruncated(Polynomial(init), c); }
        ToInt32(31 * Polynomial(init) + c);
      }
    }
  }

  /** Truncating before the multiply-and-add step does not change the truncated result. */
  lemma ScaleOfTruncated(p: int, c: int)
    ensures ToInt32(31 * ToInt32(p) + c) == ToInt32(31 * p + c)
  {
    var t := ToInt32(p);
    var q := (p - t) / Two32;
    assert p - t == q * Two32;
    assert (t - p) % Two32 == 0 by {
      assert t - p == (-q) * Two32;
    }
    ScaleCongruent(t, p, c);
  }

  /** Hashing a concatenation continues from the hash of the first part. */
  lemma {:induction false} HashConcat(a: seq<CodeUnit>, b: seq<CodeUnit>)
    ensures Hash(a + b) == HashFrom(Hash(a), b)
    decreases |b|
  {
    if b == [] {
      assert a + b == a;
    } else {
      assert (a + b)[..|a + b| - 1] == a + b[..|b| - 1];
      HashConcat(a, b[..|b| - 1]);
    }
  }

  /** The loop's state after consuming b, starting from hash h. */
  function HashFrom(h: int, b: seq<CodeUnit>): int
  {
    if b == [] then h else HashStep(HashFrom(h, b[..|b| - 1]), b[|b| - 1])
  }

  /** The loop as written, with the hash as its only state. */
  method ComputeHash(s: seq<CodeUnit>) returns (hash: int)
    ensures hash == Hash(s)
    ensures hash == ToInt32(Polynomial(s))
  {
    hash := 0;
    var i := 0;
    while i < |s|
      invariant 0 <= i <= |s|
      invariant hash == Hash(s[..i])
    {
      assert s[..i + 1][..i] == s[..i];
      hash := HashStep(hash, s[i]);
      i := i + 1;
    }
    assert s[..|s|] == s;
    HashIsPolynomial(s);
  }

  function Abs(x: int): nat
  {
    if x < 0 then -x else x
  }

  function Pow16(k: nat): nat
  {
    if k == 0 then 1 else 16 * Pow16(k - 1)
  }

  /** A number below 16^k has at most k hexadecimal digits. */
  lemma {:induction false} HexDigitsBound(n: nat, k: nat)
    requires k >= 1
    requires n < Pow16(k)
    ensures |Digits(n, 16)| <= k
  {
    if n >= 16 {
      DivideByBase(n, 16);
      assert Pow16(1) == 16;
      assert n / 16 < Pow16(k - 1);
      HexDigitsBound(n / 16, k - 1);
    }
  }

  /** `generateChecksum`: the hex digits of the absolute value of the hash. */
  function ChecksumOf(s: seq<CodeUnit>): (r: string)
    ensures 1 <= |r| <= 8
    ensures AllDigits(r, 16)
    ensures |r| == 1 || r[0] != '0'
    ensures ReadDigits(r, 16) == Abs(Hash(s))
  {
    var n := Abs(Hash(s));
    assert Pow16(8) == 0x1_0000_0000;
    HexDigitsBound(n, 8);
    ReadDigitsOfDigits(n, 16);
    Digits(n, 16)
  }

  /** The checksum is never the empty string and never carries a sign. */
  lemma ChecksumNeverEmpty(s: seq<CodeUnit>)
    ensures ChecksumOf(s) != ""
    ensures forall i :: 0 <= i < |ChecksumOf(s)| ==> ChecksumOf(s)[i] != '-'
  {
    var r := ChecksumOf(s);
    forall i | 0 <= i < |r| ensures r[i] != '-' {
      assert DigitValue(r[i]) < 16;
    }
  }

  /** Equal checksums mean equal hashes up to sign. */
  lemma ChecksumDeterminesMagnitude(s: seq<CodeUnit>, t: seq<CodeUnit>)
    requires ChecksumOf(s) == ChecksumOf(t)
    ensures Abs(Hash(s)) == Abs(Hash(t))
  {
  }

  /** The empty text hashes to 0, printed as "0". */
  lemma ChecksumOfEmpty()
    ensures ChecksumOf([]) == "0"
  {
  }
}
