/**
 * The few pieces of java.lang the watch face relies on: the 32-bit `int`,
 * the truncating remainder operator `%`, and the two number-to-text
 * conversions `Integer.toString` (also used by string concatenation) and
 * `Integer.toBinaryString`. Numbers are rendered through one place-value
 * function, `DigitString`, and read back through its partner `DigitsValue`.
 */
module JavaLang {

  const IntMin: int := -0x8000_0000
  const IntMax: int := 0x7fff_ffff
  const TwoTo32: int := 0x1_0000_0000

  /** The values a Java `int` can hold. */
  predicate IsInt32(x: int) {
    IntMin <= x <= IntMax
  }

  /** Java's `a % b` for a positive divisor: the remainder truncates toward
      zero, so it carries the sign of `a` (Dafny's `%` never goes negative). */
  function Rem(a: int, b: int): (r: int)
    requires b > 0
    ensures a >= 0 ==> r == a % b
    ensures a < 0 ==> -b < r <= 0
    ensures (a - r) % b == 0
  {
    if a >= 0 then
      var r := a % b;
      RemCongruent(a, b, a / b, r);
      r
    else
      var r := -((-a) % b);
      RemCongruent(a, b, -((-a) / b), r);
      r
  }

  /** A remainder that differs from `a` by q times `b` is congruent to `a`. */
  lemma RemCongruent(a: int, b: int, q: int, r: int)
    requires b > 0 && a - r == q * b
    ensures (a - r) % b == 0
  {
    MultipleMod(q, b);
  }

  /** A multiple of `b` leaves no remainder. */
  lemma MultipleMod(k: int, b: int)
    requires b > 0
    ensures (k * b) % b == 0
  {
    var r, d := (k * b) % b, (k * b) / b;
    var e := k - d;
    assert e * b == k * b - d * b;
    assert e * b == r;
    if e >= 1 {
      assert e * b == b + (e - 1) * b;
      NonNegProduct(e - 1, b);
    } else if e <= -1 {
      assert e * b == -b - (-e - 1) * b;
      NonNegProduct(-e - 1, b);
    }
  }

  lemma MulMono(x: int, y: int, c: int)
    requires x <= y && c >= 0
    ensures x * c <= y * c
  {
    NonNegProduct(y - x, c);
    assert y * c - x * c == (y - x) * c;
  }

  lemma NonNegProduct(x: int, y: int)
    requires x >= 0 && y >= 0
    ensures x * y >= 0
  {
  }

  /** The character of a single digit value. */
  function DigitChar(d: nat): (c: char)
    requires d < 10
    ensures '0' <= c <= '9'
    ensures c as int - '0' as int == d
  {
    ('0' as int + d) as char
  }

  /** The digit value of a character (meaningful for '0'..'9'). */
  function DigitOf(c: char): int {
    c as int - '0' as int
  }

  /** Every character of `s` is a digit of base `base`. */
  predicate AllDigits(s: string, base: nat) {
    forall i :: 0 <= i < |s| ==> '0' <= s[i] && DigitOf(s[i]) < base
  }

  /** A canonical numeral: non-empty, and no leading zero unless it is "0". */
  predicate Canonical(s: string) {
    |s| >= 1 && (|s| > 1 ==> s[0] != '0')
  }

  /** Place-value reading of a digit string, most significant digit first. */
  function DigitsValue(s: string, base: nat): int
  {
    if s == [] then 0 else DigitsValue(s[..|s| - 1], base) * base + DigitOf(s[|s| - 1])
  }

  /** The shortest base-`base` numeral of `n`: "0" for zero, no leading zeros. */
  function DigitString(n: nat, base: nat): string
    requires 2 <= base <= 10
    decreases n
  {
    if n < base then [DigitChar(n)] else DigitString(n / base, base) + [DigitChar(n % base)]
  }

  function Pow(base: nat, k: nat): nat {
    if k == 0 then 1 else base * Pow(base, k - 1)
  }

  /** `Integer.toString(x)`, which is also what `x + ""` produces. */
  function IntToString(x: int): string {
    if x < 0 then "-" + DigitString(-x, 10) else DigitString(x, 10)
  }

  /** `Integer.toBinaryString(x)`: a negative `int` is shown as its 32-bit
      two's-complement pattern, i.e. as the unsigned value x + 2^32. */
  function ToBinaryString(x: int): string
    requires IsInt32(x)
  {
    if x < 0 then DigitString(x + TwoTo32, 2) else DigitString(x, 2)
  }

  /** Appending one digit to a numeral shifts its value by one place. */
  lemma DigitsValueSnoc(s: string, c: char, base: nat)
    ensures DigitsValue(s + [c], base) == DigitsValue(s, base) * base + DigitOf(c)
  {
    assert (s + [c])[..|s + [c]| - 1] == s;
  }

  /** `DigitString` and `DigitsValue` are inverse: the numeral of `n` reads
      back as `n`, uses only digits of the base, and is canonical. */
  lemma DigitStringRoundTrip(n: nat, base: nat)
    requires 2 <= base <= 10
    ensures DigitsValue(DigitString(n, base), base) == n
    ensures AllDigits(DigitString(n, base), base)
    ensures Canonical(DigitString(n, base))
  {
    DigitStringValue(n, base);
    DigitStringShape(n, base);
  }

  lemma {:induction false} DigitStringValue(n: nat, base: nat)
    requires 2 <= base <= 10
    ensures DigitsValue(DigitString(n, base), base) == n
    decreases n
  {
    if n < base {
      DigitsValueSnoc([], DigitChar(n), base);
    } else {
      var q, d := n / base, n % base;
      var prefix := DigitString(q, base);
      assert DigitString(n, base) == prefix + [DigitChar(d)];
      DivShrinks(n, base);
      DigitStringValue(q, base);
      DigitsValueSnoc(prefix, DigitChar(d), base);
      Recompose(n, base, DigitsValue(prefix, base), DigitOf(DigitChar(d)));
    }
  }

  /** The quotient and remainder put back together give the dividend. */
  lemma Recompose(n: nat, base: nat, q: int, d: int)
    requires base >= 2 && q == n / base && d == n % base
    ensures q * base + d == n
  {
  }

  lemma {:induction false} DigitStringShape(n: nat, base: nat)
    requires 2 <= base <= 10
    ensures AllDigits(DigitString(n, base), base)
    ensures Canonical(DigitString(n, base))
    ensures |DigitString(n, base)| == 1 <==> n < base
    decreases n
  {
    if n >= base {
      var q, d := n / base, n % base;
      var prefix := DigitString(q, base);
      DivShrinks(n, base);
      DigitStringShape(q, base);
      assert DigitString(n, base) == prefix + [DigitChar(d)];
      assert DigitString(n, base)[0] == prefix[0];
      if |prefix| == 1 {
        assert prefix == [DigitChar(q)];
      }
    }
  }

  /** The numeral of `n` has at most `k` digits exactly when n < base^k. */
  lemma {:induction false} DigitStringLength(n: nat, base: nat, k: nat)
    requires 2 <= base <= 10
    requires k >= 1
    ensures |DigitString(n, base)| <= k <==> n < Pow(base, k)
    decreases n
  {
    if n < base {
      PowAtLeastBase(base, k);
    } else {
      var q := n / base;
      DivShrinks(n, base);
      assert |DigitString(n, base)| == |DigitString(q, base)| + 1;
      if k == 1 {
        assert Pow(base, 1) == base;
        assert |DigitString(q, base)| >= 1 by { assert q < base || |DigitString(q, base)| >= 1; }
      } else {
        DigitStringLength(q, base, k - 1);
        DivBelowPow(n, base, k);
      }
    }
  }

  lemma DivShrinks(n: nat, base: nat)
    requires 2 <= base <= n
    ensures 1 <= n / base < n
  {
    var q, r := n / base, n % base;
    assert n == q * base + r;
    assert q * base == q * (base - 2) + 2 * q;
    assert q * (base - 2) >= 0;
  }

  lemma {:induction false} PowAtLeastBase(base: nat, k: nat)
    requires 2 <= base
    requires k >= 1
    ensures Pow(base, k) >= base
    decreases k
  {
    if k > 1 {
      PowAtLeastBase(base, k - 1);
    }
  }

  /** n < base^k exactly when n / base < base^(k-1). */
  lemma DivBelowPow(n: nat, base: nat, k: nat)
    requires 2 <= base
    requires k >= 1
    ensures n < Pow(base, k) <==> n / base < Pow(base, k - 1)
  {
    var q, p := n / base, Pow(base, k - 1);
    assert n == q * base + n % base;
    assert Pow(base, k) == p * base;
    if q < p {
      MulMono(q + 1, p, base);
      assert (q + 1) * base == q * base + base;
    } else {
      MulMono(p, q, base);
    }
  }

  /** Zero characters do not change a numeral's value when put in front. */
  lemma {:induction false} LeadingZeros(z: string, s: string, base: nat)
    requires forall i :: 0 <= i < |z| ==> z[i] == '0'
    ensures DigitsValue(z + s, base) == DigitsValue(s, base)
    decreases |s|
  {
    if s == [] {
      assert z + s == z;
      ZerosValue(z, base);
    } else {
      var init, last := s[..|s| - 1], s[|s| - 1];
      assert z + s == (z + init) + [last];
      assert s == init + [last];
      DigitsValueSnoc(z + init, last, base);
      DigitsValueSnoc(init, last, base);
      LeadingZeros(z, init, base);
    }
  }

  lemma {:induction false} ZerosValue(z: string, base: nat)
    requires forall i :: 0 <= i < |z| ==> z[i] == '0'
    ensures DigitsValue(z, base) == 0
    decreases |z|
  {
    if z != [] {
      ZerosValue(z[..|z| - 1], base);
    }
  }

  /** `Integer.toBinaryString` is a base-2 numeral of the value modulo 2^32:
      the plain binary digits for a non-negative `int`, the two's-complement
      pattern (32 digits, a leading 1) for a negative one. */
  lemma BinaryStringValue(x: int)
    requires IsInt32(x)
    ensures AllDigits(ToBinaryString(x), 2)
    ensures DigitsValue(ToBinaryString(x), 2) == x % TwoTo32
    ensures x >= 0 ==> ToBinaryString(x) == DigitString(x, 2)
    ensures x < 0 ==> |ToBinaryString(x)| == 32
  {
    if x < 0 {
      DigitStringRoundTrip(x + TwoTo32, 2);
      PowTwo32();
      DigitStringLength(x + TwoTo32, 2, 32);
      DigitStringLength(x + TwoTo32, 2, 31);
    } else {
      DigitStringRoundTrip(x, 2);
    }
  }

  lemma PowTwo32()
    ensures Pow(2, 31) == 0x8000_0000
    ensures Pow(2, 32) == TwoTo32
  {
    assert Pow(2, 8) == 256;
    assert Pow(2, 16) == 256 * 256 by { PowAdd(2, 8, 8); }
    assert Pow(2, 31) == Pow(2, 16) * Pow(2, 15) by { PowAdd(2, 16, 15); }
    assert Pow(2, 32) == Pow(2, 16) * Pow(2, 16) by { PowAdd(2, 16, 16); }
  }

  lemma {:induction false} PowAdd(base: nat, a: nat, b: nat)
    ensures Pow(base, a + b) == Pow(base, a) * Pow(base, b)
    decreases a
  {
    if a > 0 {
      var x, y := Pow(base, a - 1), Pow(base, b);
      PowAdd(base, a - 1, b);
      assert Pow(base, a + b) == base * (x * y);
      MulAssoc(base, x, y);
    }
  }

  lemma MulAssoc(x: int, y: int, z: int)
    ensures x * (y * z) == (x * y) * z
  {
  }
}
