/** Rendering natural numbers as digit strings, the way `core::fmt` writes
    `{}` (decimal) and `{:x}` (lowercase hexadecimal), and reading such
    strings back. */
module Numerals {

  /** `c` is one of the characters `0`-`9`, `a`-`f`. */
  predicate IsLowerHexChar(c: char)
  {
    ('0' <= c <= '9') || ('a' <= c <= 'f')
  }

  /** The numeric value of a lowercase hexadecimal digit. */
  function DigitValue(c: char): (d: nat)
    requires IsLowerHexChar(c)
    ensures d < 16
  {
    if c <= '9' then (c - '0') as nat else (c - 'a') as nat + 10
  }

  /** `c` is a digit of the given base (at most 16), lowercase. */
  predicate IsDigit(c: char, base: nat)
  {
    IsLowerHexChar(c) && DigitValue(c) < base
  }

  /** Every character of `s` is a digit of `base`. */
  predicate AllDigits(s: string, base: nat)
  {
    forall i :: 0 <= i < |s| ==> IsDigit(s[i], base)
  }

  /** The lowercase character for a digit value below 16. */
  function DigitChar(d: nat): (c: char)
    requires d < 16
    ensures IsLowerHexChar(c) && DigitValue(c) == d
  {
    if d < 10 then (48 + d) as char else (87 + d) as char
  }

  /** `n` written in `base` with no leading zeros (zero is "0"), as Rust's
      `Display` and `LowerHex` do for unsigned integers. */
  function ToDigits(n: nat, base: nat): (s: string)
    requires 2 <= base <= 16
    ensures |s| >= 1
    ensures AllDigits(s, base)
    ensures n > 0 ==> s[0] != '0'
    ensures n == 0 ==> s == "0"
    decreases n
  {
    if n < base then [DigitChar(n)]
    else
      Euclid(n, base);
      ToDigits(n / base, base) + [DigitChar(n % base)]
  }

  /** The value of a digit string in `base`, most significant digit first. */
  function ParseDigits(s: string, base: nat): nat
    requires AllDigits(s, base)
  {
    if s == [] then 0
    else ParseDigits(s[..|s| - 1], base) * base + DigitValue(s[|s| - 1])
  }

  /** Reading back what `ToDigits` wrote gives the original number. */
  lemma {:induction false} ParseToDigits(n: nat, base: nat)
    requires 2 <= base <= 16
    ensures ParseDigits(ToDigits(n, base), base) == n
    decreases n
  {
    var s := ToDigits(n, base);
    var last := DigitChar(n % base);
    if n < base {
      assert s[..0] == [];
    } else {
      var prefix := ToDigits(n / base, base);
      assert s[..|s| - 1] == prefix;
      Euclid(n, base);
      ParseToDigits(n / base, base);
      assert ParseDigits(s, base) == ParseDigits(prefix, base) * base + DigitValue(last);
    }
  }

  /** Division with remainder by a base of at least two, and the quotient of
      a number not below the base is smaller than the number. */
  lemma Euclid(n: nat, b: nat)
    requires 2 <= b
    ensures n == (n / b) * b + n % b
    ensures n >= b ==> 1 <= n / b < n
  {
  }

  /** `base` raised to `e`. */
  function Pow(base: nat, e: nat): nat
  {
    if e == 0 then 1 else base * Pow(base, e - 1)
  }

  /** Exponents add when powers of the same base multiply. */
  lemma {:induction false} PowAdd(base: nat, i: nat, j: nat)
    ensures Pow(base, i + j) == Pow(base, i) * Pow(base, j)
    decreases i
  {
    if i > 0 {
      PowAdd(base, i - 1, j);
      assert Pow(base, i + j) == base * Pow(base, i - 1 + j);
    }
  }

  /** Appending the hexadecimal digit `d` to a positive number `n`: the
      digits of `16 * n + d` are those of `n` followed by `d`. */
  lemma AppendDigit(n: nat, d: nat)
    requires n >= 1 && d < 16
    ensures ToDigits(16 * n + d, 16) == ToDigits(n, 16) + [DigitChar(d)]
  {
    var p := 16 * n + d;
    assert p / 16 == n && p % 16 == d;
  }

  /** Multiplying a positive number by `16^k` appends `k` zero hexadecimal
      digits. */
  lemma {:induction false} HexShifted(m: nat, k: nat)
    requires m >= 1
    ensures ToDigits(m * Pow(16, k), 16) == ToDigits(m, 16) + Repeat('0', k)
    decreases k
  {
    if k > 0 {
      var lower := m * Pow(16, k - 1);
      assert lower >= 1 by {
        PowPositive(16, k - 1);
        MulMonotone(m, 1, Pow(16, k - 1));
      }
      PowStep(m, 16, k);
      HexTimesSixteen(lower);
      HexShifted(m, k - 1);
      assert Repeat('0', k - 1) + "0" == Repeat('0', k);
    }
  }

  /** Multiplying a positive number by 16 appends one zero hexadecimal
      digit. */
  lemma HexTimesSixteen(n: nat)
    requires n >= 1
    ensures ToDigits(n * 16, 16) == ToDigits(n, 16) + "0"
  {
    var p := n * 16;
    assert p / 16 == n && p % 16 == 0;
    assert ToDigits(p, 16) == ToDigits(p / 16, 16) + [DigitChar(p % 16)];
  }

  /** One more factor of the base, taken out of `m * base^k`. */
  lemma PowStep(m: nat, base: nat, k: nat)
    requires k > 0
    ensures m * Pow(base, k) == (m * Pow(base, k - 1)) * base
  {
    var p := Pow(base, k - 1);
    assert Pow(base, k) == base * p;
    assert m * (base * p) == (m * p) * base;
  }

  /** Powers of a positive base are positive. */
  lemma {:induction false} PowPositive(base: nat, e: nat)
    requires base >= 1
    ensures Pow(base, e) >= 1
    decreases e
  {
    if e > 0 {
      PowPositive(base, e - 1);
      MulMonotone(Pow(base, e - 1), 1, base);
    }
  }

  /** A number below `base^k` needs at most `k` digits. */
  lemma {:induction false} ToDigitsLength(n: nat, base: nat, k: nat)
    requires 2 <= base <= 16
    requires 1 <= k
    requires n < Pow(base, k)
    ensures |ToDigits(n, base)| <= k
    decreases k
  {
    assert Pow(base, 1) == base;
    if n >= base {
      assert k >= 2;
      DivBelowProduct(n, base, Pow(base, k - 1));
      ToDigitsLength(n / base, base, k - 1);
    }
  }

  /** Truncating division by `b` maps everything below `b * m` below `m`. */
  lemma DivBelowProduct(n: nat, b: nat, m: nat)
    requires b > 0
    requires n < b * m
    ensures n / b < m
  {
    var q := n / b;
    assert b * q <= n;
    if q >= m {
      MulMonotone(b, m, q);
      assert false;
    }
  }

  /** Multiplying by a natural number preserves `<=`. */
  lemma MulMonotone(b: nat, x: nat, y: nat)
    requires x <= y
    ensures b * x <= b * y
  {
  }

  /** `k` copies of `c`. */
  function Repeat(c: char, k: nat): (s: string)
    ensures |s| == k
    ensures forall i :: 0 <= i < k ==> s[i] == c
  {
    seq(k, _ => c)
  }

  /** `s` padded on the left with `fill` up to `width` characters; a string
      already that long is left as it is (a format width is a minimum). */
  function PadLeft(s: string, width: nat, fill: char): (r: string)
    ensures |r| == if |s| >= width then |s| else width
  {
    if |s| >= width then s else Repeat(fill, width - |s|) + s
  }

  /** Leading zeros do not change the value of a digit string. */
  lemma {:induction false} ParseLeadingZeros(k: nat, s: string, base: nat)
    requires 2 <= base <= 16
    requires AllDigits(s, base)
    ensures AllDigits(Repeat('0', k) + s, base)
    ensures ParseDigits(Repeat('0', k) + s, base) == ParseDigits(s, base)
    decreases |s|, k
  {
    var z := Repeat('0', k);
    if s == [] {
      assert z + s == z;
      if k > 0 {
        assert z[..k - 1] == Repeat('0', k - 1);
        ParseLeadingZeros(k - 1, s, base);
        assert Repeat('0', k - 1) + s == Repeat('0', k - 1);
      }
    } else {
      var t := z + s;
      assert t[..|t| - 1] == z + s[..|s| - 1];
      assert t[|t| - 1] == s[|s| - 1];
      ParseLeadingZeros(k, s[..|s| - 1], base);
    }
  }

  /** The digit part of `{:#0Wx}`: the minimal lowercase hexadecimal
      digits of `n`, padded on the left with zeros to `k` characters. */
  function HexField(n: nat, k: nat): string
  {
    PadLeft(ToDigits(n, 16), k, '0')
  }

  /** Rust's `{:#0Wx}`: the prefix "0x", then the hexadecimal digits of
      `n` padded with zeros so that prefix and digits together are `width`
      characters wide. When `n` has room in `width - 2` digits the result is
      exactly `width` characters, and its digits read back as `n`. */
  function AlternateHex(n: nat, width: nat): (s: string)
    ensures |s| >= 2 && s[..2] == "0x"
    ensures width >= 3 && n < Pow(16, width - 2) ==>
      && |s| == width
      && AllDigits(s[2..], 16)
      && ParseDigits(s[2..], 16) == n
  {
    var field := HexField(n, if width >= 2 then width - 2 else 0);
    if width >= 3 && n < Pow(16, width - 2) then
      HexFieldFixedWidth(n, width - 2);
      assert ("0x" + field)[2..] == field;
      "0x" + field
    else
      "0x" + field
  }

  /** For a value below 16^k, the zero-padded field is exactly `k`
      lowercase hexadecimal digits, and they read back as `n`. */
  lemma HexFieldFixedWidth(n: nat, k: nat)
    requires 1 <= k
    requires n < Pow(16, k)
    ensures |HexField(n, k)| == k
    ensures AllDigits(HexField(n, k), 16)
    ensures ParseDigits(HexField(n, k), 16) == n
  {
    var digits := ToDigits(n, 16);
    ToDigitsLength(n, 16, k);
    assert HexField(n, k) == Repeat('0', k - |digits|) + digits;
    ParseLeadingZeros(k - |digits|, digits, 16);
    ParseToDigits(n, 16);
  }
}
