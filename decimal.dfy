/** Decimal text of unsigned and signed integers, as the C library's printf family
    writes it for the conversions "%0<w>lu" and "%0<w>d". */
module Decimal {

  function Pow10(n: nat): (p: nat)
    ensures p >= 1
  {
    if n == 0 then 1 else 10 * Pow10(n - 1)
  }

  function Max(a: nat, b: nat): nat { if a < b then b else a }

  function Abs(x: int): nat { if x < 0 then -x else x }

  predicate IsDigit(c: char) { '0' <= c <= '9' }

  predicate AllDigits(s: seq<char>) { forall i :: 0 <= i < |s| ==> IsDigit(s[i]) }

  function DigitChar(d: nat): (c: char)
    requires d < 10
    ensures IsDigit(c) && c as int - '0' as int == d
  {
    ('0' as int + d) as char
  }

  function DigitValue(c: char): nat
    requires IsDigit(c)
  {
    c as int - '0' as int
  }

  /** The last n decimal digits of v, most significant first, with leading zeros. */
  function Digits(v: nat, n: nat): (s: seq<char>)
    ensures |s| == n && AllDigits(s)
  {
    if n == 0 then [] else Digits(v / 10, n - 1) + [DigitChar(v % 10)]
  }

  /** The number a string of decimal digits denotes. */
  function ValueOf(s: seq<char>): nat
    requires AllDigits(s)
  {
    if s == [] then 0 else ValueOf(s[..|s| - 1]) * 10 + DigitValue(s[|s| - 1])
  }

  /** How many digits printf needs for v: at least one, and v has exactly that many. */
  function NumDigits(v: nat): (k: nat)
    ensures k >= 1 && v < Pow10(k)
    ensures k >= 2 ==> Pow10(k - 1) <= v
  {
    if v < 10 then 1 else 1 + NumDigits(v / 10)
  }

  /** "%0<width>lu": all digits of v, padded with zeros on the left to at least width characters. */
  function FormatUnsigned(v: nat, width: nat): (s: seq<char>)
    ensures |s| == Max(width, NumDigits(v)) && AllDigits(s)
    ensures ValueOf(s) == v
    ensures width >= 1 && v < Pow10(width) ==> s == Digits(v, width)
  {
    var k := NumDigits(v);
    ValueOfDigits(v, Max(width, k));
    Pow10Monotone(k, Max(width, k));
    DivModUnique(v, Pow10(Max(width, k)), 0, v);
    NumDigitsAtMost(v, width);
    Digits(v, Max(width, k))
  }

  /** "%0<width>d": a minus sign for negative v, then the digits of |v|, zero-padded so that
      sign and digits together fill at least width characters. */
  function FormatSigned(v: int, width: nat): (s: seq<char>)
    ensures |s| == Max(width, NumDigits(Abs(v)) + (if v < 0 then 1 else 0))
    ensures (|s| > 0 && s[0] == '-') <==> v < 0
    ensures v >= 0 ==> AllDigits(s) && ValueOf(s) == v
    ensures v < 0 ==> |s| > 0 && AllDigits(s[1..]) && ValueOf(s[1..]) == -v
  {
    if v < 0 then
      var digits := FormatUnsigned(-v, if width == 0 then 0 else width - 1);
      SignedWidth(width, NumDigits(-v));
      assert (['-'] + digits)[1..] == digits;
      ['-'] + digits
    else
      var s := FormatUnsigned(v, width);
      assert |s| > 0 ==> IsDigit(s[0]);
      s
  }

  /** The sign takes one of the padded positions: 1 + max(w - 1, k) = max(w, k + 1). */
  lemma SignedWidth(width: nat, k: nat)
    requires k >= 1
    ensures 1 + Max(if width == 0 then 0 else width - 1, k) == Max(width, k + 1)
  {
  }

  // Arithmetic helpers

  lemma {:induction false} MulAtLeast(d: int, k: int)
    requires d > 0 && k >= 1
    ensures d * k >= d
  {
    if k > 1 {
      MulAtLeast(d, k - 1);
      assert d * k == d * (k - 1) + d;
    }
  }

  lemma DivModUnique(v: int, d: int, q: int, r: int)
    requires d > 0 && 0 <= r < d && v == d * q + r
    ensures v / d == q && v % d == r
  {
    var q', r' := v / d, v % d;
    assert v == d * q' + r';
    if q' > q {
      MulAtLeast(d, q' - q);
      assert false;
    } else if q' < q {
      MulAtLeast(d, q - q');
      assert false;
    }
  }

  lemma DivMod10(v: nat, p: nat)
    requires p > 0
    ensures v / 10 / p == v / (10 * p)
    ensures v % (10 * p) == v / 10 % p * 10 + v % 10
  {
    var q, r := v / 10 / p, v / 10 % p;
    assert v / 10 == p * q + r;
    assert v == 10 * (v / 10) + v % 10;
    assert v == (10 * p) * q + (10 * r + v % 10);
    assert 10 * r + v % 10 < 10 * p;
    DivModUnique(v, 10 * p, q, 10 * r + v % 10);
  }

  lemma {:induction false} Pow10Monotone(a: nat, b: nat)
    requires a <= b
    ensures Pow10(a) <= Pow10(b)
  {
    if a < b { Pow10Monotone(a, b - 1); }
  }

  lemma {:induction false} NumDigitsAtMost(v: nat, n: nat)
    ensures n >= 1 && v < Pow10(n) ==> NumDigits(v) <= n
  {
    if n >= 1 && v < Pow10(n) && v >= 10 {
      assert n >= 2;
      NumDigitsAtMost(v / 10, n - 1);
    }
  }

  // Properties of the digit strings

  /** Reading the digits back gives v modulo 10^n: the round trip of Digits. */
  lemma {:induction false} ValueOfDigits(v: nat, n: nat)
    ensures ValueOf(Digits(v, n)) == v % Pow10(n)
  {
    if n > 0 {
      var s := Digits(v, n);
      assert s[..n - 1] == Digits(v / 10, n - 1);
      ValueOfDigits(v / 10, n - 1);
      DivMod10(v, Pow10(n - 1));
    }
  }

  /** A number that has at most n digits reads back from its n-digit text. */
  lemma DigitsReadBack(v: nat, n: nat)
    requires v < Pow10(n)
    ensures ValueOf(Digits(v, n)) == v
  {
    ValueOfDigits(v, n);
    DivModUnique(v, Pow10(n), 0, v);
  }

  /** v with its last n decimal digits dropped. */
  function DropDigits(v: nat, n: nat): nat
  {
    if n == 0 then v else DropDigits(v / 10, n - 1)
  }

  /** A number below 10^n has nothing left once n digits are dropped. */
  lemma {:induction false} DropAllDigits(v: nat, n: nat)
    requires v < Pow10(n)
    ensures DropDigits(v, n) == 0
  {
    if n > 0 {
      DropAllDigits(v / 10, n - 1);
    }
  }

  /** The leading m of m + n digits are the digits of v with its last n digits dropped. */
  lemma {:induction false} DigitsSplit(v: nat, m: nat, n: nat)
    ensures Digits(v, m + n) == Digits(DropDigits(v, n), m) + Digits(v, n)
  {
    if n > 0 {
      var hi, lo, last := Digits(DropDigits(v, n), m), Digits(v / 10, n - 1), [DigitChar(v % 10)];
      assert Digits(v, m + n) == Digits(v / 10, m + (n - 1)) + last;
      DigitsSplit(v / 10, m, n - 1);
      assert hi + lo + last == hi + (lo + last);
    }
  }

  /** n digits only depend on v modulo 10^n. */
  lemma {:induction false} DigitsMod(v: nat, n: nat)
    ensures Digits(v, n) == Digits(v % Pow10(n), n)
  {
    if n > 0 {
      var p := Pow10(n - 1);
      assert Pow10(n) == 10 * p;
      var w := v % (10 * p);
      var hi := v / 10 % p;
      DivMod10(v, p);
      DivModUnique(w, 10, hi, v % 10);
      DigitsMod(v / 10, n - 1);
      calc {
        Digits(w, n);
        Digits(hi, n - 1) + [DigitChar(v % 10)];
        Digits(v / 10, n - 1) + [DigitChar(v % 10)];
        Digits(v, n);
      }
    }
  }
}
