/** Shared definitions of the YDB Decimal codec: the sentinel values, powers,
    decimal digits and the `pow` routine. Values are integers scaled by
    10^scale; a `big.Int` is an unbounded `int`. */
module Decimal {
  import opened Wrappers

  /** `inf`: 10^35, one more than the largest 35-digit value. */
  const Inf: int := 100000000000000000 * 1000000000000000000
  /** `nan`: `inf + 1`. */
  const NaN: int := Inf + 1
  /** `err`: `nan + 1`. */
  const ErrValue: int := NaN + 1

  function Abs(x: int): nat {
    if x < 0 then -x else x
  }

  /** `x` negated when `neg` holds. */
  function Signed(neg: bool, x: int): int {
    if neg then -x else x
  }

  /** `IsInf`: either infinity. */
  predicate IsInf(x: int) {
    Abs(x) == Inf
  }

  /** `IsNaN`: either not-a-number. */
  predicate IsNaN(x: int) {
    Abs(x) == NaN
  }

  /** `IsErr`: the error value (only the positive one). */
  predicate IsErr(x: int) {
    x == ErrValue
  }

  /** `isDigit`. */
  predicate IsDigit(c: char) {
    '0' <= c <= '9'
  }

  function DigitVal(c: char): nat
    requires IsDigit(c)
  {
    c as int - '0' as int
  }

  function DigitChar(d: nat): char
    requires d < 10
  {
    (d + '0' as int) as char
  }

  /** `isInf`: a case-insensitive `inf` prefix. */
  predicate IsInfText(s: string) {
    |s| >= 3 && (s[0] == 'i' || s[0] == 'I') && (s[1] == 'n' || s[1] == 'N') && (s[2] == 'f' || s[2] == 'F')
  }

  /** `isNaN`: a case-insensitive `nan` prefix. */
  predicate IsNaNText(s: string) {
    |s| >= 3 && (s[0] == 'n' || s[0] == 'N') && (s[1] == 'a' || s[1] == 'A') && (s[2] == 'n' || s[2] == 'N')
  }

  /** `base` to the power `n`. */
  function Power(base: int, n: nat): (r: int)
    ensures base > 0 ==> r > 0
  {
    if n == 0 then 1 else base * Power(base, n - 1)
  }

  /** The number of decimal digits of `v` (none for zero). */
  function NumDigits(v: nat): nat {
    if v == 0 then 0 else 1 + NumDigits(v / 10)
  }

  /** The value of a string of decimal digits, most significant first. */
  function Val(s: string): nat
    requires forall i :: 0 <= i < |s| ==> IsDigit(s[i])
  {
    if s == [] then 0 else Val(s[..|s| - 1]) * 10 + DigitVal(s[|s| - 1])
  }

  predicate AllDigits(s: string) {
    forall i :: 0 <= i < |s| ==> IsDigit(s[i])
  }

  // ---------------------------------------------------------------------------
  // `pow`
  // ---------------------------------------------------------------------------

  /** `pow`: square-and-multiply over the bits of the exponent. */
  method Pow(base: int, exponent: uint32) returns (r: int)
    ensures r == Power(base, exponent as nat)
  {
    r := 1;
    var multiplier := base;
    var e := exponent as nat;
    while e > 0
      invariant r * Power(multiplier, e) == Power(base, exponent as nat)
    {
      PowerSplit(multiplier, e);
      if e % 2 != 0 {
        r := r * multiplier;
      }
      e := e / 2;
      multiplier := multiplier * multiplier;
    }
  }

  /** The step `pow` takes: one factor for an odd exponent, the rest squared. */
  lemma {:induction false} PowerSplit(m: int, e: nat)
    ensures Power(m, e) == (if e % 2 != 0 then m else 1) * Power(m * m, e / 2)
  {
    if e >= 2 {
      PowerSplit(m, e - 2);
      var f, q := if e % 2 != 0 then m else 1, Power(m * m, e / 2 - 1);
      assert (e - 2) / 2 == e / 2 - 1 && (e - 2) % 2 == e % 2;
      assert Power(m, e) == m * (m * Power(m, e - 2));
      assert Power(m * m, e / 2) == (m * m) * q;
      Regroup(m, f, q);
    }
  }

  lemma Regroup(m: int, f: int, q: int)
    ensures m * (m * (f * q)) == f * ((m * m) * q)
  {
    assert m * (m * (f * q)) == (m * m) * (f * q);
  }

  // ---------------------------------------------------------------------------
  // Arithmetic facts used throughout the codec
  // ---------------------------------------------------------------------------

  lemma {:induction false} PowerAdd(b: int, m: nat, n: nat)
    ensures Power(b, m + n) == Power(b, m) * Power(b, n)
  {
    if m > 0 {
      PowerAdd(b, m - 1, n);
      assert Power(b, m + n) == b * Power(b, m - 1 + n);
    }
  }

  lemma {:induction false} PowerMonotone(b: int, m: nat, n: nat)
    requires b > 1 && m <= n
    ensures Power(b, m) <= Power(b, n)
  {
    if m < n {
      PowerMonotone(b, m, n - 1);
    }
  }

  /** Ten to the 35th is `inf`. */
  lemma InfIsPower()
    ensures Power(10, 35) == Inf
  {
    assert Power(10, 5) == 100000;
    PowerAdd(10, 5, 5);
    PowerAdd(10, 10, 10);
    PowerAdd(10, 20, 10);
    PowerAdd(10, 30, 5);
  }

  /** A value has at most `n` digits exactly when it is below 10^n. */
  lemma {:induction false} NumDigitsBound(v: nat, n: nat)
    ensures NumDigits(v) <= n <==> v < Power(10, n)
  {
    if v == 0 {
    } else if n > 0 {
      NumDigitsBound(v / 10, n - 1);
    } else {
      assert NumDigits(v) >= 1;
    }
  }

  /** Appending a digit to a nonzero value adds one digit. */
  lemma NumDigitsAppend(r: nat, d: nat)
    requires d < 10 && r * 10 + d > 0
    ensures NumDigits(r * 10 + d) == NumDigits(r) + 1
  {
    assert (r * 10 + d) / 10 == r;
  }

  /** Digits appended one at a time build the value of the whole string. */
  lemma {:induction false} ValAppend(a: string, b: string)
    requires AllDigits(a) && AllDigits(b)
    ensures AllDigits(a + b)
    ensures Val(a + b) == Val(a) * Power(10, |b|) + Val(b)
  {
    if b != [] {
      var b' := b[..|b| - 1];
      assert (a + b)[..|a + b| - 1] == a + b';
      assert (a + b)[|a + b| - 1] == b[|b| - 1];
      ValAppend(a, b');
      ShiftAppend(Val(a), Power(10, |b'|), Val(b'), 10, DigitVal(b[|b| - 1]));
    } else {
      assert a + b == a;
    }
  }

  /** Appending one digit in base `base` to `hi * p + lo`. */
  lemma ShiftAppend(hi: int, p: int, lo: int, base: int, d: int)
    ensures (hi * p + lo) * base + d == hi * (base * p) + (lo * base + d)
  {
    assert (hi * p) * base == hi * (p * base);
  }

  lemma {:induction false} ValBound(s: string)
    requires AllDigits(s)
    ensures Val(s) < Power(10, |s|)
  {
    if s != [] {
      ValBound(s[..|s| - 1]);
    }
  }

  /** Division is determined by a quotient and a remainder in range. */
  lemma DivUnique(a: int, d: int, q: int, r: int)
    requires d > 0 && 0 <= r < d && a == q * d + r
    ensures a / d == q && a % d == r
  {
    var q0, r0 := a / d, a % d;
    assert (q - q0) * d == r0 - r;
    MultipleBound(q - q0, d);
  }

  lemma MultipleBound(k: int, d: int)
    requires d > 0
    ensures k >= 1 ==> k * d >= d
    ensures k <= -1 ==> k * d <= -d
  {
    if k >= 1 {
      assert k * d == d + (k - 1) * d;
    } else if k <= -1 {
      assert k * d == -d + (k + 1) * d;
    }
  }

  /** `(a / b) / c == a / (b * c)`, and the remainder splits the same way. */
  lemma DivDiv(a: nat, b: nat, c: nat)
    requires b > 0 && c > 0
    ensures a / b / c == a / (b * c)
    ensures a % (b * c) == (a / b) % c * b + a % b
  {
    var q, r2, r1 := a / b / c, (a / b) % c, a % b;
    assert a / b == q * c + r2;
    assert a == q * (b * c) + (r2 * b + r1) by {
      assert a == (a / b) * b + r1;
    }
    assert r2 * b + r1 < b * c by {
      assert r2 * b <= (c - 1) * b;
    }
    DivUnique(a, b * c, q, r2 * b + r1);
  }

  lemma MulStrict(a: int, b: int, c: int)
    requires a < b && c > 0
    ensures a * c < b * c
  {
    assert b * c - a * c == (b - a) * c;
    MultipleBound(b - a, c);
  }

  /** Division by a positive value is below any bound the dividend is below. */
  lemma DivBelow(a: nat, x: nat, y: nat)
    requires y > 0 && a < x * y
    ensures a / y < x
  {
    MulMonotone(a / y, x, y);
  }

  lemma MulMonotone(k: int, x: int, y: int)
    requires y >= 0
    ensures k >= x ==> k * y >= x * y
  {
    if k >= x {
      assert k * y - x * y == (k - x) * y;
    }
  }

  /** A quotient of a natural number is natural, and zero exactly when the
      dividend is below the divisor. */
  lemma DivBounds(a: nat, p: int)
    requires p > 0
    ensures a / p >= 0
    ensures a / p == 0 <==> a < p
  {
    var k := a / p;
    assert a == k * p + a % p;
    MultipleBound(k, p);
    if k == 0 {
      assert k * p == 0;
    }
  }
}
