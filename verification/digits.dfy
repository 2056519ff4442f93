/** Decimal numerals: powers of ten, the value of a digit string and the
    rendering of an integer as the string `BigInt.prototype.toString()` gives. */
module Digits {

  function Min(a: int, b: int): int {
    if a <= b then a else b
  }

  function Pow10(n: nat): (p: nat)
    ensures p >= 1
  {
    if n == 0 then 1 else 10 * Pow10(n - 1)
  }

  lemma {:induction false} Pow10Add(a: nat, b: nat)
    ensures Pow10(a + b) == Pow10(a) * Pow10(b)
    decreases b
  {
    if b > 0 {
      Pow10Add(a, b - 1);
      calc {
        Pow10(a + b);
        10 * Pow10(a + b - 1);
        10 * (Pow10(a) * Pow10(b - 1));
        Pow10(a) * (10 * Pow10(b - 1));
      }
    }
  }

  /** The value of `c` read as a digit in a base up to 16; 16 for any other character. */
  function CharValue(c: char): (v: nat)
    ensures v <= 16
  {
    if '0' <= c <= '9' then c as int - '0' as int
    else if 'a' <= c <= 'f' then c as int - 'a' as int + 10
    else if 'A' <= c <= 'F' then c as int - 'A' as int + 10
    else 16
  }

  predicate IsDigit(c: char) {
    '0' <= c <= '9'
  }

  predicate AllDigitsIn(s: string, radix: nat) {
    forall i :: 0 <= i < |s| ==> CharValue(s[i]) < radix
  }

  predicate AllDigits(s: string) {
    forall i :: 0 <= i < |s| ==> IsDigit(s[i])
  }

  /** A non-empty string of decimal digits. */
  predicate IsNumeral(s: string) {
    s != [] && AllDigits(s)
  }

  /** A numeral without redundant leading zeros: the form `toString()` produces. */
  predicate IsCanonical(s: string) {
    IsNumeral(s) && (s[0] != '0' || |s| == 1)
  }

  /** The value of a digit string in base `radix`, most significant digit first. */
  function ValueIn(s: string, radix: nat): nat
    requires AllDigitsIn(s, radix)
  {
    if s == [] then 0 else ValueIn(s[..|s| - 1], radix) * radix + CharValue(s[|s| - 1])
  }

  function Value(s: string): nat
    requires AllDigits(s)
  {
    ValueIn(s, 10)
  }

  function DigitChar(d: nat): (c: char)
    requires d < 10
    ensures IsDigit(c) && CharValue(c) == d
  {
    ('0' as int + d) as char
  }

  /** The decimal numeral of `n`. */
  function NatToString(n: nat): (s: string)
    ensures IsCanonical(s)
    ensures Value(s) == n
    decreases n
  {
    if n < 10 then ValueSnoc([], DigitChar(n)); [DigitChar(n)]
    else
      var prefix := NatToString(n / 10);
      ValueSnoc(prefix, DigitChar(n % 10));
      prefix + [DigitChar(n % 10)]
  }

  /** `BigInt.prototype.toString()`: a minus sign before the magnitude of a negative value. */
  function IntToString(i: int): (s: string)
    ensures i >= 0 ==> s == NatToString(i)
    ensures i < 0 ==> s == "-" + NatToString(-i)
  {
    if i < 0 then "-" + NatToString(-i) else NatToString(i)
  }

  function Zeros(k: nat): (z: string)
    ensures |z| == k
    ensures forall i :: 0 <= i < k ==> z[i] == '0'
  {
    seq(k, _ => '0')
  }

  lemma ValueSnoc(s: string, c: char)
    requires AllDigits(s) && IsDigit(c)
    ensures AllDigits(s + [c])
    ensures Value(s + [c]) == Value(s) * 10 + CharValue(c)
  {
    assert (s + [c])[..|s|] == s;
  }

  lemma {:induction false} ValueAppend(a: string, b: string)
    requires AllDigits(a) && AllDigits(b)
    ensures AllDigits(a + b)
    ensures Value(a + b) == Value(a) * Pow10(|b|) + Value(b)
    decreases |b|
  {
    assert AllDigits(a + b) by {
      forall i | 0 <= i < |a + b|
        ensures IsDigit((a + b)[i])
      {
        if i < |a| { assert (a + b)[i] == a[i]; } else { assert (a + b)[i] == b[i - |a|]; }
      }
    }
    if b == [] {
      assert a + b == a;
    } else {
      var b' := b[..|b| - 1];
      var c := b[|b| - 1];
      assert a + b == (a + b') + [c];
      assert b == b' + [c];
      ValueAppend(a, b');
      ValueSnoc(a + b', c);
      ValueSnoc(b', c);
      var x := Value(a);
      var p := Pow10(|b'|);
      assert Value(a + b) == (x * p + Value(b')) * 10 + CharValue(c);
      MulAssoc(x, p, 10);
      assert Pow10(|b|) == p * 10;
    }
  }

  lemma {:induction false} ValueBound(s: string)
    requires AllDigits(s)
    ensures Value(s) < Pow10(|s|)
    decreases |s|
  {
    if s != [] {
      var s' := s[..|s| - 1];
      ValueBound(s');
      assert Value(s) == Value(s') * 10 + CharValue(s[|s| - 1]);
      assert Value(s') + 1 <= Pow10(|s'|);
      assert (Value(s') + 1) * 10 <= Pow10(|s'|) * 10;
    }
  }

  lemma {:induction false} ValueZeros(k: nat)
    ensures AllDigits(Zeros(k)) && Value(Zeros(k)) == 0
    decreases k
  {
    if k > 0 {
      assert Zeros(k)[..k - 1] == Zeros(k - 1);
      ValueZeros(k - 1);
    }
  }

  /** Leading zeros do not change the value. */
  lemma ValueLeadingZeros(k: nat, s: string)
    requires AllDigits(s)
    ensures AllDigits(Zeros(k) + s) && Value(Zeros(k) + s) == Value(s)
  {
    ValueZeros(k);
    ValueAppend(Zeros(k), s);
    assert Value(Zeros(k) + s) == 0 * Pow10(|s|) + Value(s);
  }

  /** Trailing zeros multiply the value by a power of ten. */
  lemma ValueTrailingZeros(s: string, k: nat)
    requires AllDigits(s)
    ensures AllDigits(s + Zeros(k)) && Value(s + Zeros(k)) == Value(s) * Pow10(k)
  {
    ValueZeros(k);
    ValueAppend(s, Zeros(k));
    assert Value(s + Zeros(k)) == Value(s) * Pow10(k) + 0;
  }

  /** A numeral whose first digit is not zero has all its places. */
  lemma ValueLowerBound(s: string)
    requires IsNumeral(s) && s[0] != '0'
    ensures Value(s) >= Pow10(|s| - 1)
  {
    assert s == s[..1] + s[1..];
    ValueAppend(s[..1], s[1..]);
    assert s[..1] == [] + [s[0]];
    ValueSnoc([], s[0]);
  }

  lemma Pow10Monotone(a: nat, b: nat)
    requires a <= b
    ensures Pow10(a) <= Pow10(b)
  {
    Pow10Add(a, b - a);
    MulAtLeast(Pow10(b - a), Pow10(a));
  }

  lemma MulAtLeast(t: int, q: int)
    requires t >= 1 && q > 0
    ensures t * q >= q
  {
  }

  /** Numerals of `n` digits are exactly the values below 10^n. */
  lemma {:induction false} NatToStringLength(n: nat, w: nat)
    requires w >= 1 && n < Pow10(w)
    ensures |NatToString(n)| <= w
    ensures Pow10(w - 1) <= n ==> |NatToString(n)| == w
  {
    var s := NatToString(n);
    ValueBound(s);
    if |s| > w {
      ValueLowerBound(s);
      Pow10Monotone(w, |s| - 1);
    }
    if Pow10(w - 1) <= n {
      if |s| < w {
        Pow10Monotone(|s|, w - 1);
      }
    }
  }

  /** The canonical numeral of a value is unique: `NatToString` inverts `Value` on canonical numerals. */
  lemma {:induction false} NatToStringOfValue(s: string)
    requires IsCanonical(s)
    ensures NatToString(Value(s)) == s
    decreases |s|
  {
    if |s| > 1 {
      var s' := s[..|s| - 1];
      var d := CharValue(s[|s| - 1]);
      assert IsCanonical(s');
      ValueLowerBound(s');
      assert Value(s) == Value(s') * 10 + d;
      assert Value(s) / 10 == Value(s') && Value(s) % 10 == d;
      assert Value(s) >= 10;
      NatToStringOfValue(s');
      assert DigitChar(d) == s[|s| - 1];
      calc {
        NatToString(Value(s));
        NatToString(Value(s) / 10) + [DigitChar(Value(s) % 10)];
        s' + [s[|s| - 1]];
        s;
      }
    } else {
      assert s == [DigitChar(CharValue(s[0]))];
    }
  }

  /** `a / 10^n`, computed one decimal digit at a time. */
  function Shift(a: nat, n: nat): nat
    decreases n
  {
    if n == 0 then a else Shift(a / 10, n - 1)
  }

  /** `a % 10^n`: the last `n` decimal digits of `a`. */
  function Low(a: nat, n: nat): nat
    decreases n
  {
    if n == 0 then 0 else Low(a / 10, n - 1) * 10 + a % 10
  }

  /** `Shift` and `Low` split `a` at the `n`-th decimal place. */
  lemma {:induction false} ShiftLow(a: nat, n: nat)
    ensures a == Shift(a, n) * Pow10(n) + Low(a, n)
    ensures Low(a, n) < Pow10(n)
    decreases n
  {
    if n > 0 {
      var b := a / 10;
      ShiftLow(b, n - 1);
      MulAssoc(Shift(b, n - 1), Pow10(n - 1), 10);
      assert a == 10 * b + a % 10;
    }
  }

  lemma {:induction false} ShiftLowZero(n: nat)
    ensures Shift(0, n) == 0 && Low(0, n) == 0
    decreases n
  {
    if n > 0 {
      ShiftLowZero(n - 1);
    }
  }

  lemma MulAssoc(x: int, y: int, z: int)
    ensures x * (y * z) == (x * y) * z
  {
  }

  /** The split at the `n`-th place is unique. */
  lemma ShiftUnique(a: nat, n: nat, x: nat, r: nat)
    requires a == x * Pow10(n) + r && r < Pow10(n)
    ensures Shift(a, n) == x && Low(a, n) == r
  {
    ShiftLow(a, n);
    SplitUnique(a, Pow10(n), Shift(a, n), Low(a, n), x, r);
  }

  lemma {:induction false} SplitUnique(a: int, q: int, x: int, r: int, y: int, t: int)
    requires q > 0 && 0 <= r < q && 0 <= t < q
    requires a == x * q + r && a == y * q + t
    ensures x == y && r == t
  {
    assert (x - y) * q == t - r;
    if x > y {
      MulAtLeast(x - y, q);
    } else if x < y {
      MulAtLeast(y - x, q);
    }
  }

  /** `a` has a non-zero digit at or above place `n` exactly when `a >= 10^n`. */
  lemma ShiftPositive(a: nat, n: nat)
    ensures Shift(a, n) >= 1 <==> a >= Pow10(n)
  {
    ShiftLow(a, n);
    if Shift(a, n) >= 1 {
      MulAtLeast(Shift(a, n), Pow10(n));
    }
  }

  /** Keeping the last `d` digits and then the last `m <= d` keeps the last `m`. */
  lemma {:induction false} LowLow(a: nat, m: nat, d: nat)
    requires m <= d
    ensures Low(Low(a, d), m) == Low(a, m)
    decreases m
  {
    if m > 0 {
      var l := Low(a / 10, d - 1);
      assert Low(a, d) == l * 10 + a % 10;
      assert Low(a, d) / 10 == l && Low(a, d) % 10 == a % 10;
      LowLow(a / 10, m - 1, d - 1);
    }
  }

  /** `Shift` and `Low` are the Euclidean quotient and remainder by 10^n. */
  lemma ShiftIsDiv(a: nat, n: nat)
    ensures Shift(a, n) == a / Pow10(n) && Low(a, n) == a % Pow10(n)
  {
    ShiftLow(a, n);
    DivModUnique(a, Pow10(n), Shift(a, n), Low(a, n));
  }

  lemma {:induction false} DivModUnique(a: int, q: int, x: int, r: int)
    requires q > 0 && 0 <= r < q && a == x * q + r
    ensures a / q == x && a % q == r
  {
    SplitUnique(a, q, a / q, a % q, x, r);
  }
}
