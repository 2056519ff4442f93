/** `toBigIntSafe`: the ECMAScript `BigInt(string)` conversion, with the
    `SyntaxError` it raises on malformed text caught and replaced by zero. */
module JsBigInt {
  import opened Wrappers
  import opened Digits
  import opened Text

  /** The base a second character selects after a leading `0`: `x`, `o` or `b`
      in either case; 0 for any other character. */
  function RadixOf(c: char): nat {
    if c == 'x' || c == 'X' then 16
    else if c == 'o' || c == 'O' then 8
    else if c == 'b' || c == 'B' then 2
    else 0
  }

  /** The StringIntegerLiteral grammar of ECMA-262 (StringToBigInt): surrounding
      white space, then nothing (zero), a decimal numeral with an optional sign,
      or a `0x`/`0o`/`0b` numeral without a sign. None where `BigInt` throws. */
  function StringToBigInt(s: string): (r: Option<int>)
  {
    TrimmedToBigInt(Trim(s))
  }

  /** Only text holding a `-` converts to a negative value. */
  lemma {:induction false} StringToBigIntSign(s: string)
    ensures StringToBigInt(s).Some? && StringToBigInt(s).value < 0 ==> '-' in s
  {
    var t := Trim(s);
    if t != [] {
      TrimKeepsFirst(s, t);
    }
  }

  lemma {:induction false} TrimKeepsFirst(s: string, t: string)
    requires t == Trim(s) && t != []
    ensures t[0] in s
  {
    var i: nat, j: nat :| IsMiddle(s, i, j, t);
    assert t[0] == s[i];
  }

  /** The grammar once the surrounding white space is gone. */
  function TrimmedToBigInt(t: string): (r: Option<int>)
    ensures r.Some? && r.value < 0 ==> t != [] && t[0] == '-'
    ensures t != [] && AllDigits(t) ==> r == Some(Value(t))
  {
    if t == [] then Some(0)
    else if t[0] == '-' || t[0] == '+' then
      var digits := t[1..];
      if IsNumeral(digits) then
        var magnitude: int := Value(digits);
        Some(if t[0] == '-' then -magnitude else magnitude)
      else None
    else if |t| >= 2 && t[0] == '0' && RadixOf(t[1]) > 0 then
      var digits := t[2..];
      if digits != [] && AllDigitsIn(digits, RadixOf(t[1])) then Some(ValueIn(digits, RadixOf(t[1]))) else None
    else if AllDigits(t) then Some(Value(t))
    else None
  }

  function ToBigIntSafe(s: string): (r: int)
    ensures r == StringToBigInt(s).GetOr(0)
    ensures IsNumeral(s) ==> r == Value(s)
  {
    if IsNumeral(s) then NumeralConverts(s); StringToBigInt(s).GetOr(0)
    else StringToBigInt(s).GetOr(0)
  }

  /** A plain decimal numeral converts to its value. */
  lemma NumeralConverts(s: string)
    requires IsNumeral(s)
    ensures StringToBigInt(s) == Some(Value(s))
  {
    assert IsTrimmed(s);
    assert Trim(s) == s;
    assert !(s[0] == '-' || s[0] == '+');
    assert |s| >= 2 ==> RadixOf(s[1]) == 0;
  }

  /** Characters that can appear in some string `BigInt` accepts. */
  predicate InBigIntAlphabet(c: char) {
    IsWhitespace(c) || CharValue(c) < 16 || c == '+' || c == '-' || RadixOf(c) > 0
  }

  /** Any string holding a character outside that alphabet converts to zero. */
  lemma {:induction false} ToBigIntSafeRejects(s: string, i: nat)
    requires i < |s| && !InBigIntAlphabet(s[i])
    ensures StringToBigInt(s).None?
    ensures ToBigIntSafe(s) == 0
  {
    var t := Trim(s);
    TrimKeepsVisible(s, i);
    var j :| 0 <= j < |t| && t[j] == s[i];
    TrimmedRejects(t, j);
  }

  lemma {:induction false} TrimmedRejects(t: string, j: nat)
    requires j < |t| && !InBigIntAlphabet(t[j])
    ensures TrimmedToBigInt(t).None?
  {
    if t[0] == '-' || t[0] == '+' {
      SignedRejects(t, j);
    } else if |t| >= 2 && t[0] == '0' && RadixOf(t[1]) > 0 {
      PrefixedRejects(t, j);
    }
  }

  lemma {:induction false} SignedRejects(t: string, j: nat)
    requires j < |t| && !InBigIntAlphabet(t[j]) && (t[0] == '-' || t[0] == '+')
    ensures !IsNumeral(t[1..])
  {
    assert j >= 1;
    assert t[1..][j - 1] == t[j];
  }

  lemma {:induction false} PrefixedRejects(t: string, j: nat)
    requires j < |t| && !InBigIntAlphabet(t[j]) && |t| >= 2 && t[0] == '0' && RadixOf(t[1]) > 0
    ensures !AllDigitsIn(t[2..], RadixOf(t[1]))
  {
    assert j >= 2;
    assert t[2..][j - 2] == t[j];
  }

  /** Empty or all-blank text converts to zero without failing. */
  lemma ToBigIntSafeBlank(s: string)
    requires forall i :: 0 <= i < |s| ==> IsWhitespace(s[i])
    ensures StringToBigInt(s) == Some(0)
  {
  }

  /** Converting the rendering of any integer gives the integer back. */
  lemma {:induction false} ToBigIntSafeRoundTrip(i: int)
    ensures StringToBigInt(IntToString(i)) == Some(i)
    ensures ToBigIntSafe(IntToString(i)) == i
  {
    if i < 0 {
      NegativeRoundTrip(i, NatToString(-i));
    } else {
      NumeralConverts(NatToString(i));
    }
  }

  lemma {:induction false} NegativeRoundTrip(i: int, n: string)
    requires i < 0 && n == NatToString(-i)
    ensures StringToBigInt(IntToString(i)) == Some(i)
  {
    var s := IntToString(i);
    assert s[0] == '-' && s[1..] == n;
    assert IsTrimmed(s);
  }
}
