/** `formatUnits`: rendering an amount of base units as a decimal string scaled
    by 10^decimals, truncated to at most `maxFraction` fractional digits, using
    only integer arithmetic. */
module Units {
  import opened Wrappers
  import opened Digits
  import opened Text

  /** BigInt `/`: the quotient truncated toward zero. */
  function TruncDiv(a: int, b: int): int
    requires b > 0
  {
    if a >= 0 then a / b else -((-a) / b)
  }

  /** BigInt `%`: the remainder carries the sign of the dividend. */
  function TruncMod(a: int, b: int): int
    requires b > 0
  {
    if a >= 0 then a % b else -((-a) % b)
  }

  /** BigInt division and remainder recompose the dividend, and the remainder
      is smaller than the divisor and carries the sign of the dividend. */
  lemma {:induction false} TruncDivMod(a: int, b: int)
    requires b > 0
    ensures a == TruncDiv(a, b) * b + TruncMod(a, b)
    ensures -b < TruncMod(a, b) < b
    ensures a >= 0 ==> TruncMod(a, b) >= 0
    ensures a < 0 ==> TruncMod(a, b) <= 0
  {
    var m := if a >= 0 then a else -a;
    assert m == (m / b) * b + m % b;
  }

  /** `a / 10^n` with BigInt truncation, computed one decimal digit at a time. */
  function ScaledDiv(a: int, n: nat): int
  {
    if a >= 0 then Shift(a, n) else -(Shift(-a, n) as int)
  }

  /** `a % 10^n` with BigInt's sign rule, computed one decimal digit at a time. */
  function ScaledMod(a: int, n: nat): int
  {
    if a >= 0 then Low(a, n) else -(Low(-a, n) as int)
  }

  /** Dividing digit by digit agrees with BigInt `/` and `%` by `10n ** BigInt(n)`. */
  lemma {:induction false} ScaledDivision(a: int, n: nat)
    ensures ScaledDiv(a, n) == TruncDiv(a, Pow10(n))
    ensures ScaledMod(a, n) == TruncMod(a, Pow10(n))
  {
    if a >= 0 {
      ShiftIsDiv(a, n);
    } else {
      ShiftIsDiv(-a, n);
    }
  }

  /** `s.padStart(width, "0")`. */
  function PadStart(s: string, width: nat): (r: string)
    ensures |r| == if |s| >= width then |s| else width
  {
    if |s| >= width then s else Zeros(width - |s|) + s
  }

  /** Padding puts zeros in front and keeps the text. */
  lemma {:induction false} PadStartZeros(s: string, width: nat)
    ensures PadStart(s, width) == Zeros(|PadStart(s, width)| - |s|) + s
  {
    if |s| >= width {
      assert Zeros(0) + s == s;
    }
  }

  /** `s.replace(/0+$/, "")`: drops the maximal run of trailing zeros. */
  function StripTrailingZeros(s: string): (r: string)
    ensures |r| <= |s| && r == s[..|r|]
    ensures r == [] || r[|r| - 1] != '0'
    decreases |s|
  {
    if s != [] && s[|s| - 1] == '0' then StripTrailingZeros(s[..|s| - 1]) else s
  }

  /** The fractional text of lines 40-46: the remainder padded to `decimals`
      digits, cut to `maxFraction` digits, trailing zeros removed. */
  function FractionText(frac: int, decimals: nat, maxFraction: nat): string
  {
    var padded := PadStart(IntToString(frac), decimals);
    var cut := if |padded| > maxFraction then padded[..maxFraction] else padded;
    StripTrailingZeros(cut)
  }

  /** `formatUnits(amount, decimals, maxFraction)`. The quotient and remainder by
      `10n ** BigInt(decimals)` are taken digit by digit (see ScaledDivision). */
  function FormatUnits(amount: int, decimals: int, maxFraction: nat): string
  {
    if decimals <= 0 then IntToString(amount)
    else
      var whole := ScaledDiv(amount, decimals);
      var frac := ScaledMod(amount, decimals);
      if frac == 0 then IntToString(whole)
      else
        var fracStr := FractionText(frac, decimals, maxFraction);
        if |fracStr| > 0 then IntToString(whole) + "." + fracStr else IntToString(whole)
  }

  /** A whole part, then a point and the fractional text when there is one. */
  function Rendered(whole: nat, text: string): string
  {
    if text == [] then NatToString(whole) else NatToString(whole) + "." + text
  }

  /** The remainder `amount % 10^d` written with exactly `d` digits. */
  function PaddedFraction(amount: nat, d: nat): (p: string)
    requires d >= 1
    ensures |p| == d && AllDigits(p) && Value(p) == amount % Pow10(d)
  {
    ShiftLow(amount, d);
    ShiftIsDiv(amount, d);
    PaddedDigits(Low(amount, d), d);
    PadStart(NatToString(Low(amount, d)), d)
  }

  /** The number of base units a decimal string denotes at `d` decimals: a
      numeral, or a numeral, a point and at most `d` fractional digits. */
  function ParseUnits(text: string, d: nat): Option<int>
  {
    var parts := Split(text, '.');
    if |parts| == 1 && IsNumeral(parts[0]) then Some(Value(parts[0]) * Pow10(d))
    else if |parts| == 2 && IsNumeral(parts[0]) && IsNumeral(parts[1]) && |parts[1]| <= d then
      Some(Value(parts[0]) * Pow10(d) + Value(parts[1]) * Pow10(d - |parts[1]|))
    else None
  }

  /** `amount` with every digit past the `maxFraction`-th fractional place set to
      zero: rounded down to a multiple of 10^(d - min(maxFraction, d)). */
  function TruncateUnits(amount: nat, d: nat, maxFraction: nat): int
  {
    amount - amount % Pow10(d - Min(maxFraction, d))
  }

  lemma {:induction false} NoPointInDigits(s: string)
    requires AllDigits(s)
    ensures '.' !in s
  {
  }

  /** A numeral with a non-zero last digit is not zero. */
  lemma {:induction false} NonZeroLastDigit(s: string)
    requires IsNumeral(s) && s[|s| - 1] != '0'
    ensures Value(s) >= 1
  {
    assert s == s[..|s| - 1] + [s[|s| - 1]];
    ValueSnoc(s[..|s| - 1], s[|s| - 1]);
  }

  /** Left-padding a remainder below 10^d gives exactly `d` digits of the same value. */
  lemma {:induction false} PaddedDigits(f: nat, d: nat)
    requires d >= 1 && f < Pow10(d)
    ensures var p := PadStart(NatToString(f), d);
            |p| == d && AllDigits(p) && Value(p) == f
  {
    var s := NatToString(f);
    NatToStringLength(f, d);
    PadStartZeros(s, d);
    ValueLeadingZeros(d - |s|, s);
  }

  /** The first `k` of `n` digits are the value with its last `n - k` digits dropped. */
  lemma {:induction false} PrefixValue(p: string, k: nat, n: nat)
    requires AllDigits(p) && k <= |p| == n
    ensures AllDigits(p[..k])
    ensures Value(p[..k]) * Pow10(n - k) == Value(p) - Low(Value(p), n - k)
  {
    var rest := p[k..];
    assert p == p[..k] + rest;
    ValueAppend(p[..k], rest);
    ValueBound(rest);
    ShiftUnique(Value(p), n - k, Value(p[..k]), Value(rest));
  }

  /** Only zeros are dropped. */
  lemma {:induction false} StripDropsZeros(s: string)
    ensures s == StripTrailingZeros(s) + Zeros(|s| - |StripTrailingZeros(s)|)
    decreases |s|
  {
    if s != [] && s[|s| - 1] == '0' {
      var s' := s[..|s| - 1];
      StripDropsZeros(s');
      assert s == s' + ['0'];
      assert Zeros(|s| - |StripTrailingZeros(s)|) == Zeros(|s'| - |StripTrailingZeros(s')|) + ['0'];
    } else {
      assert Zeros(0) == [];
    }
  }

  /** Trailing zeros scale the value by a power of ten. */
  lemma {:induction false} StripValue(s: string)
    requires AllDigits(s)
    ensures var r := StripTrailingZeros(s);
            AllDigits(r) && Value(s) == Value(r) * Pow10(|s| - |r|)
  {
    var r := StripTrailingZeros(s);
    StripDropsZeros(s);
    ValueTrailingZeros(r, |s| - |r|);
  }

  lemma {:induction false} FractionValue(t: nat, c: nat, a: nat, b: nat, n: nat)
    requires c == t * Pow10(a) && n == a + b
    ensures t * Pow10(n) == c * Pow10(b)
  {
    Pow10Add(a, b);
    MulAssoc(t, Pow10(a), Pow10(b));
  }

  /** Cutting a digit string at `k` and dropping trailing zeros keeps a prefix
      of at most `k` digits that does not end in zero. */
  lemma {:induction false} CutShape(p: string, k: nat, text: string)
    requires AllDigits(p) && k <= |p| && text == StripTrailingZeros(p[..k])
    ensures AllDigits(text) && |text| <= k
    ensures text == [] || text[|text| - 1] != '0'
    ensures text <= p
  {
  }

  /** Dropping trailing zeros from the cut scales its value down by a power of ten. */
  lemma {:induction false} CutScaled(p: string, k: nat, text: string)
    requires AllDigits(p) && k <= |p| && text == StripTrailingZeros(p[..k])
    ensures AllDigits(text) && |text| <= |p|
    ensures Value(text) * Pow10(|p| - |text|) == Value(p[..k]) * Pow10(|p| - k)
  {
    StripValue(p[..k]);
    FractionValue(Value(text), Value(p[..k]), k - |text|, |p| - k, |p| - |text|);
  }

  /** The value of the cut: `p` with its last `n - k` digits set to zero. */
  lemma {:induction false} CutValue(p: string, k: nat, text: string, n: nat)
    requires AllDigits(p) && k <= |p| == n && text == StripTrailingZeros(p[..k])
    ensures AllDigits(text) && |text| <= n
    ensures Value(text) * Pow10(n - |text|) == Value(p) - Low(Value(p), n - k)
  {
    CutScaled(p, k, text);
    PrefixValue(p, k, n);
  }

  /** The fractional text is the zero-padded remainder, cut and stripped. */
  lemma {:induction false} FractionTextCut(f: nat, d: nat, mf: nat, p: string)
    requires p == PadStart(NatToString(f), d) && |p| == d
    ensures FractionText(f, d, mf) == StripTrailingZeros(p[..Min(mf, d)])
  {
    if d <= mf {
      assert p[..d] == p;
    }
  }

  /** The fractional text of a remainder `f < 10^d` is at most `min(mf, d)`
      digits that do not end in zero. */
  lemma {:induction false} FractionTextDigits(f: nat, d: nat, mf: nat)
    requires d >= 1 && f < Pow10(d)
    ensures var text := FractionText(f, d, mf);
            && AllDigits(text) && |text| <= Min(mf, d)
            && (text == [] || text[|text| - 1] != '0')
  {
    var p := PadStart(NatToString(f), d);
    PaddedDigits(f, d);
    FractionTextCut(f, d, mf, p);
    CutShape(p, Min(mf, d), FractionText(f, d, mf));
  }

  /** The fractional text starts the zero-padded remainder. */
  lemma {:induction false} FractionTextPrefix(f: nat, d: nat, mf: nat)
    requires d >= 1 && f < Pow10(d)
    ensures FractionText(f, d, mf) <= PadStart(NatToString(f), d)
  {
    var p := PadStart(NatToString(f), d);
    PaddedDigits(f, d);
    FractionTextCut(f, d, mf, p);
    CutShape(p, Min(mf, d), FractionText(f, d, mf));
  }

  /** The fractional text read at `d` places is the remainder with its last
      `d - min(mf, d)` digits set to zero. */
  lemma {:induction false} FractionTextValue(f: nat, d: nat, mf: nat)
    requires d >= 1 && f < Pow10(d)
    ensures var text := FractionText(f, d, mf);
            && AllDigits(text) && |text| <= d
            && Value(text) * Pow10(d - |text|) == f - Low(f, d - Min(mf, d))
  {
    var p := PadStart(NatToString(f), d);
    PaddedDigits(f, d);
    FractionTextCut(f, d, mf, p);
    CutValue(p, Min(mf, d), FractionText(f, d, mf), d);
  }

  /** A digit string without a trailing zero, scaled by `P >= 1`, that equals `f`
      with its last `m` digits zeroed is empty exactly when `f < 10^m`. */
  lemma {:induction false} EmptyIffBelow(text: string, P: nat, f: nat, m: nat)
    requires AllDigits(text) && (text == [] || text[|text| - 1] != '0')
    requires P >= 1 && Value(text) * P == f - Low(f, m)
    ensures text != [] <==> f >= Pow10(m)
  {
    ShiftLow(f, m);
    ShiftPositive(f, m);
    if text != [] {
      NonZeroLastDigit(text);
      MulAtLeast(Value(text), P);
      assert Shift(f, m) * Pow10(m) >= 1;
    } else {
      assert Shift(f, m) * Pow10(m) == 0;
      if Shift(f, m) >= 1 {
        MulAtLeast(Shift(f, m), Pow10(m));
      }
    }
  }

  /** The fractional text is empty exactly when the remainder is below 10^(d - min(mf, d)). */
  lemma {:induction false} FractionTextEmpty(f: nat, d: nat, mf: nat)
    requires d >= 1 && f < Pow10(d)
    ensures FractionText(f, d, mf) != [] <==> f >= Pow10(d - Min(mf, d))
  {
    var text := FractionText(f, d, mf);
    FractionTextDigits(f, d, mf);
    FractionTextValue(f, d, mf);
    EmptyIffBelow(text, Pow10(d - |text|), f, d - Min(mf, d));
  }

  /** For `d >= 1` and a non-negative amount the result is the quotient, then a
      point and the fractional text of the remainder when that text is not empty. */
  lemma {:induction false} FormatUnitsDecompose(amount: nat, d: nat, mf: nat)
    requires d >= 1
    ensures FormatUnits(amount, d, mf) == Rendered(Shift(amount, d), FractionText(Low(amount, d), d, mf))
  {
    ShiftLow(amount, d);
    if Low(amount, d) == 0 {
      FractionTextEmpty(0, d, mf);
    }
  }

  lemma {:induction false} SplitUnits(w: string, text: string)
    requires AllDigits(w) && AllDigits(text)
    ensures Split(w + "." + text, '.') == [w, text]
  {
    NoPointInDigits(w);
    NoPointInDigits(text);
    SplitAppend(w, text, '.');
    SplitNoSeparator(w, '.');
    SplitNoSeparator(text, '.');
  }

  /** The pieces between the points of a rendered amount. */
  lemma {:induction false} SplitRendered(whole: nat, text: string)
    requires AllDigits(text)
    ensures Split(Rendered(whole, text), '.')
            == if text == [] then [NatToString(whole)] else [NatToString(whole), text]
  {
    var w := NatToString(whole);
    if text == [] {
      NoPointInDigits(w);
      SplitNoSeparator(w, '.');
    } else {
      SplitUnits(w, text);
    }
  }

  /** The pieces between the points of `formatUnits`' result, built directly. */
  function Pieces(amount: nat, d: nat, mf: nat): seq<string>
  {
    if d == 0 then [NatToString(amount)]
    else
      var text := FractionText(Low(amount, d), d, mf);
      if text == [] then [NatToString(Shift(amount, d))] else [NatToString(Shift(amount, d)), text]
  }

  lemma {:induction false} PiecesOfFormat(amount: nat, d: nat, mf: nat)
    ensures Split(FormatUnits(amount, d, mf), '.') == Pieces(amount, d, mf)
  {
    if d == 0 {
      var r := FormatUnits(amount, d, mf);
      NoPointInDigits(r);
      SplitNoSeparator(r, '.');
    } else {
      var f := Low(amount, d);
      ShiftLow(amount, d);
      FormatUnitsDecompose(amount, d, mf);
      FractionTextDigits(f, d, mf);
      SplitRendered(Shift(amount, d), FractionText(f, d, mf));
    }
  }

  /** The text is one or two pieces around a point, the first being the
      quotient `amount / 10^d` as a canonical numeral. */
  lemma {:induction false} FormatUnitsWhole(amount: nat, d: nat, mf: nat)
    ensures var parts := Split(FormatUnits(amount, d, mf), '.');
            && (|parts| == 1 || |parts| == 2)
            && IsCanonical(parts[0]) && Value(parts[0]) == amount / Pow10(d)
  {
    WholePiece(amount, d, mf);
    ShiftIsDiv(amount, d);
  }

  lemma {:induction false} WholePiece(amount: nat, d: nat, mf: nat)
    ensures var parts := Split(FormatUnits(amount, d, mf), '.');
            && (|parts| == 1 || |parts| == 2)
            && IsCanonical(parts[0]) && Value(parts[0]) == Shift(amount, d)
  {
    PiecesOfFormat(amount, d, mf);
  }

  /** A point is printed exactly when the remainder `amount % 10^d` survives
      the truncation to `min(mf, d)` fractional digits. */
  lemma {:induction false} FormatUnitsPoint(amount: nat, d: nat, mf: nat)
    ensures |Split(FormatUnits(amount, d, mf), '.')| == 2 <==> amount % Pow10(d) >= Pow10(d - Min(mf, d))
  {
    PointPiece(amount, d, mf);
    ShiftIsDiv(amount, d);
  }

  lemma {:induction false} PointPiece(amount: nat, d: nat, mf: nat)
    ensures |Split(FormatUnits(amount, d, mf), '.')| == 2 <==> Low(amount, d) >= Pow10(d - Min(mf, d))
  {
    PiecesOfFormat(amount, d, mf);
    if d >= 1 {
      ShiftLow(amount, d);
      FractionTextEmpty(Low(amount, d), d, mf);
    }
  }

  /** After the point come at most `min(mf, d)` digits that start the
      zero-padded remainder and do not end in zero. */
  lemma {:induction false} FormatUnitsFraction(amount: nat, d: nat, mf: nat)
    ensures var parts := Split(FormatUnits(amount, d, mf), '.');
            |parts| == 2 ==>
              && IsNumeral(parts[1])
              && |parts[1]| <= Min(mf, d)
              && parts[1][|parts[1]| - 1] != '0'
              && d >= 1 && parts[1] <= PaddedFraction(amount, d)
  {
    PiecesOfFormat(amount, d, mf);
    if d >= 1 {
      var f := Low(amount, d);
      ShiftLow(amount, d);
      FractionPiece(amount, d, mf, FractionText(f, d, mf));
    }
  }

  lemma {:induction false} FractionPiece(amount: nat, d: nat, mf: nat, text: string)
    requires d >= 1 && Low(amount, d) < Pow10(d) && text == FractionText(Low(amount, d), d, mf)
    ensures text != [] ==>
              && IsNumeral(text)
              && |text| <= Min(mf, d)
              && text[|text| - 1] != '0'
              && text <= PaddedFraction(amount, d)
  {
    FractionTextDigits(Low(amount, d), d, mf);
    FractionTextPrefix(Low(amount, d), d, mf);
  }

  /** Reading back a whole part and a fractional text. */
  lemma {:induction false} ParseOfParts(whole: nat, text: string, d: nat)
    requires AllDigits(text) && |text| <= d
    ensures ParseUnits(Rendered(whole, text), d) == Some(whole * Pow10(d) + Value(text) * Pow10(d - |text|))
  {
    if text == [] {
      ParseOfWhole(whole, d, whole * Pow10(d) + Value(text) * Pow10(d - |text|));
    } else {
      ParseOfFraction(whole, text, d);
    }
  }

  lemma {:induction false} ParseOfWhole(whole: nat, d: nat, x: int)
    requires x == whole * Pow10(d)
    ensures ParseUnits(Rendered(whole, []), d) == Some(x)
  {
    SplitRendered(whole, []);
  }

  lemma {:induction false} ParseOfFraction(whole: nat, text: string, d: nat)
    requires AllDigits(text) && text != [] && |text| <= d
    ensures ParseUnits(Rendered(whole, text), d) == Some(whole * Pow10(d) + Value(text) * Pow10(d - |text|))
  {
    SplitRendered(whole, text);
  }

  /** The text read back: the whole part and the value of the fractional text. */
  lemma {:induction false} ReadBackParts(amount: nat, d: nat, mf: nat, text: string, x: int)
    requires d >= 1 && AllDigits(text) && |text| <= d
    requires text == FractionText(Low(amount, d), d, mf)
    requires x == Shift(amount, d) * Pow10(d) + Value(text) * Pow10(d - |text|)
    ensures ParseUnits(FormatUnits(amount, d, mf), d) == Some(x)
  {
    FormatUnitsDecompose(amount, d, mf);
    ParseOfParts(Shift(amount, d), text, d);
  }

  /** The truncated amount split at the `d`-th place the same way. */
  lemma {:induction false} TruncateScaled(amount: nat, d: nat, mf: nat)
    ensures var f := Low(amount, d);
            TruncateUnits(amount, d, mf) == Shift(amount, d) * Pow10(d) + (f - Low(f, d - Min(mf, d)))
  {
    ShiftLow(amount, d);
    LowLow(amount, d - Min(mf, d), d);
    ShiftIsDiv(amount, d - Min(mf, d));
  }

  /** The value read back, in terms of the fractional text, is the truncated amount. */
  lemma {:induction false} ReadBackValue(amount: nat, d: nat, mf: nat, text: string)
    requires AllDigits(text) && |text| <= d
    requires Value(text) * Pow10(d - |text|) == Low(amount, d) - Low(Low(amount, d), d - Min(mf, d))
    ensures Shift(amount, d) * Pow10(d) + Value(text) * Pow10(d - |text|) == TruncateUnits(amount, d, mf)
  {
    TruncateScaled(amount, d, mf);
  }

  lemma {:induction false} TruncatesScaled(amount: nat, d: nat, mf: nat)
    requires d >= 1
    ensures ParseUnits(FormatUnits(amount, d, mf), d) == Some(TruncateUnits(amount, d, mf))
  {
    var f := Low(amount, d);
    ShiftLow(amount, d);
    var text := FractionText(f, d, mf);
    FractionTextValue(f, d, mf);
    ReadBackValue(amount, d, mf, text);
    ReadBackParts(amount, d, mf, text, TruncateUnits(amount, d, mf));
  }

  lemma {:induction false} TruncatesUnscaled(amount: nat, mf: nat)
    ensures ParseUnits(FormatUnits(amount, 0, mf), 0) == Some(amount)
  {
    var r := FormatUnits(amount, 0, mf);
    NoPointInDigits(r);
    SplitNoSeparator(r, '.');
  }

  /** Formatting truncates: reading the text back gives the amount with the
      digits past the `mf`-th fractional place dropped, never rounded up. */
  lemma {:induction false} FormatUnitsTruncates(amount: nat, d: nat, mf: nat)
    ensures ParseUnits(FormatUnits(amount, d, mf), d) == Some(TruncateUnits(amount, d, mf))
  {
    if d == 0 {
      TruncatesUnscaled(amount, mf);
    } else {
      TruncatesScaled(amount, d, mf);
    }
  }

  /** With room for every decimal place the text denotes the amount exactly. */
  lemma {:induction false} FormatUnitsExact(amount: nat, d: nat, mf: nat)
    requires mf >= d
    ensures ParseUnits(FormatUnits(amount, d, mf), d) == Some(amount)
  {
    FormatUnitsTruncates(amount, d, mf);
    assert Min(mf, d) == d;
  }

  /** Without a positive scale the amount is printed as a plain numeral. */
  lemma {:induction false} FormatUnitsUnscaled(amount: nat, decimals: int, mf: nat)
    requires decimals <= 0
    ensures var r := FormatUnits(amount, decimals, mf);
            IsCanonical(r) && Value(r) == amount && '.' !in r
  {
    NoPointInDigits(FormatUnits(amount, decimals, mf));
  }

  /** An exact multiple of 10^d is printed as its quotient, without a point. */
  lemma {:induction false} FormatUnitsMultiple(amount: nat, d: nat, mf: nat)
    requires amount % Pow10(d) == 0
    ensures var r := FormatUnits(amount, d, mf);
            IsCanonical(r) && Value(r) == amount / Pow10(d) && '.' !in r
  {
    ShiftIsDiv(amount, d);
    MultiplePiece(amount, d, mf);
  }

  lemma {:induction false} MultiplePiece(amount: nat, d: nat, mf: nat)
    requires Low(amount, d) == 0
    ensures var r := FormatUnits(amount, d, mf);
            IsCanonical(r) && Value(r) == Shift(amount, d) && '.' !in r
  {
    var r := FormatUnits(amount, d, mf);
    WholePiece(amount, d, mf);
    PointPiece(amount, d, mf);
    var parts := Split(r, '.');
    assert |parts| == 1;
    assert r == Join(parts, '.') == parts[0];
    NoPointInDigits(r);
  }

  /** A zero amount is printed as "0" whatever the scale. */
  lemma {:induction false} FormatUnitsZero(decimals: int, mf: nat)
    ensures FormatUnits(0, decimals, mf) == "0"
  {
    if decimals > 0 {
      ShiftLowZero(decimals);
    }
    assert NatToString(0) == "0";
  }

  /** One token with eighteen decimals, shown to six places. */
  lemma {:induction false} FormatUnitsExample(amount: nat)
    requires amount == 1234567890123456789
    ensures FormatUnits(amount, 18, 6) == "1.234567"
  {
    ExampleQuotient(amount);
    var f := Low(amount, 18);
    ExampleFraction(f);
    ExampleRendered(Shift(amount, 18), FractionText(f, 18, 6));
    FormatUnitsDecompose(amount, 18, 6);
  }

  lemma {:induction false} ExampleRendered(whole: nat, text: string)
    requires whole == 1 && text == "234567"
    ensures Rendered(whole, text) == "1.234567"
  {
    assert NatToString(1) == "1";
  }

  lemma {:induction false} ExamplePowers()
    ensures Pow10(12) == 1000000000000
    ensures Pow10(17) == 100000000000000000
    ensures Pow10(18) == 1000000000000000000
  {
    assert Pow10(6) == 1000000;
    Pow10Add(6, 6);
    Pow10Add(12, 6);
    assert Pow10(18) == 10 * Pow10(17);
  }

  lemma {:induction false} ExampleQuotient(amount: nat)
    requires amount == 1234567890123456789
    ensures Shift(amount, 18) == 1 && Low(amount, 18) == 234567890123456789
  {
    ExamplePowers();
    ShiftUnique(amount, 18, 1, 234567890123456789);
  }

  lemma {:induction false} ExamplePadded(f: nat)
    requires f == 234567890123456789
    ensures |NatToString(f)| == 18 && PadStart(NatToString(f), 18) == NatToString(f)
  {
    ExamplePowers();
    NatToStringLength(f, 18);
  }

  lemma {:induction false} ExampleHeadValue(f: nat, p: string)
    requires f == 234567890123456789 && AllDigits(p) && Value(p) == f && |p| == 18
    ensures AllDigits(p[..6]) && Value(p[..6]) == 234567
  {
    ExamplePowers();
    PrefixValue(p, 6, 18);
    ShiftUnique(f, 12, 234567, 890123456789);
  }

  lemma {:induction false} ExampleDigits()
    ensures NatToString(234567) == "234567"
  {
    assert NatToString(2) == "2";
    assert NatToString(23) == "23";
    assert NatToString(234) == "234";
    assert NatToString(2345) == "2345";
    assert NatToString(23456) == "23456";
  }

  lemma {:induction false} ExampleHead(f: nat, p: string)
    requires f == 234567890123456789 && p == NatToString(f) && |p| == 18
    ensures p[..6] == "234567"
  {
    var q := p[..6];
    ExampleHeadValue(f, p);
    assert IsCanonical(q) by {
      assert q[0] == p[0];
    }
    NatToStringOfValue(q);
    ExampleDigits();
  }

  lemma {:induction false} ExampleFraction(f: nat)
    requires f == 234567890123456789
    ensures FractionText(f, 18, 6) == "234567"
  {
    var p := NatToString(f);
    ExamplePadded(f);
    FractionTextCut(f, 18, 6, p);
    ExampleHead(f, p);
    assert StripTrailingZeros("234567") == "234567";
  }

  /** A negative amount, which `BigInt` lets through from a signed string, has
      a zero quotient and a negative remainder: the text carries the sign after
      the point. */
  lemma {:induction false} FormatUnitsNegative()
    ensures FormatUnits(-5, 2, 6) == "0.-5"
  {
    assert Shift(5, 2) == 0 && Low(5, 2) == 5;
    assert IntToString(-5) == "-5" by {
      assert NatToString(5) == "5";
    }
    assert PadStart("-5", 2) == "-5";
    assert StripTrailingZeros("-5") == "-5";
    assert FractionText(-5, 2, 6) == "-5";
    assert IntToString(0) == "0" by {
      assert NatToString(0) == "0";
    }
  }
}
