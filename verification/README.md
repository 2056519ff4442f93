# VOTA balances endpoint, modelled in Dafny

This project models `GET /api/vota/balances` of the cosmos-multisig-ui web application. The handler takes a comma-separated list of addresses, and optionally matching lists of names and alert thresholds. For each address it fetches the bank balance in base units (`peaka`). It renders the balance in display units (`DORA`) by dividing by a divisor, 10^18 by default, and keeps at most six fraction digits. When a row has a threshold, the row also says whether the balance is below it.

The modules follow the helpers of `pages/api/vota/balances.ts`:

- `Csv`: `parseCSVParam`. A query value is absent, one string, or a repeated key (`Many`). It becomes trimmed, non-empty, comma-free tokens, in order.
- `JsBigInt`: `toBigIntSafe`. This is the full ECMAScript `StringToBigInt` grammar of `BigInt(string)`:
  - surrounding white space is ignored;
  - an empty string gives zero;
  - a decimal numeral may carry a sign;
  - `0x`, `0o` and `0b` numerals carry no sign.
  
  Text that does not fit the grammar gives `0`, as the caught `SyntaxError` does.
- `Units`: `formatUnits`.
  - BigInt `/` truncates toward zero, and `%` takes the sign of the dividend (`TruncDiv` and `TruncMod`).
  - The quotient and remainder by 10^d are computed one decimal digit at a time (`Shift` and `Low` in `Digits`). `ScaledDivision` proves that this agrees with BigInt `/` and `%` by `10n ** BigInt(d)`.
  - `ParseUnits` reads a decimal string back into base units at a given scale. It is the reference the rendering is checked against: reading back the text gives the amount truncated to six fraction digits.
- `Text`: the ECMAScript `trim`, `split` and `join` the helpers rely on.
- `Digits`: decimal numerals and their values.
- `Balances`: the handler itself:
  - the divisor text and the `^10+$` decimals rule;
  - the rejection of a request without addresses;
  - index alignment of names and thresholds;
  - assembly of one row per address.

Some parts of the handler are passed in as parameters:

- The result of each balance fetch is data: `fetched(i)` is the outcome of the request for the i-th address. `None` stands for:
  - a network error;
  - a non-2xx status;
  - a body that is not JSON;
  - a missing or null `balance.amount`.
- JavaScript numbers are a type parameter `F`.
- `Number(text)` followed by `Number.isFinite` is a function `string -> Option<F>`.
- `<` on numbers is a function `(F, F) -> bool`.
- The decimals that the `Math.log10` route gives for a divisor not written as `1` and zeros is an integer parameter, `fallback`.

## Model

| member | source | states |
|---|---|---|
| Csv.ParseCSVParam | pages/api/vota/balances.ts:12-20 | every token is non-empty, trimmed and comma-free; an absent or empty parameter gives no tokens |
| Csv.CleanSegments | pages/api/vota/balances.ts:17-19 | at most one token per segment, every token trimmed and non-empty; a single segment yields its trimmed text, or nothing when that is empty |
| Csv.CleanAppend | pages/api/vota/balances.ts:17-19 | the segments are cleaned one after the other: cleaning a concatenation concatenates the results |
| Csv.ParseSegment | pages/api/vota/balances.ts:16-19 | a comma-free piece yields its trimmed text, or nothing when that is empty |
| Csv.ParseJoinRoundTrip | pages/api/vota/balances.ts:12-20 | joining tokens with commas and parsing the result gives the same tokens back |
| Csv.ParseConcat | pages/api/vota/balances.ts:16-19 | the tokens of `a,b` are the tokens of `a` followed by those of `b`, so order is kept |
| Csv.ParseMany | pages/api/vota/balances.ts:13-14 | a repeated key yields the tokens of each of its values, one value after the other |
| Text.Trim | pages/api/vota/balances.ts:18 | the result is one unbroken stretch of the text with only white space before and after it, and it has no white space at either end; already-trimmed text is unchanged |
| Text.TrimKeepsVisible | pages/api/vota/balances.ts:18 | every character that is not white space is still in the trimmed text |
| Text.Join | pages/api/vota/balances.ts:14 | `value.join(",")`, also `String(array)` at line 66; pinned by SplitJoin and ParseJoinRoundTrip, which undo it |
| Text.Split | pages/api/vota/balances.ts:17 | at least one part; no part holds the separator; joining the parts restores the text |
| Text.SplitJoin | pages/api/vota/balances.ts:14-17 | splitting inverts joining for separator-free parts |
| JsBigInt.StringToBigInt | pages/api/vota/balances.ts:24 | `BigInt(s)`, `None` where it throws; pinned by StringToBigIntSign, ToBigIntSafeRejects, ToBigIntSafeBlank and ToBigIntSafeRoundTrip |
| JsBigInt.StringToBigIntSign | pages/api/vota/balances.ts:24 | a negative value comes only from text that holds a `-` |
| JsBigInt.TrimmedToBigInt | pages/api/vota/balances.ts:24 | the literal grammar once white space is cut: a negative value only after a leading `-`, and a string of decimal digits converts to its value |
| JsBigInt.ToBigIntSafe | pages/api/vota/balances.ts:22-28 | total: zero where `BigInt` throws, the converted value otherwise, and the value of a decimal numeral for a numeral |
| JsBigInt.ToBigIntSafeRejects | pages/api/vota/balances.ts:23-27 | a string with any character that no `BigInt` literal can contain converts to zero |
| JsBigInt.ToBigIntSafeBlank | pages/api/vota/balances.ts:24 | empty or all-blank text converts to zero without an error |
| JsBigInt.ToBigIntSafeRoundTrip | pages/api/vota/balances.ts:22-28 | converting the decimal rendering of any integer, negative ones included, gives the integer back |
| Digits.NatToString | pages/api/vota/balances.ts:32-47 | `toString()` of a non-negative BigInt: a canonical numeral whose value is the number; NatToStringOfValue is its inverse |
| Digits.IntToString | pages/api/vota/balances.ts:32-47 | `toString()` of any BigInt: a `-` before the numeral of the magnitude for a negative value; ToBigIntSafeRoundTrip reads it back |
| Units.FormatUnits | pages/api/vota/balances.ts:31-48 | `formatUnits` itself; its output is pinned by FormatUnitsWhole, FormatUnitsPoint, FormatUnitsFraction and FormatUnitsTruncates |
| Units.TruncDivMod | pages/api/vota/balances.ts:34-35 | BigInt quotient times divisor plus remainder is the dividend; the remainder is smaller than the divisor and has the dividend's sign |
| Units.ScaledDivision | pages/api/vota/balances.ts:33-35 | the digit-by-digit quotient and remainder equal BigInt `/` and `%` by 10^decimals |
| Units.PadStart | pages/api/vota/balances.ts:40 | the padded text is as long as the wider of the text and the width |
| Units.PadStartZeros | pages/api/vota/balances.ts:40 | padding only puts zeros in front of the text |
| Units.StripTrailingZeros | pages/api/vota/balances.ts:46 | the result is a prefix of the input that does not end in '0' |
| Units.StripDropsZeros | pages/api/vota/balances.ts:46 | exactly zeros were removed: the input is the result followed by zeros |
| Units.FractionTextDigits | pages/api/vota/balances.ts:40-46 | the fraction text is all digits, has at most `min(maxFraction, decimals)` of them, and does not end in '0' |
| Units.FractionTextPrefix | pages/api/vota/balances.ts:40-44 | the fraction text is a prefix of the zero-padded remainder |
| Units.FractionTextEmpty | pages/api/vota/balances.ts:42-47 | the fraction text is empty exactly when the remainder is below 10^(decimals - min(maxFraction, decimals)) |
| Units.FormatUnitsWhole | pages/api/vota/balances.ts:33-47 | for a non-negative amount the output is one or two `.`-separated parts, and the first is the canonical numeral of `amount / 10^decimals` |
| Units.FormatUnitsPoint | pages/api/vota/balances.ts:37-47 | for a non-negative amount, a point is printed if and only if `amount % 10^decimals` is at least 10^(decimals - min(maxFraction, decimals)), that is, the remainder survives truncation to `maxFraction` digits |
| Units.FormatUnitsFraction | pages/api/vota/balances.ts:40-47 | for a non-negative amount, after the point: at most `min(maxFraction, decimals)` digits, not ending in '0', a prefix of the zero-padded remainder |
| Units.FormatUnitsTruncates | pages/api/vota/balances.ts:31-48 | reading the output back at the same scale gives the amount with every digit below the `maxFraction`-th fraction place cleared |
| Units.FormatUnitsExact | pages/api/vota/balances.ts:31-48 | with `maxFraction >= decimals` nothing is lost: the output reads back to the non-negative amount itself |
| Units.FormatUnitsUnscaled | pages/api/vota/balances.ts:32 | with `decimals <= 0` a non-negative amount prints as its canonical numeral, with no point |
| Units.FormatUnitsMultiple | pages/api/vota/balances.ts:37 | for a non-negative amount with `amount % 10^decimals == 0` the output is the canonical numeral of `amount / 10^decimals`, with no point |
| Units.FormatUnitsZero | pages/api/vota/balances.ts:32-37 | zero base units print as `"0"` at every scale |
| Units.FormatUnitsExample | pages/api/vota/balances.ts:31-48 | `1234567890123456789` at 18 decimals with 6 fraction digits prints as `"1.234567"` |
| Units.FormatUnitsNegative | pages/api/vota/balances.ts:34-47 | a negative amount keeps its sign in the remainder: -5 at 2 decimals prints as `"0.-5"` |
| Balances.DivisorText | pages/api/vota/balances.ts:59-66 | an absent or empty divisor parameter stands for 10^18; a given string is used as it is |
| Balances.Decimals | pages/api/vota/balances.ts:65-73 | a divisor matching `^10+$` gives at least 1 decimal and is the canonical numeral of 10^decimals; any other divisor gives the `Math.log10` result, a parameter |
| Balances.PowerOfTenValue | pages/api/vota/balances.ts:68-70 | text matching `^10+$` is the canonical numeral of 10^(length - 1) |
| Balances.PowerOfTenOnly | pages/api/vota/balances.ts:65-70 | every canonical numeral of 10^n with n >= 1 matches the pattern and gives exactly n decimals |
| Balances.DefaultDecimals | pages/api/vota/balances.ts:59-70 | without a divisor parameter the scale is 18 decimals |
| Balances.Thresholds | pages/api/vota/balances.ts:63 | one number per threshold token, in order, `None` where the number is not finite |
| Balances.AlignItems | pages/api/vota/balances.ts:81-85 | one item per address in order; the name at the same index, or the address when there is none; the threshold at the same index when it exists and is finite |
| Balances.BuildRow | pages/api/vota/balances.ts:88-120 | account and address from the item; the raw amount text, or `"0"` after a failed fetch with a rendered balance of `"0"`; a threshold only when the item has one; an alert if and only if there is a threshold and the rendered balance is a finite number, equal to balance < threshold |
| Balances.FailedFetchZero | pages/api/vota/balances.ts:90-104 | a failed fetch renders as `"0"` at every scale |
| Balances.RowBalanceTruncates | pages/api/vota/balances.ts:103-104 | a fetched text that `BigInt` reads as a non-negative amount (` 12 ` and `0x10` included) keeps its text in `BalancePeaka`, and `BalanceDORA` reads back to that amount truncated to six fraction digits |
| Balances.RowBalanceUnscaled | pages/api/vota/balances.ts:103-104 | with a scale of zero or less `BalanceDORA` is the plain numeral of the amount `BigInt` reads from the fetched text |
| Balances.MapItems | pages/api/vota/balances.ts:88-122 | one row per item, in the order of the items, each built from its own position and item |
| Balances.Respond | pages/api/vota/balances.ts:75-88 | with the query parsed: a bad request, with its message, if and only if there are no addresses; otherwise one row per address |
| Balances.Handle | pages/api/vota/balances.ts:56-88 | a bad request if and only if the `addresses` parameter has no tokens; otherwise as many rows as tokens |
| Balances.RespondAligns | pages/api/vota/balances.ts:81-112 | row i is about the i-th address, carries the i-th name or else the address, and has a threshold if and only if the i-th threshold token is a finite number |
| Balances.RespondFailedFetch | pages/api/vota/balances.ts:88-104 | an address whose fetch failed still has its row, with both balances `"0"` |
| Balances.RespondIsolation | pages/api/vota/balances.ts:88-122 | a row depends only on its own request: how the other requests end does not change it |
| Balances.RespondDefaultScale | pages/api/vota/balances.ts:59-104 | with the default divisor a fetched text that `BigInt` reads as a non-negative amount is shown at 18 decimals, truncated to six fraction digits |

`BalancePeaka` is not always a valid integer string. It is the fetched `amount` text, unchanged, even when `BigInt` rejects that text and the rendered balance is `"0"`. The model keeps this behaviour (`BuildRow`).

The model also keeps the full `BigInt` string grammar where a digits-only reading would be simpler. The rendered balance depends on it: ` 12 ` converts to 12 base units and `0x10` to 16.

## Left out

- The `405` answer to a method other than `GET`: request routing is outside the model, which takes the query of a `GET`.
- Building the REST URL, `encodeURIComponent`, `fetch`, `r.json()`, and the `denom` and `rest_base` parameters: network I/O. Each fetch outcome is an input.
- `Promise.all` concurrency and the status-500 path: the per-row work never throws once fetch failures are caught, so rows are built in order by a pure map.
- The response `meta` (denom, restBase, `Number(divisor)`, `updatedAt` from the clock) and JSON serialisation: I/O and the clock.
- `Balances.Decimals`: the `Math.log10` route for a divisor not written as `1` and zeros is a parameter, because it is floating point.
- `Number`, `Number.isFinite` and `<` on numbers: floating point, so they are opaque parameters.
- A `balance.amount` that is JSON but not a string (a number or an object): the model takes the amount as text.
- String lengths and indices: `string` is a sequence of code points, not UTF-16 code units, which only matters for text outside the Basic Multilingual Plane.
- Units.FormatUnits: every lemma about it except FormatUnitsZero and FormatUnitsNegative takes a non-negative amount, because chain balances are never negative; a negative amount such as a fetched `-5` is rendered by the same definition but only the example FormatUnitsNegative describes it.
- Units.FormatUnitsWhole: stated for non-negative amounts only; for negative ones only the example `FormatUnitsNegative` is proved, because chain balances are never negative.
- Units.FormatUnitsTruncates: stated for non-negative amounts only, for the same reason.
