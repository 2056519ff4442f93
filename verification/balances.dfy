/** The `GET /api/vota/balances` handler: reading the query, deriving the
    number of decimals from the divisor, aligning names and thresholds with
    the addresses, and assembling one row per address from the balance each
    fetch returned. The fetches themselves are outside the model: their
    outcomes arrive as data, one per address, `None` standing for a failed
    request, a body that is not JSON, or a missing `balance.amount`.

    `F` is the type of JavaScript numbers. `number` models `Number(text)`
    followed by `Number.isFinite` (`None` for NaN and the infinities) and
    `less` models `<` on finite numbers. */
module Balances {
  import opened Wrappers
  import opened Digits
  import opened Text
  import opened Csv
  import opened JsBigInt
  import opened Units

  /** The divisor used when the query names none: 10^18. */
  const DefaultDivisor: string := "1000000000000000000"

  /** Fraction digits kept when a balance is rendered. */
  const MaxFraction: nat := 6

  const AddressesRequired: string := "addresses is required (comma-separated)"

  /** The query parameters the handler reads. */
  datatype Query = Query(addresses: QueryValue, names: QueryValue, thresholds: QueryValue, divisor: QueryValue)

  /** What `items` holds for each address. */
  datatype Item<F> = Item(name: string, addr: string, threshold: Option<F>)

  /** One row of the response; the optional fields are absent from the JSON when `None`. */
  datatype Row<F> = Row(
    account: string,
    address: string,
    balancePeaka: string,
    balanceDora: string,
    threshold: Option<F>,
    alert: Option<bool>)

  /** The status-400 body, or the rows of a status-200 body. */
  datatype Response<F> = BadRequest(message: string) | Ok(rows: seq<Row<F>>)

  /** The text of the divisor parameter: an absent or empty parameter falls back
      to 10^18, and a repeated one is stringified by joining with commas. */
  function DivisorText(v: QueryValue): (s: string)
    ensures v == Missing || v == One("") ==> s == DefaultDivisor
    ensures v.One? && v.text != [] ==> s == v.text
  {
    match v
    case Missing => DefaultDivisor
    case One(t) => if t == [] then DefaultDivisor else t
    case Many(xs) => Join(xs, ',')
  }

  /** The text matches `^10+$`: a one followed by at least one zero. */
  predicate IsPowerOfTenNumeral(s: string) {
    |s| >= 2 && s[0] == '1' && forall i :: 1 <= i < |s| ==> s[i] == '0'
  }

  /** The number of decimals: the count of zeros when the divisor is written as
      `1` and zeros, in which case it is 10^decimals, otherwise `fallback`, the
      value the floating-point route through `Math.log10` gives for this divisor. */
  function Decimals(divisor: string, fallback: int): (d: int)
    ensures IsPowerOfTenNumeral(divisor) ==> d >= 1 && IsCanonical(divisor) && Value(divisor) == Pow10(d)
    ensures !IsPowerOfTenNumeral(divisor) ==> d == fallback
  {
    if IsPowerOfTenNumeral(divisor) then PowerOfTenValue(divisor); |divisor| - 1 else fallback
  }

  /** Text written as `1` and zeros is the canonical numeral of 10^(its length - 1). */
  lemma {:induction false} PowerOfTenValue(s: string)
    requires IsPowerOfTenNumeral(s)
    ensures IsCanonical(s) && Value(s) == Pow10(|s| - 1)
  {
    var n := |s| - 1;
    assert s == "1" + Zeros(n);
    ValueTrailingZeros("1", n);
  }

  /** Conversely, every canonical numeral equal to 10^n with n >= 1 takes the
      pattern branch, which yields exactly n. */
  lemma PowerOfTenOnly(s: string, n: nat, fallback: int)
    requires n >= 1 && IsCanonical(s) && Value(s) == Pow10(n)
    ensures IsPowerOfTenNumeral(s)
    ensures Decimals(s, fallback) == n
  {
    var t := "1" + Zeros(n);
    assert IsPowerOfTenNumeral(t);
    PowerOfTenValue(t);
    NatToStringOfValue(s);
    NatToStringOfValue(t);
  }

  /** Without a divisor parameter the balances are scaled by 18 decimals. */
  lemma DefaultDecimals(fallback: int)
    ensures Decimals(DivisorText(Missing), fallback) == 18
  {
    var s := DefaultDivisor;
    assert |s| == 19;
    assert s == "1" + Zeros(18);
    assert IsPowerOfTenNumeral(s);
  }

  /** `parseCSVParam(thresholds).map(Number)`, finite values kept, the others `None`. */
  function Thresholds<F>(tokens: seq<string>, number: string -> Option<F>): (r: seq<Option<F>>)
    ensures |r| == |tokens|
    ensures forall i :: 0 <= i < |r| ==> r[i] == number(tokens[i])
  {
    seq(|tokens|, i requires 0 <= i < |tokens| => number(tokens[i]))
  }

  /** The list without its head; empty stays empty. */
  function Rest<T>(xs: seq<T>): seq<T> {
    if xs == [] then [] else xs[1..]
  }

  /** Walks the addresses, taking the name and threshold at the same position
      when there is one. */
  function AlignItems<F>(addresses: seq<string>, names: seq<string>, thresholds: seq<Option<F>>): (items: seq<Item<F>>)
    ensures |items| == |addresses|
    ensures forall i :: 0 <= i < |items| ==>
              items[i] == Item(if i < |names| then names[i] else addresses[i],
                               addresses[i],
                               if i < |thresholds| then thresholds[i] else None)
    decreases |addresses|
  {
    if addresses == [] then []
    else
      var name := if names == [] then addresses[0] else names[0];
      var threshold := if thresholds == [] then None else thresholds[0];
      var rest := AlignItems(addresses[1..], Rest(names), Rest(thresholds));
      var items := [Item(name, addresses[0], threshold)] + rest;
      assert forall i :: 1 <= i < |items| ==> items[i] == rest[i - 1];
      items
  }

  /** The row for one item, given what its fetch returned. */
  function BuildRow<F>(item: Item<F>, fetched: Option<string>, decimals: int,
                       number: string -> Option<F>, less: (F, F) -> bool): (row: Row<F>)
    ensures row.account == item.name && row.address == item.addr
    ensures row.balancePeaka == fetched.GetOr("0")
    ensures fetched.None? ==> row.balancePeaka == "0" && row.balanceDora == "0"
    ensures row.threshold == item.threshold
    ensures row.alert.Some? <==> item.threshold.Some? && number(row.balanceDora).Some?
    ensures row.alert.Some? ==> row.alert.value == less(number(row.balanceDora).value, item.threshold.value)
  {
    var amountText := fetched.GetOr("0");
    var balanceDora := FormatUnits(ToBigIntSafe(amountText), decimals, MaxFraction);
    var alert :=
      if item.threshold.None? then None
      else match number(balanceDora)
        case None => None
        case Some(b) => Some(less(b, item.threshold.value));
    FailedFetchZero(fetched, decimals);
    Row(item.name, item.addr, amountText, balanceDora, item.threshold, alert)
  }

  /** A failed fetch renders as `"0"` whatever the scale. */
  lemma FailedFetchZero(fetched: Option<string>, decimals: int)
    ensures fetched.None? ==> FormatUnits(ToBigIntSafe(fetched.GetOr("0")), decimals, MaxFraction) == "0"
  {
    if fetched.None? {
      assert Value("0") == 0;
      FormatUnitsZero(decimals, MaxFraction);
    }
  }

  /** A fetched balance that converts to a non-negative amount (a numeral, but
      also ` 12 ` or `0x10`) is shown truncated to six fraction digits: reading
      the rendered text back at the same scale gives the converted amount with
      the digits below the sixth cleared. */
  lemma RowBalanceTruncates<F>(item: Item<F>, s: string, d: nat,
                               number: string -> Option<F>, less: (F, F) -> bool)
    requires ToBigIntSafe(s) >= 0
    ensures var row := BuildRow(item, Some(s), d, number, less);
            row.balancePeaka == s &&
            ParseUnits(row.balanceDora, d) == Some(TruncateUnits(ToBigIntSafe(s), d, MaxFraction))
  {
    FormatUnitsTruncates(ToBigIntSafe(s), d, MaxFraction);
  }

  /** With a scale of zero or less a fetched balance that converts to a
      non-negative amount is shown as the plain numeral of that amount. */
  lemma RowBalanceUnscaled<F>(item: Item<F>, s: string, decimals: int,
                              number: string -> Option<F>, less: (F, F) -> bool)
    requires ToBigIntSafe(s) >= 0 && decimals <= 0
    ensures var row := BuildRow(item, Some(s), decimals, number, less);
            IsCanonical(row.balanceDora) && Value(row.balanceDora) == ToBigIntSafe(s)
  {
    FormatUnitsUnscaled(ToBigIntSafe(s), decimals, MaxFraction);
  }

  /** `Promise.all(items.map(...))`: the row of each item, built from its
      position (which request it is) and the item itself, in the order of the items. */
  function MapItems<F>(items: seq<Item<F>>, rowOf: (nat, Item<F>) -> Row<F>): (rows: seq<Row<F>>)
    ensures |rows| == |items|
    ensures forall i :: 0 <= i < |rows| ==> rows[i] == rowOf(i, items[i])
    decreases |items|
  {
    if items == [] then []
    else
      var last := |items| - 1;
      MapItems(items[..last], rowOf) + [rowOf(last, items[last])]
  }

  /** The handler once the query is parsed: the address, name and threshold
      tokens, and the divisor text. `fetched(i)` is the outcome of the request
      for the i-th address. */
  function Respond<F>(addresses: seq<string>, names: seq<string>, thresholdTokens: seq<string>,
                      divisor: string, fetched: nat -> Option<string>, fallback: int,
                      number: string -> Option<F>, less: (F, F) -> bool): (r: Response<F>)
    ensures r.BadRequest? <==> addresses == []
    ensures r.BadRequest? ==> r.message == AddressesRequired
    ensures r.Ok? ==> |r.rows| == |addresses|
  {
    var thresholds := Thresholds(thresholdTokens, number);
    var decimals := Decimals(divisor, fallback);
    if addresses == [] then BadRequest(AddressesRequired)
    else
      var items := AlignItems(addresses, names, thresholds);
      Ok(MapItems(items, (i, item) => BuildRow(item, fetched(i), decimals, number, less)))
  }

  /** The whole handler for a `GET`. */
  function Handle<F>(q: Query, fetched: nat -> Option<string>, fallback: int,
                     number: string -> Option<F>, less: (F, F) -> bool): (r: Response<F>)
    ensures r.BadRequest? <==> ParseCSVParam(q.addresses) == []
    ensures r.BadRequest? ==> r.message == AddressesRequired
    ensures r.Ok? ==> |r.rows| == |ParseCSVParam(q.addresses)|
  {
    Respond(ParseCSVParam(q.addresses), ParseCSVParam(q.names), ParseCSVParam(q.thresholds),
            DivisorText(q.divisor), fetched, fallback, number, less)
  }

  /** The row of the i-th address, as the per-item callback builds it. */
  lemma RespondRow<F>(addresses: seq<string>, names: seq<string>, thresholdTokens: seq<string>,
                      divisor: string, fetched: nat -> Option<string>, fallback: int,
                      number: string -> Option<F>, less: (F, F) -> bool, i: nat)
    requires i < |addresses|
    ensures var r := Respond(addresses, names, thresholdTokens, divisor, fetched, fallback, number, less);
            var item := AlignItems(addresses, names, Thresholds(thresholdTokens, number))[i];
            r.Ok? && i < |r.rows| &&
            r.rows[i] == BuildRow(item, fetched(i), Decimals(divisor, fallback), number, less)
  {
  }

  /** Row i is about the i-th address; it carries the i-th name, falling back
      to the address, and the i-th threshold when it parsed to a finite number. */
  lemma RespondAligns<F>(addresses: seq<string>, names: seq<string>, thresholdTokens: seq<string>,
                         divisor: string, fetched: nat -> Option<string>, fallback: int,
                         number: string -> Option<F>, less: (F, F) -> bool, i: nat)
    requires i < |addresses|
    ensures var r := Respond(addresses, names, thresholdTokens, divisor, fetched, fallback, number, less);
            && r.Ok? && i < |r.rows|
            && r.rows[i].address == addresses[i]
            && r.rows[i].account == (if i < |names| then names[i] else addresses[i])
            && (r.rows[i].threshold.Some? <==> i < |thresholdTokens| && number(thresholdTokens[i]).Some?)
            && (r.rows[i].threshold.Some? ==> r.rows[i].threshold == number(thresholdTokens[i]))
  {
    RespondRow(addresses, names, thresholdTokens, divisor, fetched, fallback, number, less, i);
  }

  /** An address whose fetch failed still gets its row, with zero balances. */
  lemma RespondFailedFetch<F>(addresses: seq<string>, names: seq<string>, thresholdTokens: seq<string>,
                              divisor: string, fetched: nat -> Option<string>, fallback: int,
                              number: string -> Option<F>, less: (F, F) -> bool, i: nat)
    requires i < |addresses| && fetched(i).None?
    ensures var r := Respond(addresses, names, thresholdTokens, divisor, fetched, fallback, number, less);
            r.Ok? && i < |r.rows| && r.rows[i].balancePeaka == "0" && r.rows[i].balanceDora == "0"
  {
    RespondRow(addresses, names, thresholdTokens, divisor, fetched, fallback, number, less, i);
  }

  /** A row depends on its own request only: how the other requests end does
      not change it. */
  lemma RespondIsolation<F>(addresses: seq<string>, names: seq<string>, thresholdTokens: seq<string>,
                            divisor: string, fetched: nat -> Option<string>, other: nat -> Option<string>,
                            fallback: int, number: string -> Option<F>, less: (F, F) -> bool, i: nat)
    requires i < |addresses| && fetched(i) == other(i)
    ensures var r := Respond(addresses, names, thresholdTokens, divisor, fetched, fallback, number, less);
            var r' := Respond(addresses, names, thresholdTokens, divisor, other, fallback, number, less);
            r.Ok? && r'.Ok? && i < |r.rows| && i < |r'.rows| && r.rows[i] == r'.rows[i]
  {
    RespondRow(addresses, names, thresholdTokens, divisor, fetched, fallback, number, less, i);
    RespondRow(addresses, names, thresholdTokens, divisor, other, fallback, number, less, i);
  }

  /** With the default divisor a fetched balance that converts to a
      non-negative amount is shown at 18 decimals, truncated to six fraction digits. */
  lemma RespondDefaultScale<F>(addresses: seq<string>, names: seq<string>, thresholdTokens: seq<string>,
                               fetched: nat -> Option<string>, fallback: int,
                               number: string -> Option<F>, less: (F, F) -> bool, i: nat, s: string)
    requires i < |addresses| && fetched(i) == Some(s) && ToBigIntSafe(s) >= 0
    ensures var r := Respond(addresses, names, thresholdTokens, DefaultDivisor, fetched, fallback, number, less);
            && r.Ok? && i < |r.rows| && r.rows[i].balancePeaka == s
            && ParseUnits(r.rows[i].balanceDora, 18) == Some(TruncateUnits(ToBigIntSafe(s), 18, MaxFraction))
  {
    DefaultDecimals(fallback);
    RespondRow(addresses, names, thresholdTokens, DefaultDivisor, fetched, fallback, number, less, i);
    var item := AlignItems(addresses, names, Thresholds(thresholdTokens, number))[i];
    RowBalanceTruncates(item, s, 18, number, less);
  }
}
