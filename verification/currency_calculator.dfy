/** The currency normaliser: every donation of an employee is re-expressed in
    the reference currency with the exchange rate of its own day, when the
    rate table has one. */
module CurrencyCalculator {
  import opened Results
  import opened Records

  /** The reference currency every converted donation is labelled with. */
  const ReferenceCurrency: string := "USD"

  /** The predicate `rates.find` is called with: the rate's `sign` is the
      donation's currency (`===`, so an `undefined` currency matches nothing)
      and its `date` is the donation's date, character for character. */
  predicate RateMatches(rate: ExchangeRate, donation: Donation)
  {
    donation.currency == Some(rate.sign) && rate.date == donation.date
  }

  /** `rates[k]` is the first rate that matches `donation`. */
  predicate IsFirstMatch(rates: seq<ExchangeRate>, donation: Donation, k: int)
  {
    && 0 <= k < |rates|
    && RateMatches(rates[k], donation)
    && forall j :: 0 <= j < k ==> !RateMatches(rates[j], donation)
  }

  /** `rates.find(...)`: the first matching rate, or `undefined`. */
  function FindRate(rates: seq<ExchangeRate>, donation: Donation): (r: Option<ExchangeRate>)
    ensures r.None? <==> forall k :: 0 <= k < |rates| ==> !RateMatches(rates[k], donation)
    ensures r.Some? ==> exists k :: IsFirstMatch(rates, donation, k) && rates[k] == r.value
    decreases |rates|
  {
    if rates == [] then None
    else if RateMatches(rates[0], donation) then
      assert IsFirstMatch(rates, donation, 0);
      Some(rates[0])
    else
      var r := FindRate(rates[1..], donation);
      if r.Some? then
        var k :| IsFirstMatch(rates[1..], donation, k) && rates[1..][k] == r.value;
        assert IsFirstMatch(rates, donation, k + 1);
        r
      else
        assert forall k :: 1 <= k < |rates| ==> rates[k] == rates[1..][k - 1];
        r
  }

  /** The first matching rate is the one `find` returns, whatever follows it. */
  lemma FindRateReturnsFirstMatch(rates: seq<ExchangeRate>, donation: Donation, k: int)
    requires IsFirstMatch(rates, donation, k)
    ensures FindRate(rates, donation) == Some(rates[k])
  {
  }

  /** `_convert(amount, rate)`: the product, rounded to two decimals. */
  function Convert(amount: string, rate: string, num: Conversions): string
  {
    num.multiplyToFixed2(amount, rate)
  }

  /** The object the `map` callback builds: a copy of `donation` (spread) that
      keeps its id and date, is labelled "USD", and whose amount is converted
      by the first rate of its currency and day, or only reformatted to two
      decimals when no rate has both. */
  function DonationInUsd(rates: seq<ExchangeRate>, donation: Donation, num: Conversions): (r: Donation)
    ensures r.id == donation.id && r.date == donation.date
    ensures r.currency == Some(ReferenceCurrency)
    ensures forall k :: IsFirstMatch(rates, donation, k) ==> r.amount == Convert(donation.amount, rates[k].value, num)
    ensures (forall k :: 0 <= k < |rates| ==> !RateMatches(rates[k], donation)) ==> r.amount == num.toFixed2(donation.amount)
  {
    var rate := FindRate(rates, donation);
    donation.(
      amount := if rate.Some? then Convert(donation.amount, rate.value.value, num) else num.toFixed2(donation.amount),
      currency := Some(ReferenceCurrency))
  }

  /** A rate table that has no rate for a donation's currency and day can be
      extended by rates of other currencies or days, at either end, without
      changing the conversion. */
  lemma NonMatchingRatesIgnored(rates: seq<ExchangeRate>, before: seq<ExchangeRate>, after: seq<ExchangeRate>,
                                donation: Donation, num: Conversions)
    requires forall k :: 0 <= k < |before| ==> !RateMatches(before[k], donation)
    requires forall k :: 0 <= k < |after| ==> !RateMatches(after[k], donation)
    ensures DonationInUsd(before + rates + after, donation, num) == DonationInUsd(rates, donation, num)
  {
    var all := before + rates + after;
    match FindRate(rates, donation)
    case None =>
      forall k | 0 <= k < |all| ensures !RateMatches(all[k], donation) {
        if k < |before| {
          assert all[k] == before[k];
        } else if k < |before| + |rates| {
          assert all[k] == rates[k - |before|];
        } else {
          assert all[k] == after[k - |before| - |rates|];
        }
      }
    case Some(_) =>
      var k :| IsFirstMatch(rates, donation, k);
      assert all[|before| + k] == rates[k];
      forall j | 0 <= j < |before| + k ensures !RateMatches(all[j], donation) {
        if j < |before| {
          assert all[j] == before[j];
        } else {
          assert all[j] == rates[j - |before|];
        }
      }
      assert IsFirstMatch(all, donation, |before| + k);
      FindRateReturnsFirstMatch(all, donation, |before| + k);
      FindRateReturnsFirstMatch(rates, donation, k);
  }

  /** `CurrencyCalculator`: the rate table is given to the constructor and, being
      a `const`, can never change afterwards. */
  class CurrencyCalculator {
    const rates: seq<ExchangeRate>

    constructor(exchangeRates: seq<ExchangeRate>)
      ensures rates == exchangeRates
    {
      rates := exchangeRates;
    }

    /** `calculateEmployeeDonationsInUSD`: `donations?.map(...)`, so a missing
        list gives `undefined`; otherwise one converted donation per donation,
        in the same order. */
    function CalculateEmployeeDonationsInUSD(donations: Option<seq<Donation>>, num: Conversions): (r: Option<seq<Donation>>)
      ensures r.None? <==> donations.None?
      ensures r.Some? ==> |r.value| == |donations.value|
      ensures r.Some? ==> forall i :: 0 <= i < |r.value| ==>
        && r.value[i].id == donations.value[i].id
        && r.value[i].date == donations.value[i].date
        && r.value[i].currency == Some(ReferenceCurrency)
      ensures r.Some? ==> forall i, k :: 0 <= i < |r.value| && IsFirstMatch(rates, donations.value[i], k) ==>
        r.value[i].amount == Convert(donations.value[i].amount, rates[k].value, num)
      ensures r.Some? ==> forall i :: 0 <= i < |r.value| && (forall k :: 0 <= k < |rates| ==> !RateMatches(rates[k], donations.value[i])) ==>
        r.value[i].amount == num.toFixed2(donations.value[i].amount)
    {
      match donations
      case None => None
      case Some(ds) =>
        Some(seq(|ds|, i requires 0 <= i < |ds| => DonationInUsd(rates, ds[i], num)))
    }
  }
}
