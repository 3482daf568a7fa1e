/**
 * The Bitcoin price screen of `src/providers/coindesk.rs`: which currency to show, read
 * from the configuration, and how a price is written in it. Fetching and decoding the
 * price and drawing the text are outside the model; a price is given as its three rate
 * strings.
 */
module Coindesk {
  import opened Wrappers
  import opened Strings

  /** `Target`: the currency the price is shown in. */
  datatype Target = Eur | Usd | Gbp

  /** `Target::default`. */
  const DEFAULT_TARGET: Target := Usd

  const UNKNOWN_TARGET: string := "Unknown target currency!"

  /** The spellings each currency is configured with. */
  predicate NamesUsd(s: string) {
    s == "USD" || s == "usd" || s == "dollar"
  }

  predicate NamesEur(s: string) {
    s == "eur" || s == "EUR" || s == "euro" || s == "Euro"
  }

  predicate NamesGbp(s: string) {
    s == "gbp" || s == "GBP"
  }

  /** `Target::try_from`: the listed spellings, case as written; anything else is an
      error. */
  function ParseTarget(s: string): (r: Result<Target>)
    ensures r == Ok(Usd) <==> NamesUsd(s)
    ensures r == Ok(Eur) <==> NamesEur(s)
    ensures r == Ok(Gbp) <==> NamesGbp(s)
    ensures r.Err? <==> !NamesUsd(s) && !NamesEur(s) && !NamesGbp(s)
    ensures r.Err? ==> r.error == UNKNOWN_TARGET
  {
    match s
    case "USD" => Ok(Usd)
    case "usd" => Ok(Usd)
    case "dollar" => Ok(Usd)
    case "eur" => Ok(Eur)
    case "EUR" => Ok(Eur)
    case "euro" => Ok(Eur)
    case "Euro" => Ok(Eur)
    case "gbp" => Ok(Gbp)
    case "GBP" => Ok(Gbp)
    case _ => Err(UNKNOWN_TARGET)
  }

  /** The ISO code of each currency. */
  function Code(t: Target): string {
    match t
    case Usd => "USD"
    case Eur => "EUR"
    case Gbp => "GBP"
  }

  /** Every currency is reachable from the configuration by its upper-case ISO code, and
      by its lower-case one. */
  lemma CodesParse(t: Target)
    ensures ParseTarget(Code(t)) == Ok(t)
    ensures ParseTarget(if t == Usd then "usd" else if t == Eur then "eur" else "gbp") == Ok(t)
  {
  }

  /** The parser is case-sensitive: the mixed-case "Usd" and "Gbp" are rejected, while
      "Euro" is accepted. */
  lemma ParseIsCaseSensitive()
    ensures ParseTarget("Usd").Err? && ParseTarget("Gbp").Err? && ParseTarget("Eur").Err?
    ensures ParseTarget("Euro") == Ok(Eur)
  {
  }

  const CURRENCY_KEY: string := "crypto.currency"

  /** `register_callback`'s choice: the configured currency, "USD" when the key is missing,
      and the default (US dollars) when it does not parse; it never fails. */
  function ConfiguredTarget(config: Settings): (t: Target)
    ensures CURRENCY_KEY !in config ==> t == Usd
    ensures CURRENCY_KEY in config && ParseTarget(config[CURRENCY_KEY]).Ok? ==>
      t == ParseTarget(config[CURRENCY_KEY]).value
  {
    var name := if CURRENCY_KEY in config then config[CURRENCY_KEY] else "USD";
    ParseTarget(name).GetOr(DEFAULT_TARGET)
  }

  /** Euros and pounds are shown only when configured by one of their spellings; every
      other configuration, missing key included, shows US dollars. */
  lemma ConfiguredTargetIff(config: Settings)
    ensures ConfiguredTarget(config) == Eur <==> CURRENCY_KEY in config && NamesEur(config[CURRENCY_KEY])
    ensures ConfiguredTarget(config) == Gbp <==> CURRENCY_KEY in config && NamesGbp(config[CURRENCY_KEY])
    ensures ConfiguredTarget(config) == Usd <==>
      CURRENCY_KEY !in config || (!NamesEur(config[CURRENCY_KEY]) && !NamesGbp(config[CURRENCY_KEY]))
  {
  }

  /** The rate strings of the three currencies in a price report, as received. */
  datatype BitcoinPrice = BitcoinPrice(usd: string, gbp: string, eur: string)

  const EURO_SIGN: char := '€'
  const POUND_SIGN: char := '£'

  /** The chosen currency's rate, verbatim. */
  function RateIn(t: Target, price: BitcoinPrice): string {
    match t
    case Usd => price.usd
    case Eur => price.eur
    case Gbp => price.gbp
  }

  /** Whether the currency's sign follows the amount (the euro) or precedes it. */
  function SignFollows(t: Target): bool {
    t == Eur
  }

  function Sign(t: Target): char {
    match t
    case Usd => '$'
    case Eur => EURO_SIGN
    case Gbp => POUND_SIGN
  }

  /** `Target::format`: the chosen rate with the currency's sign, after it for euros and
      before it otherwise. */
  function Format(t: Target, price: BitcoinPrice): (r: string)
    ensures |r| == |RateIn(t, price)| + 1
    ensures SignFollows(t) ==> r[|r| - 1] == Sign(t)
    ensures !SignFollows(t) ==> r[0] == Sign(t)
  {
    match t
    case Eur => price.eur + [EURO_SIGN]
    case Usd => ['$'] + price.usd
    case Gbp => [POUND_SIGN] + price.gbp
  }

  /** Reading a formatted price back: drop the sign on the side it is written. */
  function Unformat(t: Target, s: string): (rate: string)
    requires |s| >= 1
    ensures |rate| == |s| - 1
  {
    if SignFollows(t) then s[..|s| - 1] else s[1..]
  }

  /** The rate is shown verbatim: the formatted text minus the sign is exactly the rate
      string of the chosen currency, and the sign identifies the currency. */
  lemma FormatRoundTrip(t: Target, u: Target, price: BitcoinPrice)
    ensures Unformat(t, Format(t, price)) == RateIn(t, price)
    ensures Sign(t) == Sign(u) ==> t == u
  {
  }
}
