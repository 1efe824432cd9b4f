/** `model.CurrencyConverter`: converts an amount by looking both currencies up
    in a `model.CurrencyManager`. */
module ModelCurrencyConverter {
  import opened JavaBase
  import opened JavaStrings
  import opened JavaDoubles
  import opened ModelCurrencyManager

  /** The rule both converters apply once the two currencies are looked up:
      a missing one (`null`) throws `IllegalArgumentException("Invalid currency
      code")`; otherwise the amount is multiplied by the source rate and divided
      by the target rate, so a rate is read as base units per unit of the
      currency. */
  function ConvertWith(fromRate: Option<Double>, toRate: Option<Double>, amount: Double): (r: Result<Double>)
    ensures r.Throws? <==> fromRate.None? || toRate.None?
    ensures r.Throws? ==> r.exception == IllegalArgument("Invalid currency code")
  {
    if fromRate.None? || toRate.None? then Throws(IllegalArgument("Invalid currency code"))
    else Returns(Div(Mul(amount, fromRate.value), toRate.value))
  }

  /** Converting into the currency one came from gives the amount back, for a
      finite nonzero rate. */
  lemma ConvertWithSameRate(rate: real, amount: Double)
    requires rate != 0.0
    ensures ConvertWith(Some(Finite(rate)), Some(Finite(rate)), amount) == Returns(amount)
  {
    MulThenDiv(amount, rate);
  }

  /** On finite values with a nonzero target rate the rule computes
      `amount * fromRate / toRate`. */
  lemma ConvertWithFinite(fromRate: real, toRate: real, x: real)
    requires toRate != 0.0
    ensures ConvertWith(Some(Finite(fromRate)), Some(Finite(toRate)), Finite(x)).Returns?
    ensures ConvertWith(Some(Finite(fromRate)), Some(Finite(toRate)), Finite(x)).value
         == Finite(x * fromRate / toRate)
  {
    assert Mul(Finite(x), Finite(fromRate)) == Finite(x * fromRate);
    assert Div(Finite(x * fromRate), Finite(toRate)) == Finite(x * fromRate / toRate);
  }

  /** The rate of a looked-up currency, `null` staying `null`. */
  function RateOf(c: Option<Currency>): Option<Double>
  {
    match c
    case None => None
    case Some(currency) => Some(currency.rate)
  }

  class CurrencyConverter {
    const currencyManager: CurrencyManager

    /** Keeps the manager it is given. */
    constructor (currencyManager: CurrencyManager)
      ensures this.currencyManager == currencyManager
    {
      this.currencyManager := currencyManager;
    }

    /** `convert`: looks up both codes through the manager's `getCurrency`, as
        given (no case folding here), and applies `ConvertWith`. The manager's
        `getCurrency` is a stub that throws, so the call never returns a value;
        the manager is not changed (there is no `modifies`). */
    method Convert(fromCode: string, toCode: string, amount: Double) returns (r: Result<Double>)
      ensures r == Throws(UnsupportedOperation("Unimplemented method 'getCurrency'"))
    {
      match CurrencyManager.GetCurrency(fromCode) {
        case Throws(e) => r := Throws(e);
        case Returns(from) =>
          match CurrencyManager.GetCurrency(toCode) {
            case Throws(e) => r := Throws(e);
            case Returns(to) => r := ConvertWith(RateOf(from), RateOf(to), amount);
          }
      }
    }
  }

  /** The two rules read a rate in opposite directions: the manager's
      `convert` over rates `f` and `t` is `ConvertWith` over the reciprocal
      rates `1/f` and `1/t`. */
  lemma RulesAreInverse(m: CurrencyManager, fromCurrency: string, toCurrency: string, x: real)
    requires ToUpper(fromCurrency) in m.rates && ToUpper(toCurrency) in m.rates
    requires m.rates[ToUpper(fromCurrency)].Finite? && m.rates[ToUpper(toCurrency)].Finite?
    requires m.rates[ToUpper(fromCurrency)].value != 0.0 && m.rates[ToUpper(toCurrency)].value != 0.0
    ensures var f, t := m.rates[ToUpper(fromCurrency)].value, m.rates[ToUpper(toCurrency)].value;
            m.Convert(fromCurrency, toCurrency, Finite(x)) == ConvertWith(Some(Finite(1.0 / f)), Some(Finite(1.0 / t)), Finite(x))
  {
    var f, t := m.rates[ToUpper(fromCurrency)].value, m.rates[ToUpper(toCurrency)].value;
    ConvertFinite(m, fromCurrency, toCurrency, x);
    ConvertWithFinite(1.0 / f, 1.0 / t, x);
    assert x * (1.0 / f) / (1.0 / t) == x * (t / f);
    assert m.Convert(fromCurrency, toCurrency, Finite(x)).value == ConvertWith(Some(Finite(1.0 / f)), Some(Finite(1.0 / t)), Finite(x)).value;
  }

  /** With the same rate table {USD: 1, THB: 35}, 10 USD to THB is 350 under
      the manager's rule and 10/35 under the converter's rule. */
  lemma RulesDisagree(m: CurrencyManager)
    requires m.rates == map["USD" := Finite(1.0), "THB" := Finite(35.0)]
    ensures m.Convert("USD", "THB", Finite(10.0)) == Returns(Finite(350.0))
    ensures ConvertWith(Some(m.rates["USD"]), Some(m.rates["THB"]), Finite(10.0)) == Returns(Finite(10.0 / 35.0))
  {
    assert ToUpper("USD") == "USD";
    assert ToUpper("THB") == "THB";
  }
}
