/** `view.UserGUI`: the user window's own rate table (inner classes `Currency`,
    `CurrencyManager`, `CurrencyConverter`) and what its Convert button does.
    The inner `HistoryRecord` and `ExchangeHistory` behave exactly as
    `model.HistoryRecord` and `model.ExchangeHistory` and are modelled by
    `ModelHistoryRecord` and `ModelExchangeHistory`. */
module ViewUserGui {
  import opened JavaBase
  import opened JavaStrings
  import opened JavaDoubles
  import opened JavaDateTime
  import opened ModelHistoryRecord
  import opened ModelExchangeHistory
  import Manager = ModelCurrencyManager
  import Converter = ModelCurrencyConverter

  /** Inner `Currency`: a code fixed at construction and a rate that can be
      changed. */
  class Currency {
    const code: string
    var rate: Double

    constructor (code: string, rate: Double)
      ensures this.code == code && this.rate == rate
    {
      this.code := code;
      this.rate := rate;
    }

    /** `setRate`: changes the rate only (the code is a constant). */
    method SetRate(rate: Double)
      modifies this
      ensures this.rate == rate
    {
      this.rate := rate;
    }
  }

  /** Inner `CurrencyManager`: currency objects keyed by code. */
  class CurrencyManager {
    var currencies: map<string, Currency>

    /** Every object sits under its own code. */
    predicate Valid()
      reads this, currencies.Values
    {
      forall k :: k in currencies ==> currencies[k].code == k
    }

    /** The table as code to rate. */
    function Rates(): (rates: map<string, Double>)
      reads this, currencies.Values
      ensures rates.Keys == currencies.Keys
      ensures forall k :: k in rates ==> rates[k] == currencies[k].rate
    {
      map k | k in currencies :: currencies[k].rate
    }

    /** The field initialiser `new HashMap<>()`: no currencies. */
    constructor ()
      ensures currencies == map[] && Valid()
    {
      currencies := map[];
    }

    /** `loadRatesFromFile`: unlike `model.CurrencyManager` it does not empty
        the table first; each two-field line puts a new `Currency` under its
        trimmed code, as given. A missing file changes nothing; a bad rate
        escapes as `NumberFormatException` with the entries before it kept. */
    method LoadRatesFromFile(file: Option<seq<string>>) returns (thrown: Option<Exception>)
      requires Valid()
      modifies this
      ensures Valid()
      ensures file.None? ==> Rates() == old(Rates()) && thrown == None
      ensures file.Some? ==> Manager.RateLoad(Rates(), thrown) == Manager.LoadRates(old(Rates()), file.value)
    {
      thrown := None;
      if file.None? {
        return;
      }
      var lines := file.value;
      ghost var kinds := Manager.ReadAll(lines);
      var i := 0;
      while i < |lines|
        invariant 0 <= i <= |lines|
        invariant Valid()
        invariant Manager.PutAll(Rates(), kinds[i..]) == Manager.LoadRates(old(Rates()), lines)
        decreases |lines| - i
      {
        assert kinds[i..][0] == Manager.ReadLine(lines[i]);
        assert kinds[i..][1..] == kinds[i + 1..];
        var parts := Split(lines[i], ',');
        if |parts| == 2 {
          var code := Trim(parts[0]);
          var rate := ParseDouble(Trim(parts[1]));
          if rate.None? {
            thrown := Some(NumberFormat);
            return;
          }
          Put(code, rate.value);
        }
        i := i + 1;
      }
    }

    /** `currencies.put(code, new Currency(code, rate))`: a new object under
        `code`, every other code keeping its object. */
    method Put(code: string, rate: Double)
      requires Valid()
      modifies this
      ensures Valid()
      ensures Rates() == old(Rates())[code := rate]
      ensures fresh(currencies[code])
    {
      var c := new Currency(code, rate);
      currencies := currencies[code := c];
    }

    /** `getCurrency`: the object under exactly this code (no case folding),
        `null` when there is none. */
    function GetCurrency(code: string): (c: Currency?)
      reads this
      ensures c != null <==> code in currencies
      ensures c != null ==> c == currencies[code]
    {
      if code in currencies then currencies[code] else null
    }

    /** `getAllCurrencies`: the objects of the table. */
    function GetAllCurrencies(): (cs: set<Currency>)
      reads this
      ensures cs == currencies.Values
    {
      currencies.Values
    }
  }

  /** A load leaves a code that no line gives as it was, even when a bad rate
      stops it. */
  lemma {:induction false} PutAllKeepsUnlisted(rates: map<string, Double>, kinds: seq<Manager.RateLine>, c: string)
    requires c in rates
    requires forall i :: 0 <= i < |kinds| ==> !(kinds[i].Entry? && kinds[i].code == c)
    ensures c in Manager.PutAll(rates, kinds).rates && Manager.PutAll(rates, kinds).rates[c] == rates[c]
    decreases |kinds|
  {
    if kinds != [] {
      var rest := kinds[1..];
      assert forall i :: 0 <= i < |rest| ==> rest[i] == kinds[i + 1];
      match kinds[0]
      case Ignored =>
        PutAllKeepsUnlisted(rates, rest, c);
      case BadRate =>
      case Entry(k, r) =>
        PutAllKeepsUnlisted(rates[k := r], rest, c);
    }
  }

  /** Because this load does not empty the table, a code already in it that
      the file does not give keeps its rate across a reload. */
  lemma ReloadKeepsUnlisted(rates: map<string, Double>, lines: seq<string>, c: string)
    requires c in rates
    requires forall i :: 0 <= i < |lines| ==> !(Manager.ReadLine(lines[i]).Entry? && Manager.ReadLine(lines[i]).code == c)
    ensures c in Manager.LoadRates(rates, lines).rates && Manager.LoadRates(rates, lines).rates[c] == rates[c]
  {
    PutAllKeepsUnlisted(rates, Manager.ReadAll(lines), c);
  }

  /** The codes the window lists in its two drop-downs are exactly the codes
      of the table. */
  lemma ListedCodes(m: CurrencyManager)
    requires m.Valid()
    ensures (set c | c in m.GetAllCurrencies() :: c.code) == m.currencies.Keys
  {
    forall k | k in m.currencies
      ensures k in (set c | c in m.GetAllCurrencies() :: c.code)
    {
      assert m.currencies[k] in m.GetAllCurrencies();
    }
  }

  /** The rate under exactly `code` in `rates`, `null` for a `null` code or a
      code not in the table (`HashMap.get(null)` finds nothing here). */
  function Lookup(rates: map<string, Double>, code: Option<string>): (r: Option<Double>)
    ensures r.Some? <==> code.Some? && code.value in rates
    ensures r.Some? ==> r.value == rates[code.value]
  {
    if code.Some? && code.value in rates then Some(rates[code.value]) else None
  }

  /** The window's own converter. */
  class CurrencyConverter {
    const manager: CurrencyManager

    constructor (manager: CurrencyManager)
      ensures this.manager == manager
    {
      this.manager := manager;
    }

    /** `convert`: looks both codes up exactly as given and applies the rule
        `amount * from.rate / to.rate`; an unknown code throws
        `IllegalArgumentException("Invalid currency code")`. */
    function Convert(fromCode: string, toCode: string, amount: Double): (r: Result<Double>)
      reads manager, manager.currencies.Values
      ensures r == Converter.ConvertWith(Lookup(manager.Rates(), Some(fromCode)), Lookup(manager.Rates(), Some(toCode)), amount)
    {
      var from, to := manager.GetCurrency(fromCode), manager.GetCurrency(toCode);
      Converter.ConvertWith(if from == null then None else Some(from.rate), if to == null then None else Some(to.rate), amount)
    }
  }

  /** What a click on Convert leads to: a message dialog, or a new result
      label together with the record added to the history. */
  datatype Outcome = Shown(message: string) | Converted(resultText: string, record: HistoryRecord)

  /** The result label, `String.format("%.2f %s = %.2f %s", ...)`. */
  function Label(amount: Double, from: string, result: Double, to: string): string
  {
    Format2(amount) + " " + from + " = " + Format2(result) + " " + to
  }

  /** The Convert button over the rate table `rates`: the two selected codes
      (`None` when a drop-down is empty), the amount field's text and the
      clock reading `now`. Empty text, text `parseDouble` rejects and an
      amount `<= 0` each show their message; an unknown code shows the
      converter's message; otherwise the result is shown and recorded. */
  function Click(rates: map<string, Double>, from: Option<string>, to: Option<string>,
                 amountText: string, now: LocalDateTime): (o: Outcome)
    ensures o.Converted? ==> && from.Some? && to.Some? && ParseDouble(amountText).Some?
                             && o.record.fromCurrency == from.value && o.record.toCurrency == to.value
                             && o.record.amount == ParseDouble(amountText).value
                             && o.record.timestamp == now
  {
    if amountText == [] then Shown("Please enter an amount")
    else match ParseDouble(amountText)
      case None => Shown("Invalid amount")
      case Some(amount) =>
        if AtMostZero(amount) then Shown("Amount must be positive")
        else match Converter.ConvertWith(Lookup(rates, from), Lookup(rates, to), amount)
          case Throws(e) => Shown(MessageOf(e))
          case Returns(result) =>
            Converted(Label(amount, from.value, result, to.value),
                      NewRecord(from.value, to.value, amount, result, now))
  }

  /** A click converts exactly when the text is a number above zero (or NaN,
      which `amount <= 0` lets through) and both selected codes are in the
      table; the record then holds the selection, the amount, the converted
      value and the clock reading. */
  lemma ClickConverts(rates: map<string, Double>, from: Option<string>, to: Option<string>,
                      amountText: string, now: LocalDateTime)
    ensures Click(rates, from, to, amountText, now).Converted?
        <==> amountText != [] && ParseDouble(amountText).Some? && !AtMostZero(ParseDouble(amountText).value)
             && from.Some? && from.value in rates && to.Some? && to.value in rates
    ensures Click(rates, from, to, amountText, now).Converted? ==>
              var amount := ParseDouble(amountText).value;
              var result := Div(Mul(amount, rates[from.value]), rates[to.value]);
              Click(rates, from, to, amountText, now)
                == Converted(Label(amount, from.value, result, to.value),
                             NewRecord(from.value, to.value, amount, result, now))
  {
  }

  /** A click that does not convert shows one of the four messages. */
  lemma ClickMessages(rates: map<string, Double>, from: Option<string>, to: Option<string>,
                      amountText: string, now: LocalDateTime)
    requires Click(rates, from, to, amountText, now).Shown?
    ensures Click(rates, from, to, amountText, now).message
            in {"Please enter an amount", "Invalid amount", "Amount must be positive", "Invalid currency code"}
  {
  }

  /** The positivity check is `amount <= 0`, which is false for NaN: the text
      "NaN" with two known codes is converted and recorded with amount NaN. */
  lemma ClickAcceptsNaN(rates: map<string, Double>, from: string, to: string, now: LocalDateTime)
    requires from in rates && to in rates
    ensures Click(rates, Some(from), Some(to), "NaN", now).Converted?
    ensures Click(rates, Some(from), Some(to), "NaN", now).record.amount == NaN
    ensures Click(rates, Some(from), Some(to), "NaN", now).record.result == NaN
  {
    ParseWord("NaN", NaN);
    ClickOfAmount(rates, from, to, "NaN", now, NaN);
  }

  /** A click whose text parses to an amount that passes the `<= 0` check,
      with two known codes, converts that amount. */
  lemma ClickOfAmount(rates: map<string, Double>, from: string, to: string, amountText: string,
                      now: LocalDateTime, amount: Double)
    requires from in rates && to in rates
    requires amountText != [] && ParseDouble(amountText) == Some(amount) && !AtMostZero(amount)
    ensures Click(rates, Some(from), Some(to), amountText, now)
            == Converted(Label(amount, from, Div(Mul(amount, rates[from]), rates[to]), to),
                         NewRecord(from, to, amount, Div(Mul(amount, rates[from]), rates[to]), now))
  {
  }

  /** The Convert button's action listener. The label text and the dialogs
      are the outcome; a conversion appends its record to the history and
      saves the history, whose lines are returned. Otherwise the history is
      untouched and nothing is saved. */
  method OnConvert(converter: CurrencyConverter, history: ExchangeHistory,
                   from: Option<string>, to: Option<string>, amountText: string, now: LocalDateTime)
    returns (o: Outcome, saved: Option<seq<string>>)
    modifies history
    ensures o == Click(converter.manager.Rates(), from, to, amountText, now)
    ensures o.Shown? ==> history.records == old(history.records) && saved == None
    ensures o.Converted? ==> history.records == old(history.records) + [o.record]
                             && saved == Some(SaveLines(history.records))
  {
    saved := None;
    if amountText == [] {
      return Shown("Please enter an amount"), None;
    }
    var parsed := ParseDouble(amountText);
    if parsed.None? {
      return Shown("Invalid amount"), None;
    }
    var amount := parsed.value;
    if AtMostZero(amount) {
      return Shown("Amount must be positive"), None;
    }
    if from.None? || to.None? {
      // `HashMap.get(null)` finds no currency: the converter throws
      return Shown("Invalid currency code"), None;
    }
    match converter.Convert(from.value, to.value, amount) {
      case Throws(e) =>
        o := Shown(MessageOf(e));
      case Returns(result) =>
        ClickOfAmount(converter.manager.Rates(), from.value, to.value, amountText, now, amount);
        o := Converted(Label(amount, from.value, result, to.value),
                       NewRecord(from.value, to.value, amount, result, now));
        history.AddRecord(o.record);
        var lines := history.SaveToFile();
        saved := Some(lines);
    }
  }
}
