/** `model.CurrencyManager`: the rate table, a map from currency code to rate,
    filled from `CODE,rate` lines. The rate file's content is a sequence of
    lines; `None` stands for a file that cannot be opened. */
module ModelCurrencyManager {
  import opened JavaBase
  import opened JavaStrings
  import opened JavaDoubles

  type Rates = map<string, Double>

  /** `model.Currency` is not part of this model beyond what the source uses of
      it: a code and its rate. */
  datatype Currency = Currency(code: string, rate: Double)

  /** What a rate-file loop makes of one line: nothing (not two fields), an
      entry, or a `NumberFormatException` from the rate field. */
  datatype RateLine = Ignored | Entry(code: string, rate: Double) | BadRate

  /** One line of the rate file: split on commas; with exactly two fields the
      code is the trimmed first field and the rate the parsed second one. */
  function ReadLine(line: string): (r: RateLine)
    ensures r.Ignored? <==> |Split(line, ',')| != 2
    ensures r.Entry? ==> r.code == Trim(Split(line, ',')[0])
                         && ParseDouble(Trim(Split(line, ',')[1])) == Some(r.rate)
    ensures r.BadRate? ==> ParseDouble(Trim(Split(line, ',')[1])).None?
  {
    var parts := Split(line, ',');
    if |parts| != 2 then Ignored
    else match ParseDouble(Trim(parts[1]))
      case None => BadRate
      case Some(rate) => Entry(Trim(parts[0]), rate)
  }

  /** `ReadLine` applied to every line, in order. */
  function ReadAll(lines: seq<string>): (kinds: seq<RateLine>)
    ensures |kinds| == |lines|
    ensures forall i :: 0 <= i < |lines| ==> kinds[i] == ReadLine(lines[i])
  {
    seq(|lines|, i requires 0 <= i < |lines| => ReadLine(lines[i]))
  }

  /** The table after a load, and the exception that escaped it, if any. */
  datatype RateLoad = RateLoad(rates: Rates, thrown: Option<Exception>)

  /** The load loop over the remaining lines: each entry is put into the map
      (a later code overwrites an earlier one); a bad rate stops the loop with
      `NumberFormatException`, keeping what was put before it. */
  function PutAll(rates: Rates, kinds: seq<RateLine>): RateLoad
    decreases |kinds|
  {
    if kinds == [] then RateLoad(rates, None)
    else match kinds[0]
      case Ignored => PutAll(rates, kinds[1..])
      case BadRate => RateLoad(rates, Some(NumberFormat))
      case Entry(c, r) => PutAll(rates[c := r], kinds[1..])
  }

  /** Reading `lines` into a table that already holds `rates`. */
  function LoadRates(rates: Rates, lines: seq<string>): RateLoad
  {
    PutAll(rates, ReadAll(lines))
  }

  /** Independent reference: the entries of the lines as one map, a later line
      winning over an earlier one with the same code. */
  function EntriesOf(kinds: seq<RateLine>): Rates
  {
    if kinds == [] then map[]
    else (match kinds[0] case Entry(c, r) => map[c := r] case _ => map[]) + EntriesOf(kinds[1..])
  }

  predicate NoBadRate(kinds: seq<RateLine>)
  {
    forall i :: 0 <= i < |kinds| ==> !kinds[i].BadRate?
  }

  /** When every rate parses, loading puts exactly the entries of the lines
      over the starting table, later lines winning. */
  lemma {:induction false} PutAllEntries(rates: Rates, kinds: seq<RateLine>)
    requires NoBadRate(kinds)
    ensures PutAll(rates, kinds) == RateLoad(rates + EntriesOf(kinds), None)
    decreases |kinds|
  {
    if kinds != [] {
      var rest := kinds[1..];
      assert NoBadRate(rest) by {
        forall i | 0 <= i < |rest| ensures !rest[i].BadRate? {
          assert rest[i] == kinds[i + 1];
        }
      }
      match kinds[0]
      case Ignored =>
        PutAllEntries(rates, rest);
        assert EntriesOf(kinds) == map[] + EntriesOf(rest);
        assert map[] + EntriesOf(rest) == EntriesOf(rest);
      case Entry(c, r) =>
        PutAllEntries(rates[c := r], rest);
        assert EntriesOf(kinds) == map[c := r] + EntriesOf(rest);
        assert rates[c := r] + EntriesOf(rest) == rates + (map[c := r] + EntriesOf(rest));
    }
  }

  /** A bad rate at line `k` ends the load with `NumberFormatException`; the
      entries of the lines before it stay in the table. */
  lemma {:induction false} PutAllStops(rates: Rates, kinds: seq<RateLine>, k: nat)
    requires k < |kinds| && NoBadRate(kinds[..k]) && kinds[k].BadRate?
    ensures PutAll(rates, kinds) == RateLoad(rates + EntriesOf(kinds[..k]), Some(NumberFormat))
    decreases k
  {
    if k == 0 {
      assert rates + map[] == rates;
    } else {
      var rest := kinds[1..];
      PrefixTail(kinds, k);
      match kinds[0]
      case Ignored =>
        PutAllStops(rates, rest, k - 1);
      case Entry(c, r) =>
        PutAllStops(rates[c := r], rest, k - 1);
        UpdateThenUnion(rates, c, r, EntriesOf(rest[..k - 1]));
    }
  }

  /** The first `k` lines are the first line and the next `k - 1`. */
  lemma PrefixTail(kinds: seq<RateLine>, k: nat)
    requires 0 < k < |kinds| && NoBadRate(kinds[..k]) && kinds[k].BadRate?
    ensures !kinds[0].BadRate?
    ensures NoBadRate(kinds[1..][..k - 1]) && kinds[1..][k - 1].BadRate?
    ensures EntriesOf(kinds[..k])
            == (match kinds[0] case Entry(c, r) => map[c := r] case _ => map[]) + EntriesOf(kinds[1..][..k - 1])
    ensures kinds[0].Ignored? ==> EntriesOf(kinds[..k]) == EntriesOf(kinds[1..][..k - 1])
  {
    var rest, prefix := kinds[1..], kinds[..k];
    var tail := rest[..k - 1];
    assert kinds[0] == prefix[0];
    assert tail == prefix[1..];
    assert NoBadRate(tail) by {
      forall i | 0 <= i < k - 1 ensures !tail[i].BadRate? {
        assert tail[i] == prefix[i + 1];
      }
    }
    assert map[] + EntriesOf(tail) == EntriesOf(tail);
  }

  lemma UpdateThenUnion(m: Rates, c: string, r: Double, e: Rates)
    ensures m[c := r] + e == m + (map[c := r] + e)
  {
  }

  /** A code is in the entries exactly when some line gives it, and its rate is
      the one of the last such line. */
  lemma {:induction false} EntriesOfLast(kinds: seq<RateLine>, c: string)
    ensures c in EntriesOf(kinds) <==> exists i :: 0 <= i < |kinds| && kinds[i].Entry? && kinds[i].code == c
    ensures forall i :: 0 <= i < |kinds| && kinds[i].Entry? && kinds[i].code == c
                        && (forall j :: i < j < |kinds| ==> !(kinds[j].Entry? && kinds[j].code == c))
                        ==> EntriesOf(kinds)[c] == kinds[i].rate
  {
    if kinds != [] {
      var rest := kinds[1..];
      EntriesOfLast(rest, c);
      if c in EntriesOf(rest) {
        var i :| 0 <= i < |rest| && rest[i].Entry? && rest[i].code == c;
        assert kinds[i + 1] == rest[i];
      }
      forall i | 0 <= i < |kinds| && kinds[i].Entry? && kinds[i].code == c
        ensures i > 0 ==> rest[i - 1].Entry? && rest[i - 1].code == c
      {
      }
      forall i | 0 <= i < |kinds| && kinds[i].Entry? && kinds[i].code == c
                 && (forall j :: i < j < |kinds| ==> !(kinds[j].Entry? && kinds[j].code == c))
        ensures EntriesOf(kinds)[c] == kinds[i].rate
      {
        if i > 0 {
          forall j | i - 1 < j < |rest| ensures !(rest[j].Entry? && rest[j].code == c) {
            assert rest[j] == kinds[j + 1];
          }
        }
      }
    }
  }

  /** A load never drops a code it started with, and adds only codes some
      line gives, whether or not a bad rate stops it. */
  lemma {:induction false} PutAllKeys(rates: Rates, kinds: seq<RateLine>)
    ensures rates.Keys <= PutAll(rates, kinds).rates.Keys
    ensures PutAll(rates, kinds).rates.Keys <= rates.Keys + EntriesOf(kinds).Keys
    decreases |kinds|
  {
    if kinds != [] {
      match kinds[0]
      case Ignored =>
        PutAllKeys(rates, kinds[1..]);
      case BadRate =>
      case Entry(c, r) =>
        PutAllKeys(rates[c := r], kinds[1..]);
    }
  }

  class CurrencyManager {
    var rates: Rates

    /** The field initialiser `new HashMap<>()`: an empty table. */
    constructor Empty()
      ensures rates == map[]
    {
      rates := map[];
    }

    /** `new CurrencyManager(filename)`: an empty table that is then loaded; an
        exception from the load escapes the constructor, so no manager results. */
    static method Create(file: Option<seq<string>>) returns (r: Result<CurrencyManager>)
      ensures file.None? ==> r.Returns? && fresh(r.value) && r.value.rates == map[]
      ensures file.Some? ==> (r.Throws? <==> LoadRates(map[], file.value).thrown.Some?)
      ensures file.Some? && r.Returns? ==> fresh(r.value) && r.value.rates == LoadRates(map[], file.value).rates
    {
      var m := new CurrencyManager.Empty();
      var thrown := m.LoadRatesFromFile(file);
      if thrown.Some? {
        r := Throws(thrown.value);
      } else {
        r := Returns(m);
      }
    }

    /** `loadRatesFromFile`: empties the table, then puts one entry per
        two-field line, code trimmed but not upper-cased. A missing file leaves
        the table empty; a bad rate escapes as `NumberFormatException` with the
        entries before it kept. */
    method LoadRatesFromFile(file: Option<seq<string>>) returns (thrown: Option<Exception>)
      modifies this
      ensures file.None? ==> rates == map[] && thrown == None
      ensures file.Some? ==> RateLoad(rates, thrown) == LoadRates(map[], file.value)
    {
      rates := map[];
      thrown := None;
      if file.None? {
        return;
      }
      var lines := file.value;
      ghost var kinds := ReadAll(lines);
      var i := 0;
      while i < |lines|
        invariant 0 <= i <= |lines|
        invariant PutAll(rates, kinds[i..]) == LoadRates(map[], lines)
        decreases |lines| - i
      {
        assert kinds[i..][0] == ReadLine(lines[i]);
        assert kinds[i..][1..] == kinds[i + 1..];
        var parts := Split(lines[i], ',');
        if |parts| == 2 {
          var currency := Trim(parts[0]);
          var rate := ParseDouble(Trim(parts[1]));
          if rate.None? {
            thrown := Some(NumberFormat);
            return;
          }
          rates := rates[currency := rate.value];
        }
        i := i + 1;
      }
    }

    /** `setRate`: puts the rate under the upper-cased code; every other code
        keeps its rate, and `getRate` for any spelling of the code finds it. */
    method SetRate(currency: string, rate: Double)
      modifies this
      ensures rates == old(rates)[ToUpper(currency) := rate]
      ensures forall c :: GetRate(c) == if ToUpper(c) == ToUpper(currency) then Some(rate) else old(GetRate(c))
    {
      rates := rates[ToUpper(currency) := rate];
    }

    /** `getRate`: the rate under the upper-cased code, `null` when absent. */
    function GetRate(currency: string): (r: Option<Double>)
      reads this
      ensures r.Some? <==> ToUpper(currency) in rates
      ensures r.Some? ==> r.value == rates[ToUpper(currency)]
    {
      if ToUpper(currency) in rates then Some(rates[ToUpper(currency)]) else None
    }

    /** `convert`: both codes upper-cased; an unknown one throws
        `IllegalArgumentException("Unknown currency")`. The result is
        `amount * (toRate / fromRate)`. */
    function Convert(fromCurrency: string, toCurrency: string, amount: Double): (r: Result<Double>)
      reads this
      ensures r.Throws? <==> ToUpper(fromCurrency) !in rates || ToUpper(toCurrency) !in rates
      ensures r.Throws? ==> r.exception == IllegalArgument("Unknown currency")
    {
      var from, to := ToUpper(fromCurrency), ToUpper(toCurrency);
      if from !in rates || to !in rates then Throws(IllegalArgument("Unknown currency"))
      else Returns(Mul(amount, Div(rates[to], rates[from])))
    }

    /** `getCurrency`: an unimplemented stub that always throws; it reads
        nothing of the manager. */
    static function GetCurrency(fromCode: string): (r: Result<Option<Currency>>)
      ensures r == Throws(UnsupportedOperation("Unimplemented method 'getCurrency'"))
    {
      Throws(UnsupportedOperation("Unimplemented method 'getCurrency'"))
    }

    /** `getCurrencies`: the codes as a `TreeSet`, i.e. every code once, in
        `compareTo` order; built by inserting each code. */
    method GetCurrencies() returns (codes: seq<string>)
      ensures StrictlySorted(codes)
      ensures |codes| == |rates|
      ensures forall c :: c in codes <==> c in rates
    {
      codes := [];
      var left := rates.Keys;
      while left != {}
        invariant left <= rates.Keys
        invariant StrictlySorted(codes)
        invariant forall c :: c in codes <==> c in rates && c !in left
        invariant |codes| + |left| == |rates|
        decreases |left|
      {
        var k :| k in left;
        codes := InsertSorted(codes, k);
        left := left - {k};
      }
    }

    /** `saveRatesToFile`: one `code,rate` line per entry, `show` standing for
        `Double.toString`. The entries come in the map's iteration order,
        `order`, which visits every code exactly once. */
    method SaveRatesToFile(show: Double -> string) returns (lines: seq<string>, ghost order: seq<string>)
      ensures |order| == |rates| && |lines| == |rates|
      ensures forall c :: c in order <==> c in rates
      ensures forall i, j :: 0 <= i < j < |order| ==> order[i] != order[j]
      ensures forall i :: 0 <= i < |lines| ==> lines[i] == order[i] + "," + show(rates[order[i]])
    {
      lines, order := [], [];
      var left := rates.Keys;
      while left != {}
        invariant left <= rates.Keys
        invariant |order| == |lines| && |order| + |left| == |rates|
        invariant forall c :: c in order <==> c in rates && c !in left
        invariant forall i, j :: 0 <= i < j < |order| ==> order[i] != order[j]
        invariant forall i :: 0 <= i < |lines| ==> order[i] in rates && lines[i] == order[i] + "," + show(rates[order[i]])
        decreases |left|
      {
        var k :| k in left;
        lines := lines + [k + "," + show(rates[k])];
        order := order + [k];
        left := left - {k};
      }
    }
  }

  /** Looking a code up ignores its case: any spelling finds the rate stored
      under the upper-cased code. */
  lemma GetRateIgnoresCase(m: CurrencyManager, currency: string)
    ensures m.GetRate(currency) == m.GetRate(ToUpper(currency))
  {
    ToUpperIdempotent(currency);
  }

  /** Because the table is emptied first, a reload keeps only codes the file
      gives: whatever the table held before does not survive. */
  lemma ReloadForgetsUnlisted(lines: seq<string>, c: string)
    requires forall i :: 0 <= i < |lines| ==> !(ReadLine(lines[i]).Entry? && ReadLine(lines[i]).code == c)
    ensures c !in LoadRates(map[], lines).rates
  {
    PutAllKeys(map[], ReadAll(lines));
    EntriesOfLast(ReadAll(lines), c);
  }

  /** Converting a code into itself gives the amount back, whatever it is,
      provided the code's rate is finite and nonzero. */
  lemma ConvertSameCode(m: CurrencyManager, code: string, amount: Double)
    requires ToUpper(code) in m.rates
    requires m.rates[ToUpper(code)].Finite? && m.rates[ToUpper(code)].value != 0.0
    ensures m.Convert(code, code, amount) == Returns(amount)
  {
    DivSelf(m.rates[ToUpper(code)].value);
    MulOne(amount);
  }

  /** On finite values with a nonzero source rate, `convert` multiplies the
      amount by the target rate over the source rate: a rate is read as units
      of the currency per common base unit. */
  lemma ConvertFinite(m: CurrencyManager, fromCurrency: string, toCurrency: string, x: real)
    requires ToUpper(fromCurrency) in m.rates && ToUpper(toCurrency) in m.rates
    requires m.rates[ToUpper(fromCurrency)].Finite? && m.rates[ToUpper(toCurrency)].Finite?
    requires m.rates[ToUpper(fromCurrency)].value != 0.0
    ensures m.Convert(fromCurrency, toCurrency, Finite(x)).Returns?
    ensures m.Convert(fromCurrency, toCurrency, Finite(x)).value
         == Finite(x * (m.rates[ToUpper(toCurrency)].value / m.rates[ToUpper(fromCurrency)].value))
  {
  }

}
