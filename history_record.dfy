/** `model.HistoryRecord`: one completed conversion and its five-field CSV line. */
module ModelHistoryRecord {
  import opened JavaBase
  import opened JavaStrings
  import opened JavaDoubles
  import opened JavaDateTime

  /** The constructor stores the four given values as they are; `timestamp` is
      the clock reading `LocalDateTime.now()` took, or the one `FromCsv` parsed. */
  datatype HistoryRecord = HistoryRecord(
    fromCurrency: string,
    toCurrency: string,
    amount: Double,
    result: Double,
    timestamp: LocalDateTime)

  /** `new HistoryRecord(from, to, amount, result)`: the four values are
      stored as given, and the timestamp is the clock reading `now`. */
  function NewRecord(fromCurrency: string, toCurrency: string, amount: Double, result: Double,
                     now: LocalDateTime): (r: HistoryRecord)
    ensures r.fromCurrency == fromCurrency && r.toCurrency == toCurrency
    ensures r.amount == amount && r.result == result && r.timestamp == now
  {
    HistoryRecord(fromCurrency, toCurrency, amount, result, now)
  }

  /** The five fields `toCSV` writes, in order. */
  function CsvFields(r: HistoryRecord): seq<string>
  {
    [r.fromCurrency, r.toCurrency, Format2(r.amount), Format2(r.result), Format(r.timestamp)]
  }

  /** `toCSV()`: `String.format("%s,%s,%.2f,%.2f,%s", ...)`. */
  function ToCsv(r: HistoryRecord): (line: string)
    ensures Pieces(line, ',') == Pieces(r.fromCurrency, ',') + Pieces(r.toCurrency, ',')
                                 + [Format2(r.amount), Format2(r.result), Format(r.timestamp)]
  {
    var line := Join(CsvFields(r), ',');
    PiecesOfLine(r);
    line
  }

  lemma PiecesOfLine(r: HistoryRecord)
    ensures Pieces(Join(CsvFields(r), ','), ',')
            == Pieces(r.fromCurrency, ',') + Pieces(r.toCurrency, ',')
               + [Format2(r.amount), Format2(r.result), Format(r.timestamp)]
  {
    Format2Shape(r.amount);
    Format2Shape(r.result);
    FormatHasNoComma(r.timestamp);
    PiecesOfFields(r.fromCurrency, r.toCurrency, Format2(r.amount), Format2(r.result), Format(r.timestamp));
  }

  /** Five comma-joined fields, the last three without commas, split into the
      pieces of the first two followed by the last three. */
  lemma PiecesOfFields(a: string, b: string, c: string, d: string, e: string)
    requires ',' !in c && ',' !in d && ',' !in e
    ensures Pieces(Join([a, b, c, d, e], ','), ',') == Pieces(a, ',') + Pieces(b, ',') + [c, d, e]
  {
    var fs := [a, b, c, d, e];
    var tail := Join(fs[2..], ',');
    assert fs[1..][1..] == fs[2..];
    assert Join(fs, ',') == a + [','] + (b + [','] + tail);
    PiecesOfJoin(fs[2..], ',');
    PiecesConcat(b, tail, ',');
    PiecesConcat(a, b + [','] + tail, ',');
  }

  /** `fromCSV(line)`: `Returns(None)` is the `null` it returns for a line that
      does not split into exactly five fields; an unparsable amount, result or
      timestamp throws (in that order of evaluation). */
  function FromCsv(line: string): (r: Result<Option<HistoryRecord>>)
    ensures r == Returns(None) <==> |Split(line, ',')| != 5
    ensures r.Throws? ==> r.exception == NumberFormat || r.exception == DateTimeParse
    ensures r.Returns? && r.value.Some? ==>
      var parts, rec := Split(line, ','), r.value.value;
      && rec.fromCurrency == parts[0] && rec.toCurrency == parts[1]
      && ParseDouble(parts[2]) == Some(rec.amount)
      && ParseDouble(parts[3]) == Some(rec.result)
      && JavaDateTime.Parse(parts[4]) == Some(rec.timestamp)
  {
    var parts := Split(line, ',');
    if |parts| != 5 then Returns(None)
    else match ParseDouble(parts[2])
      case None => Throws(NumberFormat)
      case Some(amount) =>
        match ParseDouble(parts[3])
        case None => Throws(NumberFormat)
        case Some(result) =>
          match JavaDateTime.Parse(parts[4])
          case None => Throws(DateTimeParse)
          case Some(t) => Returns(Some(HistoryRecord(parts[0], parts[1], amount, result, t)))
  }

  /** The record as it reads back from its CSV line: amount and result rounded
      half up to two decimals, everything else unchanged. */
  function Rounded(r: HistoryRecord): HistoryRecord
  {
    r.(amount := Round2(r.amount), result := Round2(r.result))
  }

  /** Round trip: when neither currency code contains a comma, parsing the line
      `toCSV` wrote gives back the codes, the timestamp and the two-decimal
      amount and result. */
  lemma {:induction false} CsvRoundTrip(r: HistoryRecord)
    requires ',' !in r.fromCurrency && ',' !in r.toCurrency
    ensures FromCsv(ToCsv(r)) == Returns(Some(Rounded(r)))
  {
    SplitOfLine(r);
    ParseFormat2(r.amount);
    ParseFormat2(r.result);
    ParseFormat(r.timestamp);
    FromFields(ToCsv(r), r.fromCurrency, r.toCurrency, Format2(r.amount), Format2(r.result),
               Format(r.timestamp), Round2(r.amount), Round2(r.result), r.timestamp);
  }

  /** A line whose five fields all parse gives the record they spell. */
  lemma FromFields(line: string, a: string, b: string, c: string, d: string, e: string,
                   x: Double, y: Double, t: LocalDateTime)
    requires Split(line, ',') == [a, b, c, d, e]
    requires ParseDouble(c) == Some(x) && ParseDouble(d) == Some(y)
    requires JavaDateTime.Parse(e) == Some(t)
    ensures FromCsv(line) == Returns(Some(HistoryRecord(a, b, x, y, t)))
  {
  }

  /** A line written for comma-free codes splits back into its five fields. */
  lemma SplitOfLine(r: HistoryRecord)
    requires ',' !in r.fromCurrency && ',' !in r.toCurrency
    ensures Split(ToCsv(r), ',') == CsvFields(r)
  {
    var line := ToCsv(r);
    PiecesWithout(r.fromCurrency, ',');
    PiecesWithout(r.toCurrency, ',');
    FormatHasNoComma(r.timestamp);
    assert Pieces(line, ',') == CsvFields(r);
    assert line[|r.fromCurrency|] == ',';
  }

  /** A record built by the constructor reads back from its line with the
      codes and the clock reading it was given and the rounded amounts. */
  lemma NewRecordRoundTrip(fromCurrency: string, toCurrency: string, amount: Double, result: Double,
                           now: LocalDateTime)
    requires ',' !in fromCurrency && ',' !in toCurrency
    ensures FromCsv(ToCsv(NewRecord(fromCurrency, toCurrency, amount, result, now)))
            == Returns(Some(NewRecord(fromCurrency, toCurrency, Round2(amount), Round2(result), now)))
  {
    CsvRoundTrip(NewRecord(fromCurrency, toCurrency, amount, result, now));
  }

  /** The other direction: a comma inside either code adds fields, so the line
      `toCSV` wrote for that record is rejected (`null`). */
  lemma {:induction false} CommaInCodeLosesRecord(r: HistoryRecord)
    requires ',' in r.fromCurrency || ',' in r.toCurrency
    ensures FromCsv(ToCsv(r)) == Returns(None)
  {
    var line := ToCsv(r);
    FormatHasNoComma(r.timestamp);
    if ',' in r.fromCurrency {
      PiecesWith(r.fromCurrency, ',');
      var i :| 0 <= i < |r.fromCurrency| && r.fromCurrency[i] == ',';
      assert line[i] == ',';
    } else {
      PiecesWith(r.toCurrency, ',');
      assert line[|r.fromCurrency|] == ',';
    }
    var ps := Pieces(line, ',');
    assert ps[|ps| - 1] == Format(r.timestamp);
    assert Split(line, ',') == ps;
  }
}
