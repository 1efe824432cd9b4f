/** `model.ExchangeHistory`: the in-memory conversion log, saved as one CSV line
    per record and reloaded from such lines. The history file's content is a
    sequence of lines; `None` stands for a file that cannot be opened. */
module ModelExchangeHistory {
  import opened JavaBase
  import opened ModelHistoryRecord

  /** What a load leaves behind: the records appended, and the exception that
      escaped it, if any. */
  datatype Loaded = Loaded(records: seq<HistoryRecord>, thrown: Option<Exception>)

  /** What `fromCSV` makes of one line: a record, `null`, or an exception. */
  type LineOutcome = Result<Option<HistoryRecord>>

  /** `fromCSV` applied to every line of the file, in order. */
  function ParseAll(lines: seq<string>): (outcomes: seq<LineOutcome>)
    ensures |outcomes| == |lines|
    ensures forall i :: 0 <= i < |lines| ==> outcomes[i] == FromCsv(lines[i])
  {
    seq(|lines|, i requires 0 <= i < |lines| => FromCsv(lines[i]))
  }

  /** The load loop over the remaining outcomes, with `acc` already appended:
      `null` is skipped, and the first exception stops the loop. */
  function LoadFrom(acc: seq<HistoryRecord>, outcomes: seq<LineOutcome>): Loaded
    decreases |outcomes|
  {
    if outcomes == [] then Loaded(acc, None)
    else match outcomes[0]
      case Throws(e) => Loaded(acc, Some(e))
      case Returns(None) => LoadFrom(acc, outcomes[1..])
      case Returns(Some(r)) => LoadFrom(acc + [r], outcomes[1..])
  }

  /** What `loadFromFile` leaves for a readable file with these lines. */
  function LoadLines(lines: seq<string>): Loaded
  {
    LoadFrom([], ParseAll(lines))
  }

  /** Independent reference: the records among the outcomes, in order. */
  function RecordsIn(outcomes: seq<LineOutcome>): seq<HistoryRecord>
  {
    if outcomes == [] then []
    else (match outcomes[0] case Returns(Some(r)) => [r] case _ => []) + RecordsIn(outcomes[1..])
  }

  /** No outcome is an exception. */
  predicate NoException(outcomes: seq<LineOutcome>)
  {
    forall i :: 0 <= i < |outcomes| ==> outcomes[i].Returns?
  }

  /** Tolerant reload: when no line throws, the load appends exactly the records
      of the well-formed lines, in file order, and raises nothing. */
  lemma {:induction false} LoadSkipsNull(acc: seq<HistoryRecord>, outcomes: seq<LineOutcome>)
    requires NoException(outcomes)
    ensures LoadFrom(acc, outcomes) == Loaded(acc + RecordsIn(outcomes), None)
    decreases |outcomes|
  {
    if outcomes != [] {
      assert outcomes[0].Returns?;
      assert NoException(outcomes[1..]) by {
        forall i | 0 <= i < |outcomes| - 1 ensures outcomes[1..][i].Returns? {
          assert outcomes[1..][i] == outcomes[i + 1];
        }
      }
      var rest := outcomes[1..];
      match outcomes[0]
      case Returns(None) =>
        assert RecordsIn(outcomes) == RecordsIn(rest);
        LoadSkipsNull(acc, rest);
      case Returns(Some(r)) =>
        assert RecordsIn(outcomes) == [r] + RecordsIn(rest);
        LoadSkipsNull(acc + [r], rest);
        assert acc + [r] + RecordsIn(rest) == acc + ([r] + RecordsIn(rest));
    }
  }

  /** An exception ends the load; the records of the lines before it stay
      loaded. */
  lemma {:induction false} LoadStopsAtException(acc: seq<HistoryRecord>, outcomes: seq<LineOutcome>, k: nat)
    requires k < |outcomes| && NoException(outcomes[..k]) && outcomes[k].Throws?
    ensures LoadFrom(acc, outcomes) == Loaded(acc + RecordsIn(outcomes[..k]), Some(outcomes[k].exception))
    decreases k
  {
    if k > 0 {
      var rest := outcomes[1..];
      assert outcomes[0].Returns? by {
        assert outcomes[..k][0] == outcomes[0];
      }
      assert rest[..k - 1] == outcomes[..k][1..];
      assert NoException(rest[..k - 1]) by {
        forall i | 0 <= i < k - 1 ensures rest[i].Returns? {
          assert rest[i] == outcomes[..k][i + 1];
        }
      }
      assert rest[k - 1] == outcomes[k];
      match outcomes[0]
      case Returns(None) =>
        LoadStopsAtException(acc, rest, k - 1);
      case Returns(Some(r)) =>
        LoadStopsAtException(acc + [r], rest, k - 1);
        assert acc + [r] + RecordsIn(rest[..k - 1]) == acc + ([r] + RecordsIn(rest[..k - 1]));
    }
  }

  /** The lines `saveToFile` writes: one `toCSV` line per record, in list order. */
  function SaveLines(records: seq<HistoryRecord>): (lines: seq<string>)
    ensures |lines| == |records|
  {
    seq(|records|, i requires 0 <= i < |records| => ToCsv(records[i]))
  }

  function RoundedAll(records: seq<HistoryRecord>): (rs: seq<HistoryRecord>)
    ensures |rs| == |records|
    ensures forall i :: 0 <= i < |records| ==> rs[i] == Rounded(records[i])
  {
    seq(|records|, i requires 0 <= i < |records| => Rounded(records[i]))
  }

  predicate CodesWithoutComma(records: seq<HistoryRecord>)
  {
    forall i :: 0 <= i < |records| ==> ',' !in records[i].fromCurrency && ',' !in records[i].toCurrency
  }

  /** Saving and loading again gives back as many records as were saved, in
      the same order, each with its amount and result rounded to two decimals,
      provided no currency code contains a comma. */
  lemma {:induction false} SaveThenLoad(records: seq<HistoryRecord>)
    requires CodesWithoutComma(records)
    ensures LoadLines(SaveLines(records)) == Loaded(RoundedAll(records), None)
  {
    var outcomes := ParseAll(SaveLines(records));
    forall i | 0 <= i < |records| ensures outcomes[i] == Returns(Some(Rounded(records[i]))) {
      CsvRoundTrip(records[i]);
    }
    LoadSkipsNull([], outcomes);
    RecordsOfRounded(records, outcomes);
  }

  lemma {:induction false} RecordsOfRounded(records: seq<HistoryRecord>, outcomes: seq<LineOutcome>)
    requires |outcomes| == |records|
    requires forall i :: 0 <= i < |records| ==> outcomes[i] == Returns(Some(Rounded(records[i])))
    ensures RecordsIn(outcomes) == RoundedAll(records)
  {
    if records != [] {
      RecordsOfRounded(records[1..], outcomes[1..]);
      assert RoundedAll(records) == [Rounded(records[0])] + RoundedAll(records[1..]);
    }
  }

  class ExchangeHistory {
    var records: seq<HistoryRecord>

    /** A new history is empty. */
    constructor ()
      ensures records == []
    {
      records := [];
    }

    /** `addRecord`: appends at the end; the earlier records are unchanged. */
    method AddRecord(r: HistoryRecord)
      modifies this
      ensures records == old(records) + [r]
    {
      records := records + [r];
    }

    /** `getAllRecords`: the list, oldest first. */
    method GetAllRecords() returns (rs: seq<HistoryRecord>)
      ensures rs == records
    {
      rs := records;
    }

    /** `saveToFile`: the lines written, one `toCSV` line per record in list
        order; the records are not changed. */
    method SaveToFile() returns (lines: seq<string>)
      ensures lines == SaveLines(records)
    {
      lines := [];
      var i := 0;
      while i < |records|
        invariant 0 <= i <= |records|
        invariant lines == SaveLines(records[..i])
      {
        assert SaveLines(records[..i + 1]) == SaveLines(records[..i]) + [ToCsv(records[i])];
        lines := lines + [ToCsv(records[i])];
        i := i + 1;
      }
      assert records[..i] == records;
    }

    /** `loadFromFile`: clears the list, then appends the record of each line
        `fromCSV` accepts, in file order. A missing or unreadable file leaves
        the list empty and raises nothing; an exception from `fromCSV` escapes
        with the records before it kept. */
    method LoadFromFile(file: Option<seq<string>>) returns (thrown: Option<Exception>)
      modifies this
      ensures file.None? ==> records == [] && thrown == None
      ensures file.Some? ==> Loaded(records, thrown) == LoadLines(file.value)
    {
      records := [];
      thrown := None;
      if file.None? {
        return;
      }
      var lines := file.value;
      ghost var outcomes := ParseAll(lines);
      var i := 0;
      while i < |lines|
        invariant 0 <= i <= |lines|
        invariant LoadFrom(records, outcomes[i..]) == LoadLines(lines)
        decreases |lines| - i
      {
        assert outcomes[i..][0] == FromCsv(lines[i]);
        assert outcomes[i..][1..] == outcomes[i + 1..];
        match FromCsv(lines[i]) {
          case Throws(e) =>
            thrown := Some(e);
            return;
          case Returns(None) =>
          case Returns(Some(r)) =>
            records := records + [r];
        }
        i := i + 1;
      }
    }
  }
}
