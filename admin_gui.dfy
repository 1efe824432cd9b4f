/** `view.AdminGUI`: the rate editor. Its table is a sequence of rows, each a
    currency code and a rate kept as text. */
module ViewAdminGui {
  import opened JavaBase
  import opened JavaStrings
  import opened JavaDoubles

  datatype Row = Row(currency: string, rate: string)

  /** The row a rate-file line gives: with exactly two comma fields, both
      trimmed; the rate is not checked. */
  function ReadRow(line: string): Option<Row>
  {
    var parts := Split(line, ',');
    if |parts| == 2 then Some(Row(Trim(parts[0]), Trim(parts[1]))) else None
  }

  /** The row, if any, of each line. */
  function ReadRows(lines: seq<string>): (rs: seq<Option<Row>>)
    ensures |rs| == |lines|
    ensures forall i :: 0 <= i < |lines| ==> rs[i] == ReadRow(lines[i])
  {
    seq(|lines|, i requires 0 <= i < |lines| => ReadRow(lines[i]))
  }

  /** The rows present, in order. */
  function Kept(rs: seq<Option<Row>>): seq<Row>
  {
    if rs == [] then []
    else Kept(rs[..|rs| - 1]) + (match rs[|rs| - 1] case Some(row) => [row] case None => [])
  }

  /** The rows of the lines, in file order. */
  function LoadRows(lines: seq<string>): seq<Row>
  {
    Kept(ReadRows(lines))
  }

  /** Keeping one more position adds its row, if any, at the end. */
  lemma KeptStep(rs: seq<Option<Row>>, i: nat)
    requires i < |rs|
    ensures Kept(rs[..i + 1]) == Kept(rs[..i]) + (match rs[i] case Some(row) => [row] case None => [])
  {
    assert rs[..i + 1][..i] == rs[..i];
  }

  /** Keeping the rows of two stretches one after the other. */
  lemma {:induction false} KeptAppend(a: seq<Option<Row>>, b: seq<Option<Row>>)
    ensures Kept(a + b) == Kept(a) + Kept(b)
    decreases |b|
  {
    if b == [] {
      assert a + b == a;
    } else {
      var b' := b[..|b| - 1];
      assert (a + b)[..|a + b| - 1] == a + b';
      assert (a + b)[|a + b| - 1] == b[|b| - 1];
      KeptAppend(a, b');
    }
  }

  /** A row is kept exactly when some position holds it. */
  lemma {:induction false} KeptMembers(rs: seq<Option<Row>>)
    ensures |Kept(rs)| <= |rs|
    ensures forall row :: row in Kept(rs) <==> Some(row) in rs
  {
    if rs != [] {
      var init := rs[..|rs| - 1];
      KeptMembers(init);
      assert rs == init + [rs[|rs| - 1]];
    }
  }

  /** Loading concatenated files gives the rows of the first, then those of
      the second. */
  lemma LoadRowsAppend(a: seq<string>, b: seq<string>)
    ensures LoadRows(a + b) == LoadRows(a) + LoadRows(b)
  {
    assert ReadRows(a + b) == ReadRows(a) + ReadRows(b);
    KeptAppend(ReadRows(a), ReadRows(b));
  }

  /** Every row comes from a two-field line: the rows are exactly the rows of
      the kept lines, at most one per line. */
  lemma LoadRowsFromLines(lines: seq<string>)
    ensures |LoadRows(lines)| <= |lines|
    ensures forall row :: row in LoadRows(lines) <==> exists i :: 0 <= i < |lines| && ReadRow(lines[i]) == Some(row)
  {
    var rs := ReadRows(lines);
    KeptMembers(rs);
    forall row ensures Some(row) in rs <==> exists i :: 0 <= i < |lines| && ReadRow(lines[i]) == Some(row)
    {
      if Some(row) in rs {
        var i :| 0 <= i < |rs| && rs[i] == Some(row);
        assert ReadRow(lines[i]) == Some(row);
      }
    }
  }

  /** The line `saveRatesToFile` writes for a row, `show` standing for
      `Double.toString`; `None` when the rate text does not parse. */
  function SaveLine(row: Row, show: Double -> string): Option<string>
  {
    match ParseDouble(row.rate)
    case None => None
    case Some(rate) => Some(row.currency + "," + show(rate))
  }

  /** The outcome of a save: whether it reports success, and the lines
      written before it stopped. */
  datatype Saved = Saved(ok: bool, written: seq<string>)

  /** Writing the lines in order, stopping with `false` at the first row that
      has none. */
  function WriteAll(lines: seq<Option<string>>): Saved
    decreases |lines|
  {
    if lines == [] then Saved(true, [])
    else match lines[0]
      case None => Saved(false, [])
      case Some(line) =>
        var rest := WriteAll(lines[1..]);
        Saved(rest.ok, [line] + rest.written)
  }

  /** One step of writing from line `i`: a missing line stops it there;
      otherwise that line comes first. */
  lemma WriteAllStep(lines: seq<Option<string>>, i: nat)
    requires i < |lines|
    ensures lines[i].None? ==> WriteAll(lines[i..]) == Saved(false, [])
    ensures lines[i].Some? ==>
              WriteAll(lines[i..])
              == Saved(WriteAll(lines[i + 1..]).ok, [lines[i].value] + WriteAll(lines[i + 1..]).written)
  {
    assert lines[i..][0] == lines[i];
    assert lines[i..][1..] == lines[i + 1..];
  }

  /** Saving the rows: one line per row in row order, stopping with `false`
      at the first rate that does not parse. */
  function SaveAll(rows: seq<Row>, show: Double -> string): Saved
  {
    if rows == [] then Saved(true, [])
    else match SaveLine(rows[0], show)
      case None => Saved(false, [])
      case Some(line) =>
        var rest := SaveAll(rows[1..], show);
        Saved(rest.ok, [line] + rest.written)
  }

  /** `SaveLine` for a given `Double.toString`. */
  function SaveLineOf(show: Double -> string): Row -> Option<string>
  {
    row => SaveLine(row, show)
  }

  /** The line, if any, that `line` gives for each row. */
  function LinesOf(rows: seq<Row>, line: Row -> Option<string>): (lines: seq<Option<string>>)
    ensures |lines| == |rows|
    ensures forall i :: 0 <= i < |rows| ==> lines[i] == line(rows[i])
  {
    seq(|rows|, i requires 0 <= i < |rows| => line(rows[i]))
  }

  /** The line, if any, of each row. */
  function SaveLines(rows: seq<Row>, show: Double -> string): (lines: seq<Option<string>>)
    ensures |lines| == |rows|
    ensures forall i :: 0 <= i < |rows| ==> lines[i] == SaveLine(rows[i], show)
  {
    LinesOf(rows, SaveLineOf(show))
  }

  /** `SaveAll` writes the rows' lines as `WriteAll` does. */
  lemma {:induction false} SaveAllWrites(rows: seq<Row>, show: Double -> string)
    ensures SaveAll(rows, show) == WriteAll(SaveLines(rows, show))
  {
    if rows != [] {
      SaveAllWrites(rows[1..], show);
      assert SaveLines(rows, show)[1..] == SaveLines(rows[1..], show);
    }
  }

  /** Writing succeeds exactly when every row has a line, and then writes
      them all. */
  lemma {:induction false} WriteAllOk(lines: seq<Option<string>>)
    ensures WriteAll(lines).ok <==> forall i :: 0 <= i < |lines| ==> lines[i].Some?
    ensures WriteAll(lines).ok ==>
              |WriteAll(lines).written| == |lines|
              && forall i :: 0 <= i < |lines| ==> Some(WriteAll(lines).written[i]) == lines[i]
    decreases |lines|
  {
    if lines != [] {
      var rest := lines[1..];
      WriteAllOk(rest);
      assert forall i :: 0 < i < |lines| ==> lines[i] == rest[i - 1];
    }
  }

  /** With the first missing line at `k`, writing fails after the lines
      before it. */
  lemma {:induction false} WriteAllStops(lines: seq<Option<string>>, k: nat)
    requires k < |lines| && lines[k].None?
    requires forall i :: 0 <= i < k ==> lines[i].Some?
    ensures WriteAll(lines) == Saved(false, WriteAll(lines[..k]).written)
    ensures WriteAll(lines[..k]).ok
    decreases k
  {
    if k > 0 {
      var rest := lines[1..];
      assert rest[..k - 1] == lines[..k][1..];
      assert forall i :: 0 <= i < k - 1 ==> rest[i] == lines[i + 1];
      WriteAllStops(rest, k - 1);
    }
  }

  /** A save succeeds exactly when every rate parses, and then writes one
      line per row, each the row's currency, a comma and its rate. */
  lemma SaveAllOk(rows: seq<Row>, show: Double -> string)
    ensures SaveAll(rows, show).ok <==> forall i :: 0 <= i < |rows| ==> ParseDouble(rows[i].rate).Some?
    ensures SaveAll(rows, show).ok ==>
              |SaveAll(rows, show).written| == |rows|
              && forall i :: 0 <= i < |rows| ==>
                   SaveAll(rows, show).written[i] == rows[i].currency + "," + show(ParseDouble(rows[i].rate).value)
  {
    SaveAllWrites(rows, show);
    var lines := SaveLines(rows, show);
    WriteAllOk(lines);
    forall i | 0 <= i < |rows|
      ensures lines[i].Some? <==> ParseDouble(rows[i].rate).Some?
      ensures lines[i].Some? ==> lines[i].value == rows[i].currency + "," + show(ParseDouble(rows[i].rate).value)
    {
      assert lines[i] == SaveLine(rows[i], show);
    }
  }

  /** When the first unparsable rate is in row `k`, the save fails having
      written exactly the lines of the rows before it. */
  lemma {:induction false} SaveAllStops(rows: seq<Row>, show: Double -> string, k: nat)
    requires k < |rows| && ParseDouble(rows[k].rate).None?
    requires forall i :: 0 <= i < k ==> ParseDouble(rows[i].rate).Some?
    ensures !SaveAll(rows, show).ok
    ensures SaveAll(rows, show).written == SaveAll(rows[..k], show).written
    ensures SaveAll(rows[..k], show).ok
    decreases k
  {
    if k > 0 {
      var rest := rows[1..];
      assert rows[..k][0] == rows[0];
      assert rows[..k][1..] == rest[..k - 1];
      assert forall i :: 0 <= i < k - 1 ==> rest[i] == rows[i + 1];
      assert rest[k - 1] == rows[k];
      SaveAllStops(rest, show, k - 1);
    }
  }

  class AdminGUI {
    var rows: seq<Row>

    /** The window: its table filled from the rate file. */
    constructor (file: Option<seq<string>>)
      ensures rows == if file.Some? then LoadRows(file.value) else []
    {
      rows := [];
      new;
      LoadRatesFromFile(file);
    }

    /** `loadRatesFromFile`: clears the table, then adds one row per two-field
        line in file order. A missing file leaves the table empty. */
    method LoadRatesFromFile(file: Option<seq<string>>)
      modifies this
      ensures rows == if file.Some? then LoadRows(file.value) else []
    {
      rows := [];
      if file.None? {
        return;
      }
      var lines := file.value;
      ghost var rs := ReadRows(lines);
      var i := 0;
      while i < |lines|
        invariant 0 <= i <= |lines|
        invariant rows == Kept(rs[..i])
      {
        KeptStep(rs, i);
        assert rs[i] == ReadRow(lines[i]);
        var parts := Split(lines[i], ',');
        if |parts| == 2 {
          rows := rows + [Row(Trim(parts[0]), Trim(parts[1]))];
        }
        i := i + 1;
      }
      assert rs[..i] == rs;
    }

    /** `isCellEditable`: only the rate column. */
    static function IsCellEditable(row: int, column: int): (editable: bool)
      ensures editable <==> column == 1
    {
      column == 1
    }

    /** An edit of cell (`row`, `column`) as the table applies it: only an
        editable cell takes the new text. No edit changes a currency code or
        the number of rows. */
    method EditCell(row: nat, column: int, value: string)
      requires row < |rows|
      modifies this
      ensures |rows| == |old(rows)|
      ensures forall i :: 0 <= i < |rows| ==> rows[i].currency == old(rows)[i].currency
      ensures forall i :: 0 <= i < |rows| && i != row ==> rows[i] == old(rows)[i]
      ensures rows[row].rate == if IsCellEditable(row, column) then value else old(rows)[row].rate
    {
      if IsCellEditable(row, column) {
        rows := rows[row := rows[row].(rate := value)];
      }
    }

    /** `saveRatesToFile`: with a file that opens (`writable`), writes one line
        per row and stops with `false` at the first rate that does not parse;
        a file that does not open gives `false` with nothing written. The rows
        are not changed. */
    method SaveRatesToFile(show: Double -> string, writable: bool) returns (ok: bool, written: seq<string>)
      ensures writable ==> Saved(ok, written) == SaveAll(rows, show)
      ensures !writable ==> !ok && written == []
    {
      if !writable {
        return false, [];
      }
      ok, written := WriteRows(SaveLineOf(show));
      SaveAllWrites(rows, show);
    }

    /** The loop of `saveRatesToFile`: row by row, the row's line is
        written, stopping with `false` at the first row that has none;
        `line` is the parse-and-build step of the loop body. */
    method WriteRows(line: Row -> Option<string>) returns (ok: bool, written: seq<string>)
      ensures Saved(ok, written) == WriteAll(LinesOf(rows, line))
    {
      ghost var lines := LinesOf(rows, line);
      written := [];
      var i := 0;
      while i < |rows|
        invariant 0 <= i <= |rows|
        invariant WriteAll(lines) == Saved(WriteAll(lines[i..]).ok, written + WriteAll(lines[i..]).written)
      {
        WriteAllStep(lines, i);
        var l := line(rows[i]);
        if l.None? {
          return false, written;
        }
        written := written + [l.value];
        i := i + 1;
      }
      ok := true;
      assert lines[i..] == [];
    }
  }
}
