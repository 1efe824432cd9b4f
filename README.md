# Currency exchange: a Dafny model of the rate tables, converters and history log

This project models the data side of a small Java desktop currency converter:

- the rate table `model.CurrencyManager`: a map from currency code to rate, loaded from `CODE,rate` lines, with an upper-casing `setRate`/`getRate`, a sorted code listing, `convert` and a `getCurrency` stub;
- the converter `model.CurrencyConverter`;
- the five-field CSV line of `model.HistoryRecord`;
- the append-only `model.ExchangeHistory`, which is cleared and then reloaded from lines;
- inside `view.UserGUI`: the window's own `Currency`, `CurrencyManager` and `CurrencyConverter`, and the transition made by the Convert button;
- the load, edit and save logic of the rate editor `view.AdminGUI`.

Java's library behaviour that these classes rely on is spelled out in Dafny rather than assumed:

- `String.split(",")`, which keeps leading and interior empty fields and drops trailing ones;
- `trim` and ASCII `toUpperCase`;
- `String.compareTo` order, used for the `TreeSet`;
- `double` arithmetic, with infinities and NaN;
- `Double.parseDouble`;
- `%.2f`;
- `LocalDateTime.toString` and `LocalDateTime.parse`.

Exceptions are values (`Result` = `Returns` | `Throws`). A `null` string, number or record is `Option.None`; a `null` object reference (the window's own `getCurrency`) is Dafny's `null`.

Classes whose fields the source updates in place are Dafny classes:

- the rate map is a `map` field;
- the history is a `seq` field;
- the editor's table is a `seq` of rows.

Each method is specified against a function on the old state and the file's lines, and the lemmas state the properties of those functions.

A file's content is a sequence of lines. `None` stands for a file that cannot be opened. `Double.toString`, used by the two rate savers, is a parameter `show`.

Behaviour of the code worth noting:

- the model manager's load trims codes but does not upper-case them;
- a non-numeric rate or history field propagates out of a load, with the entries before it kept, instead of being skipped;
- rates are not required to be positive;
- the rate file is written in `HashMap` order, not sorted;
- the two conversion rules are recorded as written, and they are not the same (see `RulesAreInverse`, `RulesDisagree`).

## Model

| member | source | states |
|---|---|---|
| ModelCurrencyManager.ReadLine | new/model/CurrencyManager.java:20-24 | a line is ignored exactly when it does not split into two comma fields; otherwise the code is the trimmed first field and the rate is the parsed trimmed second field, or the line is a bad rate when that field does not parse |
| ModelCurrencyManager.PutAllEntries | new/model/CurrencyManager.java:19-25 | when no rate is bad, loading puts exactly the lines' entries over the starting table, a later line with the same code winning, and throws nothing |
| ModelCurrencyManager.PutAllStops | new/model/CurrencyManager.java:23-27 | a bad rate at line k ends the load with NumberFormatException; the entries of lines before k stay in the table |
| ModelCurrencyManager.EntriesOfLast | new/model/CurrencyManager.java:22-24 | a code is in the loaded entries iff some line gives it, and its rate is that of the last such line |
| ModelCurrencyManager.PutAllKeys | new/model/CurrencyManager.java:19-25 | a load never drops a starting code and adds only codes that some line gives, even when it is stopped early |
| ModelCurrencyManager.ReloadForgetsUnlisted | new/model/CurrencyManager.java:16 | since the map is cleared first, a code that no line gives is absent after a reload |
| ModelCurrencyManager.CurrencyManager.Create | new/model/CurrencyManager.java:9-12 | the constructor loads into an empty table; a missing file gives an empty manager; it throws exactly when the load throws, and otherwise holds the loaded rates |
| ModelCurrencyManager.CurrencyManager.LoadRatesFromFile | new/model/CurrencyManager.java:15-30 | the table becomes the load of the file's lines from an empty map, with the exception that escapes; a missing file leaves the table empty and raises nothing |
| ModelCurrencyManager.CurrencyManager.SetRate | new/model/CurrencyManager.java:33-35 | puts the rate under the upper-cased code; every other key is unchanged, and getRate of any spelling of the code now returns it |
| ModelCurrencyManager.CurrencyManager.GetRate | new/model/CurrencyManager.java:63-65 | null exactly when the upper-cased code is absent; otherwise the rate stored under it |
| ModelCurrencyManager.GetRateIgnoresCase | new/model/CurrencyManager.java:63-65 | a lookup gives the same answer for a code and its upper-cased form |
| ModelCurrencyManager.CurrencyManager.Convert | new/model/CurrencyManager.java:48-57 | throws IllegalArgumentException("Unknown currency") exactly when either upper-cased code is absent |
| ModelCurrencyManager.ConvertFinite | new/model/CurrencyManager.java:54-56 | for finite rates and a nonzero source rate, the result is amount * (toRate / fromRate) |
| ModelCurrencyManager.ConvertSameCode | new/model/CurrencyManager.java:48-57 | converting a code into itself returns the amount unchanged, NaN and infinities included, given a finite nonzero rate (`r / r` is exactly 1, so this holds for IEEE doubles too) |
| ModelCurrencyManager.CurrencyManager.GetCurrencies | new/model/CurrencyManager.java:59-61 | strictly sorted in compareTo order, one entry per key, and holds exactly the keys |
| ModelCurrencyManager.CurrencyManager.SaveRatesToFile | new/model/CurrencyManager.java:38-45 | exactly one `key,value` line per map entry, in an iteration order that visits each key once |
| ModelCurrencyManager.CurrencyManager.GetCurrency | new/model/CurrencyManager.java:67-70 | always throws UnsupportedOperationException("Unimplemented method 'getCurrency'") |
| ModelCurrencyConverter.ConvertWith | new/model/CurrencyConverter.java:14-17 | throws IllegalArgumentException("Invalid currency code") exactly when either looked-up currency is null |
| ModelCurrencyConverter.ConvertWithFinite | new/model/CurrencyConverter.java:16-17 | on finite values, the result is amount * fromRate / toRate |
| ModelCurrencyConverter.ConvertWithSameRate | new/model/CurrencyConverter.java:16-17 | in exact arithmetic, with the same finite nonzero rate on both sides, the amount comes back unchanged |
| ModelCurrencyConverter.CurrencyConverter.Convert | new/model/CurrencyConverter.java:10-18 | looks both codes up through the manager's getCurrency stub, so it never returns a value and always throws UnsupportedOperationException; it changes nothing |
| ModelCurrencyConverter.RulesAreInverse | new/model/CurrencyManager.java:54-56 | the manager's rule over rates f and t equals the converter's rule over the reciprocal rates 1/f and 1/t |
| ModelCurrencyConverter.RulesDisagree | new/model/CurrencyConverter.java:16-17 | with USD 1 and THB 35, 10 USD to THB is 350 under the manager's rule and 10/35 under the converter's rule |
| JavaStrings.SplitJoin | new/model/HistoryRecord.java:22-26 | splitting a comma-joined line of at least two comma-free fields, the last one non-empty, gives the fields back |
| JavaStrings.BeforeByCodeUnits | new/model/CurrencyManager.java:60 | the order of the sorted listing compares UTF-16 code units: U+1F600 sorts before U+E000, and U+10000 before U+FFFF |
| JavaStrings.InsertSorted | new/model/CurrencyManager.java:60 | inserting a new code into a strictly sorted sequence keeps it strictly sorted and adds exactly that code |
| JavaDoubles.ParseFormat2 | new/model/HistoryRecord.java:22-28 | parseDouble of the `%.2f` text of any double gives that double rounded half up to two decimals, NaN and the infinities included |
| JavaDoubles.Round2 | new/model/HistoryRecord.java:22 | the two-decimal rounding is within 0.005 of the value |
| JavaDateTime.ParseFormat | new/model/HistoryRecord.java:22-29 | LocalDateTime.parse of a timestamp's toString gives the timestamp back |
| JavaDateTime.ParseIgnoresSeparatorCase | new/model/HistoryRecord.java:29 | parsing accepts a lower-case `t` between date and time wherever it accepts `T` |
| JavaDateTime.FormatHasNoComma | new/model/HistoryRecord.java:22 | a timestamp's text never contains a comma, so it stays one field |
| ModelHistoryRecord.NewRecord | new/model/HistoryRecord.java:13-18 | the constructor stores from, to, amount and result exactly as given, and the timestamp is the clock reading |
| ModelHistoryRecord.NewRecordRoundTrip | new/model/HistoryRecord.java:13-31 | a record made by the constructor with comma-free codes reads back from its line with the same codes and clock reading and the amounts rounded to two decimals |
| ModelHistoryRecord.ToCsv | new/model/HistoryRecord.java:21-23 | the line's comma pieces are the pieces of from and to, then the two-decimal amount, the two-decimal result and the timestamp text, in that order |
| ModelHistoryRecord.FromCsv | new/model/HistoryRecord.java:25-31 | null exactly when the line does not split into five fields; otherwise it throws only a number or date-time parse error, or it returns fields 0 and 1 verbatim with the amount, result and timestamp that parse from fields 2-4 |
| ModelHistoryRecord.CsvRoundTrip | new/model/HistoryRecord.java:21-31 | when neither code contains a comma, fromCSV(toCSV(r)) is r with its amount and result rounded to two decimals |
| ModelHistoryRecord.SplitOfLine | new/model/HistoryRecord.java:22-27 | the line written for comma-free codes splits into exactly its five fields, so it passes the five-field test |
| ModelHistoryRecord.CommaInCodeLosesRecord | new/model/HistoryRecord.java:21-27 | when a code contains a comma, fromCSV(toCSV(r)) is null: the saved record is skipped on reload |
| ModelExchangeHistory.LoadSkipsNull | new/model/ExchangeHistory.java:24-26 | when no line throws, the loaded records are exactly the non-null parses, in file order |
| ModelExchangeHistory.LoadStopsAtException | new/model/ExchangeHistory.java:25-28 | the first throwing line ends the load with its exception; the records of the lines before it are kept |
| ModelExchangeHistory.SaveThenLoad | new/model/ExchangeHistory.java:14-26 | loading the lines that saveToFile writes gives back every record, in order, with amount and result rounded, and no exception, provided no code contains a comma |
| ModelExchangeHistory.ExchangeHistory.AddRecord | new/model/ExchangeHistory.java:9 | appends the record at the end; the earlier records are unchanged |
| ModelExchangeHistory.ExchangeHistory.GetAllRecords | new/model/ExchangeHistory.java:10 | the current records, oldest first |
| ModelExchangeHistory.ExchangeHistory.SaveToFile | new/model/ExchangeHistory.java:12-18 | one toCSV line per record, in list order; the records are not changed |
| ModelExchangeHistory.ExchangeHistory.LoadFromFile | new/model/ExchangeHistory.java:20-29 | clears the list, then the list and the escaping exception are those of loading the file's lines; a missing file leaves the list empty with no error |
| ViewUserGui.Currency.SetRate | new/view/UserGUI.java:33-35 | sets the rate; the code is a constant and is never reassigned |
| ViewUserGui.CurrencyManager.LoadRatesFromFile | new/view/UserGUI.java:42-56 | does not clear the map: the rates become the load of the lines over the existing rates, each object keyed by its own code; a missing file changes nothing |
| ViewUserGui.CurrencyManager.Put | new/view/UserGUI.java:50 | a fresh Currency object goes under the code; every other code keeps its rate |
| ViewUserGui.ReloadKeepsUnlisted | new/view/UserGUI.java:42-56 | a code already in the table that no line gives keeps its rate across a reload |
| ViewUserGui.CurrencyManager.GetCurrency | new/view/UserGUI.java:58-60 | an exact-case lookup: null exactly when the code is absent |
| ViewUserGui.CurrencyManager.GetAllCurrencies | new/view/UserGUI.java:62-64 | the objects returned are exactly the values of the table |
| ViewUserGui.ListedCodes | new/view/UserGUI.java:62-64 | the codes of getAllCurrencies, as listed in the drop-downs, are exactly the table's codes |
| ViewUserGui.CurrencyConverter.Convert | new/view/UserGUI.java:75-85 | the converter's rule applied to the exact-case rates of the two codes, throwing IllegalArgumentException("Invalid currency code") when either code is unknown |
| ViewUserGui.Click | new/view/UserGUI.java:349-379 | the Convert handler's decision: a conversion needs both selected codes and an amount that parses, and its record holds the two selected codes, the parsed amount and the clock reading |
| ViewUserGui.ClickConverts | new/view/UserGUI.java:349-372 | a click converts iff the text is non-empty, parses, is not <= 0, and both selected codes are known; the record then holds the selected codes, the amount, the converted value and the clock reading, and the label shows both amounts with two decimals |
| ViewUserGui.ClickMessages | new/view/UserGUI.java:354-377 | a click that does not convert shows one of the four messages |
| ViewUserGui.ClickAcceptsNaN | new/view/UserGUI.java:360-364 | the text "NaN" passes the amount <= 0 check and is converted and recorded as NaN |
| ViewUserGui.OnConvert | new/view/UserGUI.java:349-379 | the outcome is the one Click specifies; a conversion appends exactly that record and saves the history; a message leaves the history unchanged and saves nothing |
| ViewAdminGui.AdminGUI.constructor | new/view/AdminGUI.java:12-31 | a new window's table holds the rows loaded from the rate file, and no rows when the file is missing |
| ViewAdminGui.AdminGUI.LoadRatesFromFile | new/view/AdminGUI.java:49-64 | clears the rows, then holds one trimmed (currency, rate-text) row per two-field line, in file order; a missing file leaves no rows |
| ViewAdminGui.LoadRowsAppend | new/view/AdminGUI.java:53-58 | the rows of two stretches of lines are the first stretch's rows followed by the second's |
| ViewAdminGui.LoadRowsFromLines | new/view/AdminGUI.java:54-58 | each row comes from a two-field line, at most one row per line |
| ViewAdminGui.AdminGUI.IsCellEditable | new/view/AdminGUI.java:22-24 | a cell is editable iff it is in column 1 (the rate) |
| ViewAdminGui.AdminGUI.EditCell | new/view/AdminGUI.java:19-25 | an edit changes only the rate text of an editable cell; no edit changes a currency code or the number of rows |
| ViewAdminGui.AdminGUI.SaveRatesToFile | new/view/AdminGUI.java:66-79 | writes what SaveAll gives when the file opens; a file that does not open gives false with nothing written |
| ViewAdminGui.AdminGUI.WriteRows | new/view/AdminGUI.java:68-75 | the save loop writes the rows' lines in row order and stops with false at the first row that has no line, as WriteAll over the rows' lines states |
| ViewAdminGui.SaveAllOk | new/view/AdminGUI.java:68-75 | the save returns true iff every rate parses, and it then writes one `currency,rate` line per row, in row order |
| ViewAdminGui.SaveAllStops | new/view/AdminGUI.java:72-77 | the save returns false at the first rate that does not parse, having written exactly the lines of the rows before it |

## Left out

- File I/O is left out. A file's content is a sequence of lines, and a file that cannot be opened is `None`, or `writable == false` for the rate editor. A `PrintWriter` that fails while writing is not modelled.
- The clock (`LocalDateTime.now()`) is a parameter `now`.
- `Double.toString`, which the two rate savers use, is a parameter `show`.
- Swing is left out: frames, dialogs, the key filter on the amount field, the chart and the split-colour panel. The dialogs are the `Shown` outcome of a click, and the result label is the `Converted` outcome.
- `JTable` editing is modelled only through `EditCell`, which applies an edit only where `isCellEditable` allows it.
- The Show History button (new/view/UserGUI.java:382-397) and `HistoryRecord.toString` (new/model/HistoryRecord.java:33-37, new/view/UserGUI.java:104-107) are not modelled. They only display records.
- The `main` wiring and new/controller/CurrencyController.java are not modelled. They hold no logic.
- `model.Currency` is not part of this model beyond its code and rate.
- The inner `UserGUI.HistoryRecord` and `UserGUI.ExchangeHistory` (new/view/UserGUI.java:89-164) are not modelled separately. They behave exactly like the model classes, so `ModelHistoryRecord` and `ModelExchangeHistory` stand for them.
- `double` arithmetic is exact on finite values. Rounding to 53 bits, underflow, overflow to infinity and signed zero are not modelled.
- JavaDoubles.ParseDouble accepts trimmed input with an optional sign, then `NaN`, `Infinity`, or digits with at most one point and at least one digit. The exponent form, hexadecimal floats and the `d`/`f` suffixes are not modelled, and text using them counts as unparsable.
- JavaDoubles.Format2 models `%.2f` in a locale whose decimal separator is a point. It rounds half up on the exact value, not on the binary double.
- JavaStrings.ToUpper folds ASCII letters only. JavaStrings.Before compares the UTF-16 code units of the first differing characters, as `compareTo` does, also for characters outside the Basic Multilingual Plane.
- JavaDateTime.Parse accepts years 0 to 9999, the range `toString` writes without a sign. It does not accept a fraction point followed by no digits. Like `ISO_LOCAL_DATE_TIME` it accepts `T` or `t` as the separator.
- ModelExchangeHistory.ExchangeHistory.GetAllRecords returns the list's current value. The aliasing of the live `ArrayList`, through which a caller could change the history, is not modelled.
- ModelExchangeHistory.SaveThenLoad: a file is modelled as the sequence of strings `println` wrote, one line each. A code containing `\n` or `\r`, which the constructor and `addRecord` let through, is written across several physical lines that `readLine` reads back differently; the round trip does not cover that case.
- ModelCurrencyManager.CurrencyManager.SaveRatesToFile: for the same reason, a code set through `setRate` that contains `\n` or `\r` is not read back as one line; the saved lines are stated as strings, not as file text.
- ModelCurrencyConverter.ConvertWithSameRate holds only in exact arithmetic. With Java doubles, `amount * r / r` can differ from `amount`: `(0.1 * 3.0) / 3.0` is `0.10000000000000002`, and `(1e300 * 1e10) / 1e10` overflows to `Infinity`. The manager's `amount * (r / r)` is exact either way.
- ModelCurrencyManager.CurrencyManager.SaveRatesToFile leaves `HashMap` iteration order unspecified: only "each entry once" is stated, through the ghost `order`.
- ModelCurrencyManager.CurrencyManager.GetCurrency is a static function because it reads nothing of the manager.
