# Employee dump parser and currency normaliser, modelled in Dafny

The system reads a line-oriented text dump. The dump holds one `Employee`
block per employee, and the last block ends in a `Rates` block. An employee
block has id, name and surname lines, a department header, department id and
name lines, and any number of `Salary` and `Donation` records. The `Rates`
block holds `Rate` records. `TxtDumpParser.parse` turns the dump into
employees, deduplicated departments and exchange rates. `CurrencyCalculator`
then re-expresses each employee's donations in USD, using the rate for the
donation's currency and day.

The project is organised as follows:

- `results.dfy` (module `Results`): `Option` (a value or JavaScript's
  `undefined`), and `Result`. A `Result` stands for a computation that
  may throw. `MapResult` models `Array.prototype.map` with a callback
  that may throw.
- `js_text.dfy` (module `JsText`): the JavaScript string primitives the
  parser depends on.
  - `split` with a non-empty separator, read left to right without overlap.
  - `join`, and `trim` over the ECMAScript white-space set.
  - `\s`, whose character set equals `trim`'s.
- `records.dfy` (module `Records`): the records the parser builds.
  - `IntValue` is what `parseInt` returns: `NaN`, or `Int(n)` for any value
    that `===` compares like an integer. That includes -0 (equal to 0) and
    +/-Infinity (from a digit string beyond the range of a double).
    `StrictEquals` is `===` on it.
  - The numeric and date conversions are passed in as a `Conversions`
    value and are not interpreted.
- `txt_dump_parser.dfy` (module `TxtDumpParser`): every method of
  `TxtDumpParser`.
  - The three that update variables step by step are Dafny methods, each
    proved equal to a specification function:
    - `_splitData` (`SplitData` / `Sections`);
    - `_extractItems` (`ExtractItems` / `ExtractedItems`);
    - `_parseDepartmentData` (`ParseDepartmentData` / `FirstOccurrences`).
  - The rest are functions.
- `currency_calculator.dfy` (module `CurrencyCalculator`): the class with its
  rate table. The table is a `const` set by the constructor. The method
  `calculateEmployeeDonationsInUSD` becomes a function on that class.

Some behaviours of the code a reader may not expect, all of which the model keeps:

- The rates block is split off at the first occurrence of the text `Rates`
  anywhere in the last employee chunk. It is not required to be a line of its
  own.
- The rates text runs only up to a second `Rates`, if there is one.
- A donation's currency is the second piece of its amount field split on the
  single character ' ', not on general white space.
- Departments are deduplicated with `===`. A department whose id parses to
  `NaN` is therefore kept every time it appears.
- A field's value is the text between the first and the second ':' of its
  line. Text after a second ':' is dropped.
- When no rate matches a donation, the donation is still labelled "USD" and
  its amount is only reformatted to two decimals.

## Model

| member | source | states |
|---|---|---|
| Results.MapResult | dump-parser/txt-parser/txt-dump-parser.class.js:37-51 | `map` with a callback that may throw succeeds exactly when the callback succeeds on every element. It then gives one result per element, in order. Otherwise it fails with the error of the first element that fails, and every element before that one succeeded |
| Results.MapResultCongruent | dump-parser/txt-parser/txt-dump-parser.class.js:37-51 | two maps whose callbacks agree on every element give the same result |
| JsText.Split | dump-parser/txt-parser/txt-dump-parser.class.js:23 | `s.split(sep)` for a non-empty separator, scanned from the left: it always has at least one piece. `SplitJoin`, `SplitCount`, `SplitPiecesFree` and `SplitAtFirst` pin it down |
| JsText.SplitJoin | dump-parser/txt-parser/txt-dump-parser.class.js:23 | joining the pieces of `s.split(sep)` with `sep` gives back `s` |
| JsText.SplitCount | dump-parser/txt-parser/txt-dump-parser.class.js:23-24 | `s.split(sep)` has one piece more than there are non-overlapping occurrences of `sep` |
| JsText.SplitPiecesFree | dump-parser/txt-parser/txt-dump-parser.class.js:23 | no piece of a split contains the separator |
| JsText.SplitSingle | dump-parser/txt-parser/txt-dump-parser.class.js:28-29 | a split has a single piece exactly when the separator does not occur, and that piece is then the whole string |
| JsText.SplitAtFirst | dump-parser/txt-parser/txt-dump-parser.class.js:23 | with the first occurrence at `k`, the split is the text before `k` followed by the split of the text after the occurrence |
| JsText.SplitFirstTwo | dump-parser/txt-parser/txt-dump-parser.class.js:28-29 | piece 0 is the text before the first occurrence. Piece 1 is the text between the first and the second occurrence, or up to the end |
| JsText.SplitHeadIsPrefix | dump-parser/txt-parser/txt-dump-parser.class.js:28 | the first piece of a split is a prefix of the string |
| JsText.TrimStart | dump-parser/txt-parser/txt-dump-parser.class.js:160 | the result is a suffix of the input, everything cut off is white space, and the result does not start with white space |
| JsText.TrimEnd | dump-parser/txt-parser/txt-dump-parser.class.js:160 | the result is a prefix of the input, everything cut off is white space, and the result does not end with white space |
| JsText.Trim | dump-parser/txt-parser/txt-dump-parser.class.js:153 | `trim` leaves no white space at either end |
| JsText.TrimSlice | dump-parser/txt-parser/txt-dump-parser.class.js:153 | `trim` returns a slice of its input, with only white space before and after that slice |
| JsText.TrimmedIsFixed | dump-parser/txt-parser/txt-dump-parser.class.js:153 | a string without white space at either end is its own trim |
| JsText.TrimKeepsVisible | dump-parser/txt-parser/txt-dump-parser.class.js:153 | `trim` removes only white space: every other character is kept, in order |
| TxtDumpParser.ReplaceNewLines | dump-parser/txt-parser/txt-dump-parser.class.js:159-161 | `_replaceNewLines` leaves no white space at either end and none right after a line feed. That line feeds survive is stated by `ReplaceNewLinesKeepsLineBreak` and `ReplaceNewLinesKeepsLineAfterBlanks` |
| TxtDumpParser.CollapseLineBreaks | dump-parser/txt-parser/txt-dump-parser.class.js:160 | the global `\n\s*` replacement keeps empty text empty and non-empty text non-empty, with its first character unchanged. That each match leaves one line feed behind, after visible text or after trailing blanks, is stated by `CollapseAtLineBreak` and `CollapseAtLineBreakAfterBlanks` |
| TxtDumpParser.CollapseAtLineBreak | dump-parser/txt-parser/txt-dump-parser.class.js:160 | each `\n\s*` match between visible text leaves exactly one line feed behind: the text before and after it are collapsed on their own, so an indented line stays a line of its own |
| TxtDumpParser.CollapseAtLineBreakAfterBlanks | dump-parser/txt-parser/txt-dump-parser.class.js:160 | a line ending in blanks other than a line feed (spaces, tabs, the '\r' of a CRLF dump) keeps those blanks and its line feed; only the white space after the line feed is removed |
| TxtDumpParser.BlanksThenBreak | dump-parser/txt-parser/txt-dump-parser.class.js:160 | blanks without a line feed, then a line feed and white space, collapse to the blanks and one line feed, the text after them collapsed on its own |
| TxtDumpParser.CollapseSplitsAfterVisible | dump-parser/txt-parser/txt-dump-parser.class.js:160 | text ending in a visible character is collapsed independently of what follows it |
| TxtDumpParser.CollapsedHasNoSpaceAfterLineBreak | dump-parser/txt-parser/txt-dump-parser.class.js:160 | after the global `\n\s*` replacement, no line feed is followed by white space |
| TxtDumpParser.CollapseFixesNormalText | dump-parser/txt-parser/txt-dump-parser.class.js:160 | the replacement leaves text unchanged when no line feed in it is followed by white space |
| TxtDumpParser.ReplaceNewLinesKeepsLineBreak | dump-parser/txt-parser/txt-dump-parser.class.js:159-161 | two normalised lines separated by a line feed and indentation become those two lines separated by one line feed (leading indentation of a line is stripped, the line break kept) |
| TxtDumpParser.ReplaceNewLinesKeepsLineAfterBlanks | dump-parser/txt-parser/txt-dump-parser.class.js:159-161 | a normalised line with trailing blanks (such as a CRLF line's '\r'), a line feed, indentation and another normalised line: the blanks and the line feed stay and the indentation goes, so the next line stays a line of its own |
| TxtDumpParser.ReplaceNewLinesIdempotent | dump-parser/txt-parser/txt-dump-parser.class.js:159-161 | `_replaceNewLines` applied twice gives the same text as applied once |
| TxtDumpParser.ReplaceNewLinesKeepsVisible | dump-parser/txt-parser/txt-dump-parser.class.js:159-161 | `_replaceNewLines` removes only white space: every other character is kept, in order |
| TxtDumpParser.PrepareData | dump-parser/txt-parser/txt-dump-parser.class.js:155-157 | `_prepareData` keeps the number and order of the chunks and normalises each one |
| TxtDumpParser.SplitData | dump-parser/txt-parser/txt-dump-parser.class.js:22-34 | the in-place `shift` and the overwrite of the last chunk compute `Sections` |
| TxtDumpParser.Sections | dump-parser/txt-parser/txt-dump-parser.class.js:22-34 | reference definition of what `_splitData` returns: the pieces after the first, with the last one cut at the end token and the rates text after it. `SplitData` is proved to compute it, and `SectionsShape`, `SectionsIgnorePreamble` and `SectionsLastChunk` state its properties |
| TxtDumpParser.SectionsShape | dump-parser/txt-parser/txt-dump-parser.class.js:22-34 | `_splitData` throws exactly when the start token is absent. Otherwise there is one chunk per occurrence of the start token, and no chunk contains it |
| TxtDumpParser.SectionsIgnorePreamble | dump-parser/txt-parser/txt-dump-parser.class.js:23-24 | text before the first start token has no effect on the result |
| TxtDumpParser.SectionsLastChunk | dump-parser/txt-parser/txt-dump-parser.class.js:26-31 | the last chunk is cut at the first end token, and the rates text lies between the first and the second end token. With no end token the chunk is kept whole and the rates text is `undefined` |
| TxtDumpParser.GetLineValue | dump-parser/txt-parser/txt-dump-parser.class.js:151-153 | `_getLineValue` throws on an absent line. It succeeds exactly when the line has a ':', and throws otherwise |
| TxtDumpParser.LineValueBetweenColons | dump-parser/txt-parser/txt-dump-parser.class.js:151-153 | the value is the trimmed text between the first ':' and the second ':' (or the end of the line) |
| TxtDumpParser.LineValueOfFieldLine | dump-parser/txt-parser/txt-dump-parser.class.js:151-153 | every line with a ':' has a first and a next ':' (or end of line), and its value is the trimmed text between them |
| TxtDumpParser.FieldLineRoundTrip | dump-parser/txt-parser/txt-dump-parser.class.js:151-153 | a line `key: value` reads back as `value` when neither part has a ':' and the value is trimmed |
| TxtDumpParser.ParseEmployeeSalary | dump-parser/txt-parser/txt-dump-parser.class.js:102-114 | a salary parses exactly when lines +1, +2 and +3 after the marker exist and hold a ':'. Its id is read from line +1, its amount from line +2 and its date from line +3 |
| TxtDumpParser.ParseEmployeeDonation | dump-parser/txt-parser/txt-dump-parser.class.js:116-131 | a donation parses exactly when lines +1, +2 and +3 after the marker exist and hold a ':'. Its id is read from line +1 and its date from line +2 |
| TxtDumpParser.ParseExchangeRate | dump-parser/txt-parser/txt-dump-parser.class.js:133-143 | a rate parses exactly when lines +1, +2 and +3 after the marker exist and hold a ':'. Its date is read from line +1, its sign from line +2 and its value from line +3 |
| TxtDumpParser.SalaryRecordRoundTrip | dump-parser/txt-parser/txt-dump-parser.class.js:102-114 | a salary written as id, amount and date at +1, +2 and +3 reads back as those values, converted |
| TxtDumpParser.DonationRecordRoundTrip | dump-parser/txt-parser/txt-dump-parser.class.js:116-131 | a donation written as id, date and `amount currency` at +1, +2 and +3 reads back as that id, date, amount and currency, converted |
| TxtDumpParser.DonationCurrencyIsSecondWord | dump-parser/txt-parser/txt-dump-parser.class.js:116-131 | the currency is the second ' '-separated word of the amount field and the amount its first. Without a ' ' the currency is `undefined` |
| TxtDumpParser.ExchangeRateRecordRoundTrip | dump-parser/txt-parser/txt-dump-parser.class.js:133-143 | a rate written as date, sign and value at +1, +2 and +3 reads back as those values, converted |
| TxtDumpParser.RecordParsersReadOnlyTheirLines | dump-parser/txt-parser/txt-dump-parser.class.js:102-143 | each record parser depends only on the three lines after its marker |
| TxtDumpParser.FindIndexFrom | dump-parser/txt-parser/txt-dump-parser.class.js:146-148 | the `findIndex` scan returns -1 or a later line equal to the key, with no such line before it |
| TxtDumpParser.GetNextIndex | dump-parser/txt-parser/txt-dump-parser.class.js:145-149 | `_getNextIndex` is -1 or the smallest index greater than `currentIndex` whose line is exactly the key |
| TxtDumpParser.IndexOfLine | dump-parser/txt-parser/txt-dump-parser.class.js:81 | `lines.indexOf(key)` is -1 or the first line equal to the key |
| TxtDumpParser.NextIndexUnique | dump-parser/txt-parser/txt-dump-parser.class.js:145-149 | any index with that characterisation is the one `_getNextIndex` returns |
| TxtDumpParser.MarkersFromSpec | dump-parser/txt-parser/txt-dump-parser.class.js:79-100 | the marker positions are exactly the lines equal to the key, in increasing order |
| TxtDumpParser.MarkersFromNext | dump-parser/txt-parser/txt-dump-parser.class.js:96 | moving to `_getNextIndex` leaves exactly the markers not yet visited |
| TxtDumpParser.ExtractedItems | dump-parser/txt-parser/txt-dump-parser.class.js:79-100 | reference definition of what `_extractItems` returns: the record parsed at each line equal to the key, in line order, the first failing record aborting. `ExtractItems` is proved to compute it and `ExtractedItemsPerMarker` states its properties |
| TxtDumpParser.ExtractItems | dump-parser/txt-parser/txt-dump-parser.class.js:79-100 | the `indexOf`/`_getNextIndex` loop computes `ExtractedItems` |
| TxtDumpParser.ExtractedItemsPerMarker | dump-parser/txt-parser/txt-dump-parser.class.js:79-100 | `_extractItems` succeeds exactly when every marker's record parses. It then gives one item per line equal to the key, in line order, each parsed at its own marker |
| TxtDumpParser.Lines | dump-parser/txt-parser/txt-dump-parser.class.js:38 | a chunk has one line per piece of its split on "\n", and line `i` is piece `i` trimmed |
| TxtDumpParser.EmployeeFromLines | dump-parser/txt-parser/txt-dump-parser.class.js:38-50 | an employee parses exactly when lines 0, 1, 2, 4 and 5 hold fields and both the salary and the donation extraction succeed. Its id, name and surname are the values of lines 0-2, its department those of lines 4-5, and its salaries and donations are the items extracted for `Salary` and `Donation` |
| TxtDumpParser.EmployeeRecordsPerMarker | dump-parser/txt-parser/txt-dump-parser.class.js:48-49 | an employee has one salary per `Salary` line and one donation per `Donation` line of its chunk, in line order, each read at its marker |
| TxtDumpParser.EmployeeHeaderRoundTrip | dump-parser/txt-parser/txt-dump-parser.class.js:41-47 | id, name, surname and department are the values of lines 0, 1, 2, 4 and 5 |
| TxtDumpParser.HeaderLineIgnored | dump-parser/txt-parser/txt-dump-parser.class.js:40-50 | line 3 (the department header) is never read: replacing it by any non-marker line leaves the employee unchanged |
| TxtDumpParser.ExtractionIgnoresHeader | dump-parser/txt-parser/txt-dump-parser.class.js:48-49 | extraction does not depend on a non-marker line that no record parser reads |
| TxtDumpParser.ParseEmployeeData | dump-parser/txt-parser/txt-dump-parser.class.js:36-52 | `_parseEmployeeData` succeeds exactly when every chunk parses, giving one employee per chunk, in order |
| TxtDumpParser.FirstOccurrences | dump-parser/txt-parser/txt-dump-parser.class.js:54-71 | reference definition of `_parseDepartmentData`'s result: each department whose id no earlier department has under `===`, in order. `ParseDepartmentData` is proved to compute it, and `FirstOccurrencePositions` and `DepartmentsDeduplicated` state its properties |
| TxtDumpParser.FindDepartment | dump-parser/txt-parser/txt-dump-parser.class.js:58-60 | `find` is `undefined` exactly when no department has an id `===` the given one. Otherwise it returns such a department |
| TxtDumpParser.FirstOccurrencePositions | dump-parser/txt-parser/txt-dump-parser.class.js:54-71 | the deduplicated departments are those at the first positions of their ids, in increasing position order |
| TxtDumpParser.FindAmongFirstOccurrences | dump-parser/txt-parser/txt-dump-parser.class.js:58-62 | the search finds nothing exactly when no earlier employee's department has the same id |
| TxtDumpParser.ParseDepartmentData | dump-parser/txt-parser/txt-dump-parser.class.js:54-71 | the `forEach`/`find`/`push` loop computes `FirstOccurrences` of the employees' departments |
| TxtDumpParser.DepartmentsDeduplicated | dump-parser/txt-parser/txt-dump-parser.class.js:54-71 | the departments have pairwise different ids under `===` and include every employee's department id. Each is the department of an employee before whom no employee had that id, so the first name wins |
| TxtDumpParser.NumericDepartmentIdsDistinct | dump-parser/txt-parser/txt-dump-parser.class.js:54-71 | when every id is a number, no two departments share an id |
| TxtDumpParser.ParseSections | dump-parser/txt-parser/txt-dump-parser.class.js:12-19 | after `_splitData`: a missing rates text fails with `MissingRatesBlock`, and the result succeeds exactly when there is a rates text, every normalised chunk yields an employee and the normalised rates text yields its rates. The departments of a success are the deduplicated departments of its employees |
| TxtDumpParser.ParseSectionsShape | dump-parser/txt-parser/txt-dump-parser.class.js:12-19 | a successful parse had a rates text. Its employees and rates are the parses of the normalised sections, and its departments are the deduplicated departments of those employees |
| TxtDumpParser.ParseExchangeRates | dump-parser/txt-parser/txt-dump-parser.class.js:73-77 | `_parseExchangeRates` succeeds exactly when the record at every `Rate` line parses. It then gives one rate per `Rate` line, in line order, each read at its marker |
| TxtDumpParser.ParseSucceeds | dump-parser/txt-parser/txt-dump-parser.class.js:5-20 | `parse` returns a result exactly when the dump has "Employee", "Rates" follows in the last chunk, every normalised chunk yields an employee and the normalised rates text yields its rates |
| TxtDumpParser.Parse | dump-parser/txt-parser/txt-dump-parser.class.js:5-20 | a dump without "Employee" is rejected with nothing returned, and a successful `parse` has as departments the deduplicated departments of its employees |
| TxtDumpParser.ParseShape | dump-parser/txt-parser/txt-dump-parser.class.js:5-20 | a successful `parse` gives one employee per occurrence of "Employee", each read from its normalised chunk. Its departments are deduplicated, and its rates are read from the normalised text after "Rates" |
| CurrencyCalculator.FindRate | currency-calculator/currency-calculator.class.js:10-14 | `rates.find` is `undefined` exactly when no rate has the donation's currency and date. Otherwise it is the first such rate |
| CurrencyCalculator.FindRateReturnsFirstMatch | currency-calculator/currency-calculator.class.js:10-14 | the first rate with equal sign and date is the one found, whatever rates follow it |
| CurrencyCalculator.Convert | currency-calculator/currency-calculator.class.js:28-30 | `_convert`: the product of amount and rate rounded to two decimals, which the model leaves to the uninterpreted conversion (see "Left out") |
| CurrencyCalculator.DonationInUsd | currency-calculator/currency-calculator.class.js:9-23 | a converted donation keeps its id and date and is labelled "USD". Its amount is `_convert(amount, value)` with the first matching rate, or the amount reformatted to two decimals when no rate matches |
| CurrencyCalculator.NonMatchingRatesIgnored | currency-calculator/currency-calculator.class.js:10-20 | adding rates of other currencies or days, before or after the table, does not change a conversion |
| CurrencyCalculator.CurrencyCalculator.constructor | currency-calculator/currency-calculator.class.js:2-6 | the rate table is the one given to the constructor |
| CurrencyCalculator.CurrencyCalculator.CalculateEmployeeDonationsInUSD | currency-calculator/currency-calculator.class.js:8-26 | an `undefined` list gives `undefined`. Otherwise the result has the same length and order, ids and dates are kept, and every currency is "USD". The amount uses the first matching rate, or is only reformatted when none matches |

## Left out

- Number and date semantics are not interpreted. `parseInt`, `parseFloat(...).toFixed(2)`, `new Date(...).toUTCString()` and `parseFloat(a * b).toFixed(2)` are fields of the `Conversions` parameter. `parseInt` yields `NaN` or an `Int` value, which also stands for -0 and +/-Infinity. Rounding, precision and invalid dates are therefore not modelled.
- The `STATEMENT_TYPES` enum module is not part of this model. Its three markers are taken to be the lines `Salary`, `Donation` and `Rate`.
- `_extractItems` chooses the record parser with a `switch` on the key. The model instead has the caller pass the parser that belongs to the key. A key outside the three markers is not modelled; the source would collect no items for it.
- Exceptions are not modelled as JavaScript `TypeError`s. Each becomes a `ParseError` value saying which read failed, and the message text is not kept.
- `parse` is not modelled for input that is not a string.
- The `DumpParserStrategy` base class is not part of this model. Neither are the file reader, the database, the HTTP server or the asynchronous orchestration in `main.js`.
- `main.js` applies the calculator to each employee's donations. That loop is not modelled; the per-employee step is `CalculateEmployeeDonationsInUSD`.
- ReplaceNewLines: its own contract states only the shape of the result (trimmed, no white space after a line feed). That line feeds survive is proved for normalised lines around one line break (`ReplaceNewLinesKeepsLineBreak`, `ReplaceNewLinesKeepsLineAfterBlanks`), not as one statement over arbitrary text.
- CollapseLineBreaks: its own contract states only that it keeps empty text empty and the first character. Each match leaving one line feed is proved at one line break at a time (`CollapseAtLineBreak`, `CollapseAtLineBreakAfterBlanks`), together with `CollapseSplitsAfterVisible`, which lets those steps be chained.
- CurrencyCalculator.Convert: states no property of its own, because the floating-point product and its rounding are not interpreted.
- A `CurrencyCalculator` built without an argument has `rates` undefined, and then any call with a non-empty donation list throws when it reads `find`. The model's rate table is a sequence and cannot be undefined, so this case is not modelled.
- CurrencyCalculator.CurrencyCalculator.constructor: the JavaScript field `rates` could be reassigned from outside the class, which no code in the repository does. The model makes it a `const`.
