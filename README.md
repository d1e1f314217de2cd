# taps-aff clothing recommender, modelled in Dafny

The taps-aff project recommends a jumper or a t-shirt for each location in a csv file of
location/temperature records. This model covers three parts of it:

- **The recommendation engine** (`ClothingRecommender`). It reads the input file with
  `csv.DictReader` and parses every temperature with `int()`. A location named in the configured
  Fahrenheit list has its temperature converted to Celsius. Below 15 degrees Celsius the answer is
  "jumper", otherwise "t-shirt". Every row is written to the output file with a `what_to_wear`
  column added, under the key order of the first row.
- **The edit protocol of the viewer** (`RecommendationViewer`).
  - `location_exists` is a case-insensitive duplicate check over the raw lines of the input file,
    header line included.
  - `add_city` strips both entry fields, parses the temperature, refuses a listed city, appends
    the line and recomputes. It catches every `ValueError`, including those raised after the
    append.
  - `update_input_csv` keeps the rows that do not hold a (location, temperature) pair and
    rewrites the input file under the header `location,temperature`.
- **The stand-alone script `taps-aff.py`**. It labels rows from the temperature alone, with no
  Fahrenheit conversion.

Files are values of type `Table`: one list of fields per line, with csv quoting undone. Every
operation takes the file contents and returns the new contents, or the exception that stops it,
as a `Result`. The configured Fahrenheit cities, which the engine loads from
`fahrenheit_cities.txt`, are the parameter `cities`. A Python dict is `Csv.Dict`, its entries
plus the insertion order of its keys. This is how the written column order follows the first
row's keys.

Modules and files:

- `wrappers.dfy`: `Option`, `Result` and the loop that stops at the first error.
- `text.dfy`: `str.strip()`, `str.lower()`, `int()` on a string and `str()` on an int.
- `csv.dfy`: `DictReader` and `DictWriter` over tables.
- `recommender.dfy`: the engine.
- `viewer.dfy`: the viewer's edit protocol.
- `legacy.dfy`: `taps-aff.py`.
- `scenarios.dfy`: the repository's unit tests and the documented add, delete and recompute
  scenarios, stated on literal files.

Each loop of the source is a method proved equal to a specification function:
- `AnnotateRows`, `LabelRows`, `FilterRows` and `WriteInputRows` are the `for` loops;
- `LocationExists` is the early-return scan;
- `ProcessCsv`, `AddCity`, `UpdateInputCsv` and `RunScript` are the procedures.

Lemmas state the properties of those functions: success conditions, order and content of the
written lines, idempotence, round trips and agreement between the engine and the script.

## Model

| member | source | states |
|---|---|---|
| Wrappers.MapUntilErrorSpec | taps-aff/clothing_recommender.py:71-77 | a loop over rows that raises at the first failing row succeeds exactly when every row succeeds, keeps count and order, and otherwise returns the first failing row's error |
| Wrappers.MapUntilErrorAgree | taps-aff/taps-aff.py:15-18 | two loops whose bodies agree row by row give the same result |
| Wrappers.FirstFailure | taps-aff/clothing_recommender.py:71-77 | the index of the first failing row: every row before it succeeds, and the row there, when it is not past the end, fails |
| Text.StripLeadingSpec | taps-aff/clothing_recommender_gui.py:58 | the leading strip removes exactly the whitespace before the first other character |
| Text.StripTrailingSpec | taps-aff/clothing_recommender_gui.py:58 | the trailing strip removes exactly the whitespace after the last other character |
| Text.StripSpec | taps-aff/clothing_recommender_gui.py:58-59 | strip() leaves a contiguous slice of its input that is empty exactly on all-whitespace input and otherwise begins and ends with a non-space; only whitespace lies before and after that slice |
| Text.Strip | taps-aff/clothing_recommender_gui.py:58-59 | strip() is never longer than its input, and is empty or bounded by non-space characters at both ends |
| Text.StripUnchanged | taps-aff/clothing_recommender_gui.py:85 | a string with no surrounding whitespace is its own strip |
| Text.StripIdempotent | taps-aff/clothing_recommender_gui.py:58 | stripping twice equals stripping once |
| Text.StripKeepsLast | taps-aff/clothing_recommender_gui.py:98 | a string ending in a non-space keeps that last character through strip() |
| Text.Lower | taps-aff/clothing_recommender_gui.py:85 | lower() keeps the length and lowers each character in place |
| Text.NatToStringDigits | taps-aff/clothing_recommender_gui.py:70 | str() of a natural number is a non-empty digit string whose value is the number |
| Text.ParseDigits | taps-aff/clothing_recommender_gui.py:61 | int() of a non-empty digit string is the number it spells |
| Text.IntRoundTrip | taps-aff/clothing_recommender_gui.py:61-70 | the temperature add_city writes with str() reads back with int() as the same int |
| Text.ParseIntLastNotDigit | taps-aff/clothing_recommender.py:72 | int() rejects a string whose last character is neither a digit nor whitespace |
| Text.ParseInt | taps-aff/clothing_recommender.py:72 | int() succeeds only when a digit stands just before the trailing whitespace, and a stripped string of digits alone parses as the number it spells |
| Text.IntToString | taps-aff/clothing_recommender_gui.py:70 | str() of a non-negative int is a digit string spelling it; of a negative int, a minus sign followed by the digits of its magnitude |
| Csv.Assign | taps-aff/clothing_recommender.py:77 | row[key] = value sets the value; an existing key keeps its position, a new key goes last; a well-formed dict stays well formed |
| Csv.KeyOrder | taps-aff/clothing_recommender.py:89-90 | the key order DictReader gives lists each header name once and exactly the header's names (their order is stated by Csv.KeyOrderFirst) |
| Csv.Zip | taps-aff/clothing_recommender.py:89-90 | a row read under a header is a well-formed dict whose keys are the header's names in first-occurrence order (its values are stated by Csv.ZipLastValue) |
| Csv.FirstIndex | taps-aff/clothing_recommender.py:89-90 | the position of the first occurrence of a header name: that name is there and nowhere before |
| Csv.KeyOrderFirst | taps-aff/clothing_recommender.py:89-90 | the keys of a row read under a header follow the order of their first occurrences in the header |
| Csv.ZipLastValue | taps-aff/clothing_recommender.py:89-90 | each header name maps to the field at its last occurrence, so a later duplicate name overwrites an earlier one |
| Csv.ZipPair | taps-aff/clothing_recommender.py:89-90 | a line read under two different names is the dict mapping each name to its field |
| Csv.ReadRows | taps-aff/clothing_recommender.py:89-90 | reading succeeds exactly when every non-blank data line has as many fields as the header; otherwise the error names a data line; the rows are well-formed dicts keyed in header order |
| Csv.ReadDicts | taps-aff/clothing_recommender.py:88-90 | an empty file has no rows; otherwise reading succeeds exactly when every non-blank data line has as many fields as the header line, every row is a well-formed dict keyed in the header's order, and a failure names a data line |
| Csv.NonBlank | taps-aff/clothing_recommender.py:89-90 | the lines DictReader turns into rows: no more than the data lines, each non-blank and one of the file's lines |
| Csv.ReadRowsNonBlank | taps-aff/clothing_recommender.py:89-90 | a successful read gives one dict per non-blank data line, in order, each that line's fields zipped with the header |
| Csv.ReadDictsNonBlank | taps-aff/clothing_recommender.py:88-90 | a successful read of a file gives one dict per non-blank line after the first, in order, each that line's fields zipped with the first line |
| Csv.DictLine | taps-aff/clothing_recommender.py:101-103 | the written line has one field per fieldname, the row's value or "" when the row lacks the key |
| Csv.WriteRows | taps-aff/clothing_recommender.py:103 | writerows succeeds exactly when every row's keys are among the fieldnames and then writes one line per row in order; otherwise it fails at the first offending row with a ValueError |
| Csv.WriteDicts | taps-aff/clothing_recommender.py:101-103 | the header line is the fieldnames and one line follows per row, in order; fails exactly when some row has a foreign key |
| Csv.KeyOrderDistinct | taps-aff/clothing_recommender.py:89-90 | a header with distinct names keeps its order as the key order |
| Csv.ZipDistinct | taps-aff/clothing_recommender.py:89-90 | under distinct names, each name maps to the field at its position |
| Csv.ZipDictLineAt | taps-aff/clothing_recommender.py:101-103 | each key of a dict read from a written line has the dict's original value |
| Csv.ZipDictLineKeys | taps-aff/clothing_recommender.py:101-103 | the dict read back from a written line has exactly the keys of the dict written |
| Csv.ZipDictLine | taps-aff/clothing_recommender.py:101-103 | writing a well-formed dict under its own keys and reading the line back gives the dict |
| Csv.ReadRowsLast | taps-aff/clothing_recommender.py:89-90 | a final well-formed line adds its dict after the earlier rows |
| Csv.ReadWrittenRows | taps-aff/clothing_recommender.py:89-103 | lines written from dicts sharing one key list read back as those dicts |
| Csv.RoundTrip | taps-aff/clothing_recommender.py:88-103 | writing dicts that share a non-empty key list and reading the file back gives the same dicts in order |
| Csv.ReadRowsEveryLine | taps-aff/clothing_recommender.py:89-90 | a file without blank or ragged lines gives exactly one dict per line, in order |
| Recommender.DecideWhatToWear | taps-aff/clothing_recommender.py:38 | jumper exactly below 15, t-shirt exactly from 15 up |
| Recommender.FahrenheitToCelsius | taps-aff/clothing_recommender.py:51 | the conversion is inverted by F = C * 9/5 + 32 |
| Recommender.UsingFahrenheit | taps-aff/clothing_recommender.py:63 | a location uses Fahrenheit exactly when it equals, case-sensitively, an entry of the list |
| Recommender.Recommend | taps-aff/clothing_recommender.py:72-77 | the label is jumper or t-shirt, and jumper exactly below 59 for a Fahrenheit city and below 15 otherwise |
| Recommender.FahrenheitDecision | taps-aff/clothing_recommender.py:74-77 | a Fahrenheit reading converts below 15 Celsius, and gets a jumper, exactly when it is below 59 |
| Recommender.Annotate | taps-aff/clothing_recommender.py:72-77 | a row that cannot be processed raises a KeyError or ValueError naming that row; a processed row keeps its keys, gains what_to_wear, and is labelled jumper or t-shirt |
| Recommender.AnnotateSpec | taps-aff/clothing_recommender.py:72-77 | a row is processed exactly when its temperature is present and an int and its location is present; what_to_wear gets the recommendation; other fields are unchanged; the key order is kept with what_to_wear appended if new; otherwise the error is a KeyError or ValueError for that row |
| Recommender.ProcessedSpec | taps-aff/clothing_recommender.py:70-77 | the loop succeeds exactly when every row can be processed and then keeps count and order with each row annotated; otherwise it fails with the first failing row's error |
| Recommender.ProcessedFailsAt | taps-aff/clothing_recommender.py:71-77 | when every row before row i is processed and row i is not, the loop fails with row i's error |
| Recommender.ProcessedAll | taps-aff/clothing_recommender.py:71-77 | when every row is processed, the loop returns exactly the processed rows, in order |
| Recommender.Processed | taps-aff/clothing_recommender.py:70-77 | the loop yields one row per row read, or a KeyError or ValueError naming one of the rows read |
| Recommender.Recompute | taps-aff/clothing_recommender.py:65-79 | an input file with no lines fails with an IndexError; a written output file holds the header line and at least one row line, and never more lines than the input file |
| Recommender.WriteCsv | taps-aff/clothing_recommender.py:99-103 | no rows is an IndexError; otherwise the header is the first row's keys, one line follows per row, and writing fails exactly when a row has a key the first row lacks |
| Recommender.AnnotateIdempotent | taps-aff/clothing_recommender.py:77 | processing an already processed row changes nothing |
| Recommender.ProcessedIdempotent | taps-aff/clothing_recommender.py:71-77 | running the loop on its own output gives the same rows |
| Recommender.ProcessedKeys | taps-aff/clothing_recommender.py:70-99 | every processed row is a well-formed dict with the header's key order plus what_to_wear, so the first row's keys fit all rows |
| Recommender.RecomputeIdempotent | taps-aff/clothing_recommender.py:65-103 | process_csv applied to its own output file reproduces that file |
| Recommender.RecomputeRejectsInvalidTemperature | taps-aff/clothing_recommender.py:72 | a row whose temperature is not an int stops process_csv before the output file is written |
| Recommender.ZipInputHeader | taps-aff/clothing_recommender.py:89-90 | a line under the header location,temperature reads as the dict of exactly those two keys |
| Recommender.AnnotateTwoColumnLine | taps-aff/clothing_recommender.py:72-77 | a two-field line is processed exactly when its temperature is an int and is then written back as the line followed by its recommendation |
| Recommender.AnnotatedTwoColumnLine | taps-aff/clothing_recommender.py:77-103 | the annotated two-key row is a well-formed dict with keys location, temperature, what_to_wear and writes as the line plus the label |
| Recommender.AnnotatedTwoColumnRow | taps-aff/clothing_recommender.py:72-77 | a row read from a two-field line with an int temperature gains what_to_wear after location and temperature, holding the line's recommendation |
| Recommender.ThreeColumnDict | taps-aff/clothing_recommender.py:99-103 | a dict with keys location, temperature, what_to_wear is well formed and is written as its three values in that order |
| Recommender.ReadTwoColumnFile | taps-aff/clothing_recommender.py:88-90 | a well-formed input file reads as one two-key dict per data line |
| Recommender.AnnotatedTwoColumnFile | taps-aff/clothing_recommender.py:77-103 | the annotated rows of a two-column file are written exactly when there is at least one, one line per input line |
| Recommender.RecomputeTwoColumnFile | taps-aff/clothing_recommender.py:70-79 | on a well-formed input file, process_csv succeeds exactly when there is a data line and every temperature is an int; line i of the output is input line i plus its recommendation |
| Recommender.AnnotateRows | taps-aff/clothing_recommender.py:71-77 | the loop, row by row, returns what the loop specification gives |
| Recommender.ProcessCsv | taps-aff/clothing_recommender.py:65-79 | read, process and write returns exactly the recomputed output file or the error that stops it |
| Viewer.LocationExists | taps-aff/clothing_recommender_gui.py:80-87 | returns true exactly when some line, the header included, has a first field that, stripped and lowered, equals the lowered city |
| Viewer.HeaderIsListed | taps-aff/clothing_recommender_gui.py:83-86 | because the header is scanned too, the city "location" in any case counts as already present |
| Viewer.ListedIgnoresCase | taps-aff/clothing_recommender_gui.py:85 | spellings that differ only in case are listed together or not at all |
| Viewer.AddCity | taps-aff/clothing_recommender_gui.py:57-78 | add_city step by step gives the files and the outcome of the add specification |
| Viewer.Add | taps-aff/clothing_recommender_gui.py:57-78 | the input file is kept or grows by one line at its end; the output file changes only on an addition, and then to the recompute of the new input file |
| Viewer.AddAppendsOneLine | taps-aff/clothing_recommender_gui.py:57-78 | a temperature that does not parse rejects the add and changes neither file; a parsed temperature with a listed city rejects it as a duplicate and changes neither file; otherwise the line [stripped city, str() of the parsed int] is appended; the input is unchanged exactly in the two rejecting cases; the output changes only on success, to the recompute of the new input |
| Viewer.AddedIsListed | taps-aff/clothing_recommender_gui.py:58-70 | an appended city is listed afterwards under any case variant of its stripped name |
| Viewer.AddTwiceRejected | taps-aff/clothing_recommender_gui.py:64-66 | adding the same city again, whatever its case or spaces, is refused and changes neither file |
| Viewer.AddKeepsLocationsUnique | taps-aff/clothing_recommender_gui.py:63-70 | if no two lines name the same location, the same holds after add_city |
| Viewer.AppendUnlisted | taps-aff/clothing_recommender_gui.py:63-70 | appending a line whose location no line names keeps the locations unique |
| Viewer.AppendTwoColumnLine | taps-aff/clothing_recommender_gui.py:68-70 | appending a two-field line with an int temperature keeps the input file well formed |
| Viewer.RecomputeAppended | taps-aff/clothing_recommender_gui.py:68-72 | after appending a two-field line with an int temperature, the file stays well formed and the recompute ends with that line followed by its recommendation |
| Viewer.AddNewCity | taps-aff/clothing_recommender_gui.py:68-72 | a new city with an int temperature is added whenever the following recompute succeeds |
| Viewer.AddToTwoColumnFile | taps-aff/clothing_recommender_gui.py:57-72 | on a well-formed input file a new city with an int temperature is added; the input stays well formed; the last output line is the city, its temperature and its recommendation |
| Viewer.RemainingAppend | taps-aff/clothing_recommender_gui.py:121-123 | filtering a list with one more row at the end adds that row exactly when it does not hold the pair |
| Viewer.Keep | taps-aff/clothing_recommender_gui.py:122 | a row can be compared exactly when it has a location and, when that location is equal, a temperature; it is dropped exactly when it holds the pair; a failure is a KeyError naming that row |
| Viewer.Kept | taps-aff/clothing_recommender_gui.py:119-123 | the kept rows are no more than the rows read and none holds the pair; a failure is a KeyError naming one of the rows read |
| Viewer.KeptSpec | taps-aff/clothing_recommender_gui.py:119-123 | the filter loop succeeds exactly when every row can be compared and then keeps exactly the rows not holding the pair, in order; otherwise it stops with a KeyError at the first row that cannot be compared |
| Viewer.KeptLast | taps-aff/clothing_recommender_gui.py:121-123 | after every earlier row was compared, the last row is kept, dropped or raises a KeyError exactly as it can be compared and holds the pair |
| Viewer.RemainingConcat | taps-aff/clothing_recommender_gui.py:121-123 | filtering distributes over concatenation, so kept rows keep their relative order |
| Viewer.RemainingMembers | taps-aff/clothing_recommender_gui.py:121-123 | every row holding the pair is removed, not only the first, and every other row is kept |
| Viewer.RemainingNoMatch | taps-aff/clothing_recommender_gui.py:122 | deleting a pair no row holds keeps all rows |
| Viewer.RewrittenHeader | taps-aff/clothing_recommender_gui.py:117-131 | once reading and filtering succeed the file starts with location,temperature; otherwise it is untouched and an error is raised |
| Viewer.KeptStops | taps-aff/clothing_recommender_gui.py:121-123 | rows after the one the loop stops at do not change its outcome |
| Viewer.FilterRows | taps-aff/clothing_recommender_gui.py:118-123 | the loop collecting temp_entries returns exactly the filter specification's result |
| Viewer.WriteInputRows | taps-aff/clothing_recommender_gui.py:126-131 | the rewrite writes the header and then the rows one at a time, stopping with a ValueError after the rows before a row with a foreign key |
| Viewer.WrittenInput | taps-aff/clothing_recommender_gui.py:126-131 | the rewritten file always starts with location,temperature; nothing is raised exactly when every row fits those fieldnames, and then one line follows per row; otherwise a ValueError is raised after the lines of the rows before the offending one |
| Viewer.Rewritten | taps-aff/clothing_recommender_gui.py:117-131 | a rewrite that raises nothing starts with location,temperature, and no rewrite makes a non-empty input file longer |
| Viewer.UpdateInputCsv | taps-aff/clothing_recommender_gui.py:117-131 | update_input_csv returns exactly the rewritten file and raised error of its specification |
| Viewer.TwoColumnLineWritten | taps-aff/clothing_recommender_gui.py:127-131 | a row read from a two-field line is written back under location,temperature as the same line |
| Viewer.MatchesTwoColumnRow | taps-aff/clothing_recommender_gui.py:122 | such a row can always be compared, and holds the pair exactly when its line does |
| Viewer.RemainingRows | taps-aff/clothing_recommender_gui.py:120-123 | filtering the rows and filtering the lines they were read from agree line for line |
| Viewer.RemainingRowsStep | taps-aff/clothing_recommender_gui.py:122-123 | one filter step keeps rows and lines in correspondence |
| Viewer.ReadFromCons | taps-aff/clothing_recommender_gui.py:120-123 | a row read from a line, in front of corresponding lists, keeps them corresponding |
| Viewer.RewrittenTwoColumnFile | taps-aff/clothing_recommender_gui.py:117-131 | on a well-formed input file nothing is raised and the file becomes the header followed by exactly the data lines not holding the pair, in order |
| Viewer.RemainingLinesNoMatch | taps-aff/clothing_recommender_gui.py:122 | deleting a pair no line holds keeps all lines |
| Viewer.RemainingLinesMembers | taps-aff/clothing_recommender_gui.py:121-123 | the kept lines are exactly the lines not holding the pair |
| Viewer.RewrittenRemovesPair | taps-aff/clothing_recommender_gui.py:117-131 | deleting with the stored temperature removes every line holding the pair and keeps every other data line, under the header |
| Viewer.DisplayedTemperature | taps-aff/clothing_recommender_gui.py:95-98 | the displayed cell is the stored value, a space and F or C by the city's unit, and never parses as an int |
| Viewer.DeleteAsWrittenKeepsEveryLine | taps-aff/clothing_recommender_gui.py:96-113 | the delete path as written, passing the displayed "value unit" cell, rewrites a well-formed file with int temperatures unchanged |
| TapsAffScript.DecideWhatToWear | taps-aff/taps-aff.py:6-10 | jumper exactly below 15, t-shirt from 15 up, the same rule as the engine's |
| TapsAffScript.LabelRow | taps-aff/taps-aff.py:16-17 | a row that cannot be labelled raises a KeyError or ValueError naming that row; a labelled row keeps its keys and gains what_to_wear |
| TapsAffScript.Labelled | taps-aff/taps-aff.py:15-18 | the loop yields one row per row read, or a KeyError or ValueError naming one of the rows read |
| TapsAffScript.LabelRowSpec | taps-aff/taps-aff.py:16-17 | a row is labelled exactly when its temperature is present and an int; the label is the decision on that int; other fields are unchanged |
| TapsAffScript.LabelledSpec | taps-aff/taps-aff.py:15-18 | the loop succeeds exactly when every row can be labelled, keeping count and order; otherwise it fails with the first failing row's error |
| TapsAffScript.LabelledAgreesWithEngine | taps-aff/taps-aff.py:15-18 | on rows with a location, the script's loop equals the engine's loop with no Fahrenheit cities |
| TapsAffScript.LabelIgnoresLocation | taps-aff/taps-aff.py:16-17 | a Fahrenheit city at 15 to 58 degrees gets a t-shirt from the script and a jumper from the engine |
| TapsAffScript.OutputSpec | taps-aff/taps-aff.py:12-25 | the script writes exactly when the file has a header and every row is labelled; the header is the input header plus what_to_wear; one line follows per row, in order |
| TapsAffScript.Output | taps-aff/taps-aff.py:12-25 | an empty input file fails with a TypeError; a written file starts with the input header plus what_to_wear, and one line follows per row read |
| TapsAffScript.OutputRejectsInvalidTemperature | taps-aff/taps-aff.py:16 | a non-int temperature stops the script before the output file is opened |
| TapsAffScript.OutputAgreesOnTwoColumnFile | taps-aff/taps-aff.py:12-25 | on a well-formed input file with a data line, the script writes what process_csv writes with no Fahrenheit cities |
| TapsAffScript.EngineHeader | taps-aff/clothing_recommender.py:70-99 | on a well-formed input file with a data line, the first processed row, whose keys the engine writes as its header, has the keys location, temperature, what_to_wear |
| TapsAffScript.AnnotatedHeader | taps-aff/clothing_recommender.py:77 | a row keyed location,temperature gains what_to_wear as its last key |
| TapsAffScript.LabelledStops | taps-aff/taps-aff.py:15-17 | the loop fails with the error of the first row that cannot be labelled |
| TapsAffScript.LabelledAll | taps-aff/taps-aff.py:15-18 | when every row is labelled, the loop yields exactly the labelled rows |
| TapsAffScript.LabelledExtend | taps-aff/taps-aff.py:17-18 | appending the next labelled row keeps data equal to the labelled prefix |
| TapsAffScript.LabelRows | taps-aff/taps-aff.py:14-18 | the loop appending labelled rows to data returns exactly the loop specification's result |
| TapsAffScript.RunScript | taps-aff/taps-aff.py:12-25 | the script step by step returns exactly the output file of its specification |
| Scenarios.DecisionExamples | taps-aff/test_clothing_recommender.py:9-12 | 14 gives a jumper; 15 and 16 give a t-shirt |
| Scenarios.FahrenheitExample | taps-aff/test_clothing_recommender.py:44-50 | 52 Fahrenheit is below 15 Celsius and gets a jumper |
| Scenarios.Parse14 | taps-aff/test_clothing_recommender.py:15 | int("14") is 14 |
| Scenarios.Parse16 | taps-aff/test_clothing_recommender.py:15 | int("16") is 16 |
| Scenarios.Parse20 | taps-aff/clothing_recommender.py:72 | int("20") is 20 |
| Scenarios.Parse52 | taps-aff/test_clothing_recommender.py:48 | int("52") is 52 |
| Scenarios.ReadCsvExample | taps-aff/test_clothing_recommender.py:15-19 | the file Glasgow,14 / Edinburgh,16 reads as the two expected dicts |
| Scenarios.WriteCsvExample | taps-aff/test_clothing_recommender.py:22-27 | one row writes two lines, the header and the row |
| Scenarios.RecomputeOneLine | taps-aff/clothing_recommender.py:65-79 | a one-line file recomputes to the header plus that line and its recommendation |
| Scenarios.RecomputeTwoLines | taps-aff/clothing_recommender.py:65-79 | a two-line file recomputes line by line, in order |
| Recommender.RecomputedLine | taps-aff/clothing_recommender.py:65-79 | on a two-column file with int temperatures, output line i is input line i followed by its recommendation, under the header location,temperature,what_to_wear |
| Scenarios.OutputHeader | taps-aff/clothing_recommender.py:99 | the output header over a two-column file is location,temperature,what_to_wear |
| Scenarios.RecomputeScenarioA | taps-aff/test_clothing_recommender.py:33-39 | Glasgow at 14 gets a jumper and Edinburgh at 16 a t-shirt |
| Scenarios.RecomputeScenarioB | taps-aff/test_clothing_recommender.py:43-50 | Boston at 52, a Fahrenheit city, gets a jumper |
| Scenarios.CaseAsymmetry | taps-aff/clothing_recommender_gui.py:85 | "boston" counts as already listed, yet it is not a Fahrenheit city |
| Scenarios.StripGlasgow | taps-aff/clothing_recommender_gui.py:58 | " glasgow " strips to "glasgow" |
| Scenarios.GlasgowListed | taps-aff/clothing_recommender_gui.py:80-87 | "glasgow" is listed in a file holding Glasgow |
| Scenarios.AddScenarioC | taps-aff/clothing_recommender_gui.py:58-66 | adding " glasgow " to a file listing Glasgow is refused and changes nothing |
| Scenarios.DeleteScenarioD | taps-aff/clothing_recommender_gui.py:117-131 | deleting (Glasgow, 14) from a file also holding Glasgow at 20 removes only the first line |
| Scenarios.DeleteFirstOfTwo | taps-aff/clothing_recommender_gui.py:117-131 | deleting the pair that only the first of two data lines holds rewrites the file as the header followed by the second line |
| Scenarios.RemainingFirstOfTwo | taps-aff/clothing_recommender_gui.py:121-123 | filtering two lines of which only the first holds the pair keeps just the second |
| Scenarios.RecomputeAfterScenarioD | taps-aff/clothing_recommender_gui.py:113-114 | the recompute after that deletion shows Glasgow at 20 in a t-shirt |

## Left out

- The tkinter interface is not modelled:
  - the widgets, `setup_widgets`, `load_data`'s table refresh and the message boxes;
  - the selection and confirmation plumbing of `delete_selected`.
- `delete_selected` is modelled only through `Viewer.DeleteAsWrittenKeepsEveryLine`, which passes on the cell `Viewer.DisplayedTemperature` builds as `load_data` displays it (see "## Findings").
- File I/O is not modelled. Files are table values passed in and returned.
- Crash effects of opening a file are not modelled: a missing file, and the output file truncated by `open(..., 'w')` before `DictWriter` raises in `write_csv`.
- The constructor's read of `fahrenheit_cities.txt` is left out. The list is the parameter `cities`, so it is read once and stays constant.
- The script's final `print` is left out.
- Csv.ReadRows: a data line whose field count differs from the header's is rejected with `RaggedRow`. `csv.DictReader` would fill missing fields with `None` or collect extra ones under a `None` key. The model covers only files without ragged lines.
- The csv quoting and escaping layer is not modelled.
- The newline handling of appending to a file that lacks a final newline is not modelled.
- Text.ParseInt: `int()` is modelled on ASCII digits with an optional sign, surrounded by the whitespace `str.strip()` drops. On an all-ASCII string `int()` trims only space and `\t` to `\r`, so a stored temperature padded with U+001C to U+001F parses in the model but raises a ValueError in Python. Underscores between digits and non-ASCII digits are not accepted.
- Text.Lower: `str.lower()` is modelled on ASCII letters only.
- Recommender.FahrenheitToCelsius: computed in exact rational arithmetic, not in binary floating point. The comparison with 15 is therefore exact, and its threshold is 59 degrees Fahrenheit.
- `add_city` does not check that the city is non-empty; the model follows the code. An empty city entry is appended unless some line's first field is blank.
- Temperatures reach `update_input_csv` as strings. The `str()` conversion of the compared values is therefore the identity in the model.
- Rows of a file `DictReader` produced are compared by their fields. Python object identity plays no part.

## Findings

| source | as written | input that shows it | evidently intended | confidence | as-written member | corrected member |
|---|---|---|---|---|---|---|
| taps-aff/clothing_recommender_gui.py:96-113 | `delete_selected` passes the displayed temperature cell, built as value, a space and the unit, to `update_input_csv`, which compares it with the stored temperature | a file `location,temperature` / `Glasgow,14`: deleting the displayed row passes `"14 C"`, which no stored temperature equals, so the file is rewritten unchanged | the row is removed by comparing the stored temperature `"14"` | high (not executed) | Viewer.DeleteAsWrittenKeepsEveryLine | Viewer.RewrittenRemovesPair |
