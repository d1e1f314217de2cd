/**
 * The edit protocol of RecommendationViewer with its widgets taken away: the duplicate check
 * over the raw lines of the input file, adding a city from the two entry fields, and rewriting
 * the input file without a (location, temperature) pair. The files are passed in and returned.
 */
module Viewer {
  import opened Wrappers
  import opened Text
  import opened Csv
  import opened Recommender

  /** The two files the viewer edits and displays. */
  datatype Files = Files(input: Table, output: Table)

  /** The test location_exists applies to one raw line: a first field that, trimmed, equals city ignoring case. */
  predicate NamesCity(line: seq<string>, city: string) {
    |line| > 0 && Lower(Strip(line[0])) == Lower(city)
  }

  /** Some line of the file names the city. The header line is scanned like any other line. */
  predicate Listed(inputFile: Table, city: string) {
    exists i :: 0 <= i < |inputFile| && NamesCity(inputFile[i], city)
  }

  /** location_exists: scan the lines in order and stop at the first that names the city. */
  method LocationExists(inputFile: Table, city: string) returns (found: bool)
    ensures found <==> Listed(inputFile, city)
  {
    var i := 0;
    while i < |inputFile|
      invariant 0 <= i <= |inputFile|
      invariant forall j :: 0 <= j < i ==> !NamesCity(inputFile[j], city)
    {
      var row := inputFile[i];
      if |row| > 0 && Lower(Strip(row[0])) == Lower(city) {
        return true;
      }
      i := i + 1;
    }
    return false;
  }

  /** "location" written in any mix of upper and lower case. */
  predicate SpellsLocation(city: string) {
    Lower(city) == "location"
  }

  /**
   * Because the header line is scanned too, a file with the usual header reports the city
   * "location", in any case, as already present.
   */
  lemma HeaderIsListed(inputFile: Table, city: string)
    requires inputFile != [] && inputFile[0] == InputHeader
    requires SpellsLocation(city)
    ensures Listed(inputFile, city)
  {
    var name := "location";
    StripUnchanged(name);
    assert Lower(name) == name by {
      assert forall k :: 0 <= k < |name| ==> !('A' <= name[k] <= 'Z');
    }
    assert NamesCity(inputFile[0], city);
  }

  /** Two spellings of a city that differ only in case are listed together or not at all. */
  lemma ListedIgnoresCase(inputFile: Table, city: string, other: string)
    requires Lower(city) == Lower(other)
    ensures Listed(inputFile, city) <==> Listed(inputFile, other)
  {
    forall i | 0 <= i < |inputFile|
      ensures NamesCity(inputFile[i], city) <==> NamesCity(inputFile[i], other)
    {
    }
  }

  /** What add_city shows once the Add City button is pressed. */
  datatype AddOutcome =
    | Added                  // the line was appended and process_csv ran through
    | RejectedTemperature    // the "Invalid temperature" box: some ValueError was caught
    | RejectedDuplicate      // the "already exists" box: location_exists found the city
    | Raised(error: Error)   // an exception from process_csv that add_city does not catch

  datatype AddResult = AddResult(files: Files, outcome: AddOutcome)

  /** The exceptions add_city catches: ValueError, from int() or from DictWriter. */
  predicate IsValueError(e: Error) {
    e.InvalidTemperature? || e.ExtraFields?
  }

  /**
   * add_city on the two entry fields: strip both, parse the temperature, refuse a listed city,
   * otherwise append the line [city, str(temperature)] and run process_csv. A failure of
   * process_csv comes after the append, so the new line stays in the input file. The input file
   * is kept or grows by one line at its end; the output file is replaced only by an addition, and
   * then with what process_csv computes from the new input file.
   */
  function Add(cities: seq<string>, files: Files, cityEntry: string, temperatureEntry: string): (r: AddResult)
    ensures r.files.input == files.input
      || (|r.files.input| == |files.input| + 1 && r.files.input[..|files.input|] == files.input)
    ensures r.outcome.Added? ==> Recompute(cities, r.files.input) == Ok(r.files.output)
    ensures !r.outcome.Added? ==> r.files.output == files.output
  {
    var city := Strip(cityEntry);
    match ParseInt(Strip(temperatureEntry))
    case None => AddResult(files, RejectedTemperature)
    case Some(t) =>
      if Listed(files.input, city) then AddResult(files, RejectedDuplicate)
      else
        var input := files.input + [[city, IntToString(t)]];
        match Recompute(cities, input)
        case Ok(output) => AddResult(Files(input, output), Added)
        case Err(e) => AddResult(Files(input, files.output), if IsValueError(e) then RejectedTemperature else Raised(e))
  }

  /** add_city, step by step: strip, int(), location_exists, append, process_csv. */
  method AddCity(cities: seq<string>, files: Files, cityEntry: string, temperatureEntry: string)
    returns (after: Files, outcome: AddOutcome)
    ensures AddResult(after, outcome) == Add(cities, files, cityEntry, temperatureEntry)
  {
    var city := Strip(cityEntry);
    var temperature := ParseInt(Strip(temperatureEntry));
    if temperature.None? {
      return files, RejectedTemperature;
    }
    var duplicate := LocationExists(files.input, city);
    if duplicate {
      return files, RejectedDuplicate;
    }
    var input := files.input + [[city, IntToString(temperature.value)]];
    var output := ProcessCsv(cities, input);
    if output.Ok? {
      return Files(input, output.value), Added;
    }
    after := Files(input, files.output);
    outcome := if IsValueError(output.error) then RejectedTemperature else Raised(output.error);
  }

  /**
   * add_city refuses a temperature that is not an int, then a city already listed, and leaves
   * both files alone when it does; otherwise it appends the line [city, str(temperature)]. So the
   * input file changes exactly when the temperature parses and the city is not yet listed. The
   * new line reads back as the stripped city and the parsed value. The output file changes only
   * when the city was added, and then it is what process_csv computes from the new input file.
   */
  lemma AddAppendsOneLine(cities: seq<string>, files: Files, cityEntry: string, temperatureEntry: string)
    ensures var r := Add(cities, files, cityEntry, temperatureEntry);
      var parsed := ParseInt(Strip(temperatureEntry));
      && (parsed.None? ==> r == AddResult(files, RejectedTemperature))
      && (parsed.Some? && Listed(files.input, Strip(cityEntry)) ==> r == AddResult(files, RejectedDuplicate))
      && (parsed.Some? && !Listed(files.input, Strip(cityEntry)) ==>
            r.files.input == files.input + [[Strip(cityEntry), IntToString(parsed.value)]])
      && (r.files.input == files.input <==> parsed.None? || Listed(files.input, Strip(cityEntry)))
      && (r.files.input == files.input <==> r.outcome.RejectedDuplicate? || ParseInt(Strip(temperatureEntry)).None?)
      && (r.files.input != files.input ==>
            && |r.files.input| == |files.input| + 1
            && r.files.input[..|files.input|] == files.input
            && var line := r.files.input[|files.input|];
               |line| == 2 && line[0] == Strip(cityEntry) && ParseInt(line[1]) == ParseInt(Strip(temperatureEntry)))
      && (r.outcome.Added? ==> Recompute(cities, r.files.input) == Ok(r.files.output))
      && (!r.outcome.Added? ==> r.files.output == files.output)
  {
    var r := Add(cities, files, cityEntry, temperatureEntry);
    var parsed := ParseInt(Strip(temperatureEntry));
    if parsed.Some? {
      IntRoundTrip(parsed.value);
      if !Listed(files.input, Strip(cityEntry)) {
        assert |r.files.input| == |files.input| + 1;
      }
    }
  }

  /** A city that was appended is listed afterwards, under its stripped name and any variant of it. */
  lemma AddedIsListed(cities: seq<string>, files: Files, cityEntry: string, temperatureEntry: string, again: string)
    requires Add(cities, files, cityEntry, temperatureEntry).files.input != files.input
    requires Lower(Strip(again)) == Lower(Strip(cityEntry))
    ensures Listed(Add(cities, files, cityEntry, temperatureEntry).files.input, Strip(again))
  {
    var input := Add(cities, files, cityEntry, temperatureEntry).files.input;
    StripIdempotent(cityEntry);
    assert NamesCity(input[|files.input|], Strip(again));
  }

  /**
   * Adding the same city twice, however its case or surrounding spaces differ, is refused the
   * second time and leaves both files as the first addition left them.
   */
  lemma AddTwiceRejected(cities: seq<string>, files: Files, cityEntry: string, temperatureEntry: string,
                         again: string, temperatureAgain: string)
    requires Add(cities, files, cityEntry, temperatureEntry).files.input != files.input
    requires Lower(Strip(again)) == Lower(Strip(cityEntry))
    requires ParseInt(Strip(temperatureAgain)).Some?
    ensures var first := Add(cities, files, cityEntry, temperatureEntry).files;
      Add(cities, first, again, temperatureAgain) == AddResult(first, RejectedDuplicate)
  {
    AddedIsListed(cities, files, cityEntry, temperatureEntry, again);
  }

  /** No two lines of the file name the same city, comparing as location_exists does. */
  predicate UniqueLocations(inputFile: Table) {
    forall i, j :: 0 <= i < j < |inputFile| && |inputFile[i]| > 0 && |inputFile[j]| > 0 ==>
      Lower(Strip(inputFile[i][0])) != Lower(Strip(inputFile[j][0]))
  }

  /** add_city keeps the locations of the input file unique, the header line included. */
  lemma AddKeepsLocationsUnique(cities: seq<string>, files: Files, cityEntry: string, temperatureEntry: string)
    requires UniqueLocations(files.input)
    ensures UniqueLocations(Add(cities, files, cityEntry, temperatureEntry).files.input)
  {
    AddAppendsOneLine(cities, files, cityEntry, temperatureEntry);
    var parsed := ParseInt(Strip(temperatureEntry));
    if parsed.Some? && !Listed(files.input, Strip(cityEntry)) {
      StripIdempotent(cityEntry);
      AppendUnlisted(files.input, [Strip(cityEntry), IntToString(parsed.value)]);
    }
  }

  /** A line whose location no line of the file names can be appended without a duplicate. */
  lemma AppendUnlisted(inputFile: Table, line: seq<string>)
    requires UniqueLocations(inputFile)
    requires |line| > 0 && !Listed(inputFile, Strip(line[0]))
    ensures UniqueLocations(inputFile + [line])
  {
    var input := inputFile + [line];
    var n := |inputFile|;
    forall i, j | 0 <= i < j < |input| && |input[i]| > 0 && |input[j]| > 0
      ensures Lower(Strip(input[i][0])) != Lower(Strip(input[j][0]))
    {
      if j == n {
        assert input[i] == inputFile[i];
        assert !NamesCity(inputFile[i], Strip(line[0]));
      } else {
        assert input[i] == inputFile[i] && input[j] == inputFile[j];
      }
    }
  }

  /** Appending a two-field line with an int temperature keeps the input file well formed. */
  lemma AppendTwoColumnLine(inputFile: Table, line: seq<string>)
    requires TwoColumnFile(inputFile) && ValidTemperatures(inputFile)
    requires |line| == 2 && ParseInt(line[1]).Some?
    ensures TwoColumnFile(inputFile + [line]) && ValidTemperatures(inputFile + [line])
  {
    var input := inputFile + [line];
    forall i | 1 <= i < |input|
      ensures |input[i]| == 2 && ParseInt(input[i][1]).Some?
    {
      if i < |inputFile| {
        assert input[i] == inputFile[i];
      }
    }
  }

  /** A new city with an int temperature is added whenever process_csv runs through afterwards. */
  lemma AddNewCity(cities: seq<string>, files: Files, cityEntry: string, temperatureEntry: string)
    requires ParseInt(Strip(temperatureEntry)).Some? && !Listed(files.input, Strip(cityEntry))
    requires var input := files.input + [[Strip(cityEntry), IntToString(ParseInt(Strip(temperatureEntry)).value)]];
      Recompute(cities, input).Ok?
    ensures var input := files.input + [[Strip(cityEntry), IntToString(ParseInt(Strip(temperatureEntry)).value)]];
      Add(cities, files, cityEntry, temperatureEntry) == AddResult(Files(input, Recompute(cities, input).value), Added)
  {
  }

  /** After appending a two-field line with an int temperature, the recompute ends with that line and its label. */
  lemma RecomputeAppended(cities: seq<string>, inputFile: Table, line: seq<string>)
    requires TwoColumnFile(inputFile) && ValidTemperatures(inputFile)
    requires |line| == 2 && ParseInt(line[1]).Some?
    ensures TwoColumnFile(inputFile + [line]) && ValidTemperatures(inputFile + [line])
    ensures var out := Recompute(cities, inputFile + [line]);
      && out.Ok? && |out.value| == |inputFile| + 1
      && out.value[|inputFile|] == line + [Recommend(cities, line[0], ParseInt(line[1]).value)]
  {
    var input := inputFile + [line];
    AppendTwoColumnLine(inputFile, line);
    RecomputedLine(cities, input, |inputFile|);
    assert input[|inputFile|] == line;
  }

  /**
   * On a well-formed input file, a new city with an int temperature is always added, and the
   * last line of the recomputed output gives that city, its temperature and its recommendation.
   */
  lemma AddToTwoColumnFile(cities: seq<string>, files: Files, cityEntry: string, temperatureEntry: string)
    requires TwoColumnFile(files.input) && ValidTemperatures(files.input)
    requires ParseInt(Strip(temperatureEntry)).Some? && !Listed(files.input, Strip(cityEntry))
    ensures var r := Add(cities, files, cityEntry, temperatureEntry);
      var city := Strip(cityEntry);
      var t := ParseInt(Strip(temperatureEntry)).value;
      && r.outcome == Added
      && TwoColumnFile(r.files.input) && ValidTemperatures(r.files.input)
      && |r.files.output| == |r.files.input|
      && r.files.output[|r.files.output| - 1] == [city, IntToString(t), Recommend(cities, city, t)]
  {
    var city := Strip(cityEntry);
    var t := ParseInt(Strip(temperatureEntry)).value;
    var line := [city, IntToString(t)];
    IntRoundTrip(t);
    RecomputeAppended(cities, files.input, line);
    AddNewCity(cities, files, cityEntry, temperatureEntry);
    var out := Recompute(cities, files.input + [line]).value;
    assert Add(cities, files, cityEntry, temperatureEntry).files == Files(files.input + [line], out);
    assert out[|files.input|] == [city, IntToString(t), Recommend(cities, city, t)];
  }

  /**
   * The test update_input_csv applies to row number index: keep the row unless its location and
   * its temperature both equal the given strings. row['location'] is read first, and
   * row['temperature'] only when the location is equal; a missing key is a KeyError.
   */
  function Keep(row: Dict, index: nat, location: string, temperature: string): (r: Result<bool, Error>)
    ensures r.Ok? <==> Comparable(row, location)
    ensures r == Ok(false) <==> Matches(row, location, temperature)
    ensures r.Err? ==> r.error.MissingField? && r.error.row == index
  {
    if "location" !in row.entries then Err(MissingField(index, "location"))
    else if row.entries["location"] != location then Ok(true)
    else if "temperature" !in row.entries then Err(MissingField(index, "temperature"))
    else Ok(row.entries["temperature"] != temperature)
  }

  /**
   * temp_entries after the loop of update_input_csv, or the KeyError that stops it: no more rows
   * than were read, none of them holding the pair.
   */
  function Kept(rows: seq<Dict>, location: string, temperature: string): (r: Result<seq<Dict>, Error>)
    ensures r.Ok? ==> |r.value| <= |rows| && forall i :: 0 <= i < |r.value| ==> !Matches(r.value[i], location, temperature)
    ensures r.Err? ==> r.error.MissingField? && r.error.row < |rows|
    decreases |rows|
  {
    if rows == [] then Ok([])
    else
      var n := |rows| - 1;
      match Kept(rows[..n], location, temperature)
      case Err(e) => Err(e)
      case Ok(entries) =>
        match Keep(rows[n], n, location, temperature)
        case Err(e) => Err(e)
        case Ok(keep) => Ok(if keep then entries + [rows[n]] else entries)
  }

  /** A row holding exactly the pair to delete. */
  predicate Matches(row: Dict, location: string, temperature: string) {
    && "location" in row.entries && row.entries["location"] == location
    && "temperature" in row.entries && row.entries["temperature"] == temperature
  }

  /** A row the test can be applied to without a KeyError. */
  predicate Comparable(row: Dict, location: string) {
    "location" in row.entries && (row.entries["location"] == location ==> "temperature" in row.entries)
  }

  /** The rows that do not hold the pair, in their order: the filter, stated from the front. */
  function Remaining(rows: seq<Dict>, location: string, temperature: string): seq<Dict>
    decreases |rows|
  {
    if rows == [] then []
    else (if Matches(rows[0], location, temperature) then [] else [rows[0]]) + Remaining(rows[1..], location, temperature)
  }

  lemma {:induction false} RemainingAppend(rows: seq<Dict>, row: Dict, location: string, temperature: string)
    ensures Remaining(rows + [row], location, temperature) ==
      Remaining(rows, location, temperature) + (if Matches(row, location, temperature) then [] else [row])
    decreases |rows|
  {
    if rows != [] {
      assert (rows + [row])[1..] == rows[1..] + [row];
      RemainingAppend(rows[1..], row, location, temperature);
    }
  }

  /**
   * The loop of update_input_csv runs through exactly when every row can be compared, and then
   * keeps exactly the rows that do not hold the pair, in their order. Otherwise it stops at the
   * first row that cannot be compared.
   */
  lemma {:induction false} KeptSpec(rows: seq<Dict>, location: string, temperature: string)
    ensures Kept(rows, location, temperature).Ok? <==> forall i :: 0 <= i < |rows| ==> Comparable(rows[i], location)
    ensures Kept(rows, location, temperature).Ok? ==> Kept(rows, location, temperature).value == Remaining(rows, location, temperature)
    ensures Kept(rows, location, temperature).Err? ==>
      var e := Kept(rows, location, temperature).error;
      && e.MissingField? && e.row < |rows| && !Comparable(rows[e.row], location)
      && forall i :: 0 <= i < e.row ==> Comparable(rows[i], location)
    decreases |rows|
  {
    if rows != [] {
      var n := |rows| - 1;
      var front := rows[..n];
      KeptSpec(front, location, temperature);
      forall i | 0 <= i < n
        ensures front[i] == rows[i]
      {
      }
      if Kept(front, location, temperature).Ok? {
        KeptLast(rows, location, temperature);
      } else {
        assert Kept(rows, location, temperature) == Kept(front, location, temperature);
      }
    }
  }

  /** The last step of the filter loop, once every earlier row was compared. */
  lemma KeptLast(rows: seq<Dict>, location: string, temperature: string)
    requires rows != []
    requires var front := rows[..|rows| - 1];
      && Kept(front, location, temperature) == Ok(Remaining(front, location, temperature))
      && forall i :: 0 <= i < |front| ==> Comparable(rows[i], location)
    ensures Kept(rows, location, temperature).Ok? <==> Comparable(rows[|rows| - 1], location)
    ensures Kept(rows, location, temperature).Ok? ==> Kept(rows, location, temperature).value == Remaining(rows, location, temperature)
    ensures Kept(rows, location, temperature).Err? ==> Kept(rows, location, temperature) == Err(MissingField(|rows| - 1, Kept(rows, location, temperature).error.field))
  {
    var n := |rows| - 1;
    var front := rows[..n];
    if Comparable(rows[n], location) {
      RemainingAppend(front, rows[n], location, temperature);
      SplitLast(rows);
    }
  }

  /** Remaining distributes over concatenation, so the kept rows keep their relative order. */
  lemma {:induction false} RemainingConcat(a: seq<Dict>, b: seq<Dict>, location: string, temperature: string)
    ensures Remaining(a + b, location, temperature) == Remaining(a, location, temperature) + Remaining(b, location, temperature)
    decreases |a|
  {
    if a != [] {
      var head := if Matches(a[0], location, temperature) then [] else [a[0]];
      assert (a + b)[0] == a[0] && (a + b)[1..] == a[1..] + b;
      RemainingConcat(a[1..], b, location, temperature);
      var ra, rb := Remaining(a[1..], location, temperature), Remaining(b, location, temperature);
      assert Remaining(a + b, location, temperature) == head + (ra + rb);
      assert Remaining(a, location, temperature) == head + ra;
      assert head + (ra + rb) == (head + ra) + rb;
    } else {
      assert a + b == b;
    }
  }

  /** Every row holding the pair is removed, not just the first, and every other row is kept. */
  lemma {:induction false} RemainingMembers(rows: seq<Dict>, location: string, temperature: string)
    ensures forall row :: row in Remaining(rows, location, temperature) <==> row in rows && !Matches(row, location, temperature)
    decreases |rows|
  {
    if rows != [] {
      RemainingMembers(rows[1..], location, temperature);
      assert rows == [rows[0]] + rows[1..];
    }
  }

  /** Deleting a pair that no row holds leaves the rows as they were. */
  lemma {:induction false} RemainingNoMatch(rows: seq<Dict>, location: string, temperature: string)
    requires forall i :: 0 <= i < |rows| ==> !Matches(rows[i], location, temperature)
    ensures Remaining(rows, location, temperature) == rows
    decreases |rows|
  {
    if rows != [] {
      RemainingNoMatch(rows[1..], location, temperature);
    }
  }

  /** The input file after update_input_csv, and the exception it raised, if any. */
  datatype Rewrite = Rewrite(file: Table, raised: Option<Error>)

  /**
   * The input file as DictWriter leaves it when the kept rows are written under the fixed header
   * location,temperature. A row with another key makes DictWriter raise after the header and the
   * rows before it were written: the header always, then one line per row written.
   */
  function WrittenInput(entries: seq<Dict>): (r: Rewrite)
    ensures r.file != [] && r.file[0] == InputHeader
    ensures r.raised.None? <==> forall i :: 0 <= i < |entries| ==> FitsFields(InputHeader, entries[i])
    ensures r.raised.None? ==> |r.file| == |entries| + 1
    ensures r.raised.Some? ==> r.raised.value.ExtraFields? && |r.file| == r.raised.value.row + 1 <= |entries|
  {
    match WriteRows(InputHeader, entries)
    case Ok(lines) => Rewrite([InputHeader] + lines, None)
    case Err(e) => Rewrite([InputHeader] + WriteRows(InputHeader, entries[..e.row]).value, Some(e))
  }

  /**
   * update_input_csv: read the rows and filter them; only then is the file opened for writing.
   * A rewrite that raises nothing starts with the fixed header, and no rewrite makes a
   * non-empty file longer.
   */
  function Rewritten(inputFile: Table, location: string, temperature: string): (r: Rewrite)
    ensures r.raised.None? ==> r.file != [] && r.file[0] == InputHeader
    ensures inputFile != [] ==> |r.file| <= |inputFile|
  {
    match ReadDicts(inputFile)
    case Err(e) => Rewrite(inputFile, Some(e))
    case Ok(rows) =>
      match Kept(rows, location, temperature)
      case Err(e) => Rewrite(inputFile, Some(e))
      case Ok(entries) => WrittenInput(entries)
  }

  /**
   * Once the rows are read and filtered the file is rewritten and starts with the header
   * location,temperature, whatever its header was before; before that point it is left alone.
   */
  lemma RewrittenHeader(inputFile: Table, location: string, temperature: string)
    ensures var r := Rewritten(inputFile, location, temperature);
      var filtered := ReadDicts(inputFile).Ok? && Kept(ReadDicts(inputFile).value, location, temperature).Ok?;
      && (filtered ==> r.file != [] && r.file[0] == InputHeader)
      && (!filtered ==> r.file == inputFile && r.raised.Some?)
  {
  }

  /** Once the loop has stopped at a row, the rows after it do not change the outcome. */
  lemma {:induction false} KeptStops(rows: seq<Dict>, n: nat, location: string, temperature: string)
    requires n <= |rows| && Kept(rows[..n], location, temperature).Err?
    ensures Kept(rows, location, temperature) == Kept(rows[..n], location, temperature)
    decreases |rows| - n
  {
    if n < |rows| {
      var m := |rows| - 1;
      assert rows[..m][..n] == rows[..n];
      KeptStops(rows[..m], n, location, temperature);
    } else {
      assert rows[..n] == rows;
    }
  }

  /** The loop of update_input_csv that collects temp_entries, or stops with a KeyError. */
  method FilterRows(rows: seq<Dict>, location: string, temperature: string) returns (r: Result<seq<Dict>, Error>)
    ensures r == Kept(rows, location, temperature)
  {
    var tempEntries: seq<Dict> := [];
    var i := 0;
    while i < |rows|
      invariant 0 <= i <= |rows|
      invariant Kept(rows[..i], location, temperature) == Ok(tempEntries)
    {
      var row := rows[i];
      assert rows[..i + 1][..i] == rows[..i];
      if "location" !in row.entries {
        KeptStops(rows, i + 1, location, temperature);
        return Err(MissingField(i, "location"));
      }
      if row.entries["location"] != location {
        tempEntries := tempEntries + [row];
      } else if "temperature" !in row.entries {
        KeptStops(rows, i + 1, location, temperature);
        return Err(MissingField(i, "temperature"));
      } else if row.entries["temperature"] != temperature {
        tempEntries := tempEntries + [row];
      }
      i := i + 1;
    }
    assert rows[..i] == rows;
    r := Ok(tempEntries);
  }

  /** The second half of update_input_csv: truncate, write the header, then the rows one at a time. */
  method WriteInputRows(entries: seq<Dict>) returns (file: Table, raised: Option<Error>)
    ensures Rewrite(file, raised) == WrittenInput(entries)
  {
    file := [InputHeader];
    var j := 0;
    while j < |entries|
      invariant 0 <= j <= |entries|
      invariant WriteRows(InputHeader, entries[..j]).Ok?
      invariant file == [InputHeader] + WriteRows(InputHeader, entries[..j]).value
    {
      var row := entries[j];
      assert entries[..j + 1][..j] == entries[..j];
      if !FitsFields(InputHeader, row) {
        var e := WriteRows(InputHeader, entries).error;
        assert forall k :: 0 <= k < j ==> FitsFields(InputHeader, entries[..j][k]);
        assert e.row == j;
        return file, Some(ExtraFields(j));
      }
      file := file + [DictLine(InputHeader, row)];
      j := j + 1;
    }
    assert entries[..j] == entries;
    raised := None;
  }

  /** update_input_csv: read and filter the rows; only then rewrite the file. */
  method UpdateInputCsv(inputFile: Table, location: string, temperature: string)
    returns (file: Table, raised: Option<Error>)
    ensures Rewrite(file, raised) == Rewritten(inputFile, location, temperature)
  {
    var read := ReadDicts(inputFile);
    if read.Err? {
      return inputFile, Some(read.error);
    }
    var kept := FilterRows(read.value, location, temperature);
    if kept.Err? {
      return inputFile, Some(kept.error);
    }
    file, raised := WriteInputRows(kept.value);
  }

  /** A raw line of a well-formed input file that holds the pair to delete. */
  predicate LineHolds(line: seq<string>, location: string, temperature: string) {
    |line| == 2 && line[0] == location && line[1] == temperature
  }

  /** The data lines that do not hold the pair, in their order. */
  function RemainingLines(lines: Table, location: string, temperature: string): Table
    decreases |lines|
  {
    if lines == [] then []
    else (if LineHolds(lines[0], location, temperature) then [] else [lines[0]]) + RemainingLines(lines[1..], location, temperature)
  }

  /** The dict DictReader reads from a two-field line under the header location,temperature. */
  function TwoColumnRow(line: seq<string>): Dict
    requires |line| == 2
  {
    Dict(InputHeader, map["location" := line[0], "temperature" := line[1]])
  }

  /** Such a row is written back as the line it was read from. */
  lemma TwoColumnLineWritten(line: seq<string>)
    requires |line| == 2
    ensures FitsFields(InputHeader, TwoColumnRow(line))
    ensures DictLine(InputHeader, TwoColumnRow(line)) == line
  {
    var written := DictLine(InputHeader, TwoColumnRow(line));
    assert written[0] == line[0] && written[1] == line[1];
  }

  /** Such a row can always be tested, and matches the pair exactly when its line holds it. */
  lemma MatchesTwoColumnRow(line: seq<string>, location: string, temperature: string)
    requires |line| == 2
    ensures Matches(TwoColumnRow(line), location, temperature) <==> LineHolds(line, location, temperature)
    ensures Comparable(TwoColumnRow(line), location)
  {
  }

  /** The rows were read, one for one, from the two-field lines. */
  predicate ReadFrom(rows: seq<Dict>, lines: Table) {
    |rows| == |lines| && forall k :: 0 <= k < |lines| ==> |lines[k]| == 2 && rows[k] == TwoColumnRow(lines[k])
  }

  /** Filtering the rows and filtering the lines they were read from agree, line for line. */
  lemma {:induction false} RemainingRows(rows: seq<Dict>, lines: Table, location: string, temperature: string)
    requires ReadFrom(rows, lines)
    ensures ReadFrom(Remaining(rows, location, temperature), RemainingLines(lines, location, temperature))
    decreases |rows|
  {
    if rows != [] {
      var tailRows, tailLines := rows[1..], lines[1..];
      forall i | 0 <= i < |tailLines|
        ensures |tailLines[i]| == 2 && tailRows[i] == TwoColumnRow(tailLines[i])
      {
        assert tailLines[i] == lines[i + 1] && tailRows[i] == rows[i + 1];
      }
      RemainingRows(tailRows, tailLines, location, temperature);
      RemainingRowsStep(rows, lines, location, temperature);
    }
  }

  lemma RemainingRowsStep(rows: seq<Dict>, lines: Table, location: string, temperature: string)
    requires rows != [] && ReadFrom(rows, lines)
    requires ReadFrom(Remaining(rows[1..], location, temperature), RemainingLines(lines[1..], location, temperature))
    ensures ReadFrom(Remaining(rows, location, temperature), RemainingLines(lines, location, temperature))
  {
    var kept, out := Remaining(rows[1..], location, temperature), RemainingLines(lines[1..], location, temperature);
    MatchesTwoColumnRow(lines[0], location, temperature);
    if LineHolds(lines[0], location, temperature) {
      assert Remaining(rows, location, temperature) == kept;
      assert RemainingLines(lines, location, temperature) == out;
    } else {
      assert Remaining(rows, location, temperature) == [rows[0]] + kept;
      assert RemainingLines(lines, location, temperature) == [lines[0]] + out;
      ReadFromCons(rows[0], lines[0], kept, out);
    }
  }

  lemma ReadFromCons(row: Dict, line: seq<string>, rows: seq<Dict>, lines: Table)
    requires |line| == 2 && row == TwoColumnRow(line) && ReadFrom(rows, lines)
    ensures ReadFrom([row] + rows, [line] + lines)
  {
    var rows', lines' := [row] + rows, [line] + lines;
    forall k | 0 < k < |lines'|
      ensures |lines'[k]| == 2 && rows'[k] == TwoColumnRow(lines'[k])
    {
      assert lines'[k] == lines[k - 1] && rows'[k] == rows[k - 1];
    }
  }

  /**
   * On a well-formed input file, update_input_csv raises nothing and leaves the header followed
   * by exactly the data lines that do not hold the pair, in their order.
   */
  lemma RewrittenTwoColumnFile(inputFile: Table, location: string, temperature: string)
    requires TwoColumnFile(inputFile)
    ensures Rewritten(inputFile, location, temperature) ==
      Rewrite([InputHeader] + RemainingLines(inputFile[1..], location, temperature), None)
  {
    ReadTwoColumnFile(inputFile);
    var rows := ReadDicts(inputFile).value;
    var lines := inputFile[1..];
    forall i | 0 <= i < |rows|
      ensures |lines[i]| == 2 && rows[i] == TwoColumnRow(lines[i])
      ensures Comparable(rows[i], location)
    {
      assert lines[i] == inputFile[i + 1];
      ZipInputHeader(lines[i]);
      MatchesTwoColumnRow(lines[i], location, temperature);
    }
    KeptSpec(rows, location, temperature);
    RemainingRows(rows, lines, location, temperature);
    var entries := Remaining(rows, location, temperature);
    var out := RemainingLines(lines, location, temperature);
    forall k | 0 <= k < |entries|
      ensures FitsFields(InputHeader, entries[k]) && DictLine(InputHeader, entries[k]) == out[k]
    {
      TwoColumnLineWritten(out[k]);
    }
    SameElements(WriteRows(InputHeader, entries).value, out);
  }

  /** Deleting a pair no line holds leaves the lines as they were. */
  lemma {:induction false} RemainingLinesNoMatch(lines: Table, location: string, temperature: string)
    requires forall i :: 0 <= i < |lines| ==> !LineHolds(lines[i], location, temperature)
    ensures RemainingLines(lines, location, temperature) == lines
    decreases |lines|
  {
    if lines != [] {
      RemainingLinesNoMatch(lines[1..], location, temperature);
      assert [lines[0]] + lines[1..] == lines;
    }
  }

  /** The kept lines are exactly the lines that do not hold the pair. */
  lemma {:induction false} RemainingLinesMembers(lines: Table, location: string, temperature: string)
    ensures forall line :: line in RemainingLines(lines, location, temperature) <==>
      line in lines && !LineHolds(line, location, temperature)
    decreases |lines|
  {
    if lines != [] {
      RemainingLinesMembers(lines[1..], location, temperature);
      assert lines == [lines[0]] + lines[1..];
    }
  }

  /**
   * Deleting with the temperature as stored removes every line that holds the pair, and only
   * those: the rewritten file is the header followed by the other data lines.
   */
  lemma RewrittenRemovesPair(inputFile: Table, location: string, temperature: string)
    requires TwoColumnFile(inputFile)
    ensures var r := Rewritten(inputFile, location, temperature);
      && r.raised == None && r.file != [] && r.file[0] == InputHeader
      && forall line :: line in r.file[1..] <==> line in inputFile[1..] && !LineHolds(line, location, temperature)
  {
    RewrittenTwoColumnFile(inputFile, location, temperature);
    RemainingLinesMembers(inputFile[1..], location, temperature);
    var r := Rewritten(inputFile, location, temperature);
    assert r.file[1..] == RemainingLines(inputFile[1..], location, temperature);
  }

  /**
   * The temperature cell load_data shows: the stored value, a space, then F for a Fahrenheit
   * city and C otherwise. It never reads as an int.
   */
  function DisplayedTemperature(cities: seq<string>, location: string, temperature: string): (shown: string)
    ensures |shown| == |temperature| + 2 && shown[..|temperature|] == temperature && shown[|temperature|] == ' '
    ensures shown[|shown| - 1] == (if UsingFahrenheit(cities, location) then 'F' else 'C')
    ensures ParseInt(shown).None?
  {
    var shown := temperature + " " + (if UsingFahrenheit(cities, location) then "F" else "C");
    ParseIntLastNotDigit(shown);
    shown
  }

  /**
   * The delete path as written: delete_selected hands the displayed cell to update_input_csv.
   * On a well-formed input file whose temperatures are ints, that cell never equals a stored
   * temperature, so the file is rewritten unchanged.
   */
  lemma DeleteAsWrittenKeepsEveryLine(cities: seq<string>, inputFile: Table, location: string, temperature: string)
    requires TwoColumnFile(inputFile) && ValidTemperatures(inputFile)
    ensures Rewritten(inputFile, location, DisplayedTemperature(cities, location, temperature)) == Rewrite(inputFile, None)
  {
    var shown := DisplayedTemperature(cities, location, temperature);
    var lines := inputFile[1..];
    forall i | 0 <= i < |lines|
      ensures !LineHolds(lines[i], location, shown)
    {
      assert lines[i] == inputFile[i + 1];
    }
    RemainingLinesNoMatch(lines, location, shown);
    RewrittenTwoColumnFile(inputFile, location, shown);
    assert [InputHeader] + lines == inputFile;
  }
}
