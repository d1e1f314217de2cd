/**
 * The ClothingRecommender engine: the decision rule, the Fahrenheit conversion, the
 * exact-membership unit classifier and process_csv, which reads the input file, sets
 * what_to_wear on every row and writes the output file.
 *
 * Files are passed in and returned as tables; the list of Fahrenheit cities, which the
 * constructor loads from fahrenheit_cities.txt, is the parameter `cities`.
 */
module Recommender {
  import opened Wrappers
  import opened Text
  import opened Csv

  const WhatToWear := "what_to_wear"
  const Jumper := "jumper"
  const TShirt := "t-shirt"

  /** decide_what_to_wear: a jumper below 15 degrees Celsius, a t-shirt from 15 up. */
  function DecideWhatToWear(temperature: real): (wear: string)
    ensures wear == Jumper <==> temperature < 15.0
    ensures wear == TShirt <==> temperature >= 15.0
  {
    if temperature < 15.0 then Jumper else TShirt
  }

  /** fahrenheit_to_celsius: exact, so converting back with F = C * 9/5 + 32 returns the input. */
  function FahrenheitToCelsius(fahrenheit: real): (celsius: real)
    ensures celsius * 9.0 / 5.0 + 32.0 == fahrenheit
  {
    (fahrenheit - 32.0) * 5.0 / 9.0
  }

  /** using_fahrenheit: exact, case-sensitive membership in the configured list; nothing is trimmed. */
  function UsingFahrenheit(cities: seq<string>, location: string): (r: bool)
    ensures r <==> exists i :: 0 <= i < |cities| && cities[i] == location
  {
    location in cities
  }

  /**
   * The label process_csv stores for a row: the temperature is converted when the location is a
   * Fahrenheit city. In Fahrenheit the 15 degree threshold is 59 degrees.
   */
  function Recommend(cities: seq<string>, location: string, temperature: int): (wear: string)
    ensures wear == Jumper || wear == TShirt
    ensures wear == Jumper <==> if UsingFahrenheit(cities, location) then temperature < 59 else temperature < 15
  {
    var t := temperature as real;
    DecideWhatToWear(if UsingFahrenheit(cities, location) then FahrenheitToCelsius(t) else t)
  }

  /**
   * One pass of the loop body of process_csv on row number index: int(row['temperature']),
   * then row['location'], then row['what_to_wear'] = label, overwriting an existing value. It
   * fails with a KeyError or ValueError naming that row; otherwise the row gains a label and
   * loses no field.
   */
  function Annotate(cities: seq<string>, row: Dict, index: nat): (r: Result<Dict, Error>)
    ensures r.Err? ==> (r.error.MissingField? || r.error.InvalidTemperature?) && r.error.row == index
    ensures r.Ok? ==> r.value.entries.Keys == row.entries.Keys + {WhatToWear}
    ensures r.Ok? ==> r.value.entries[WhatToWear] == Jumper || r.value.entries[WhatToWear] == TShirt
  {
    if "temperature" !in row.entries then Err(MissingField(index, "temperature"))
    else
      var text := row.entries["temperature"];
      match ParseInt(text)
      case None => Err(InvalidTemperature(index, text))
      case Some(t) =>
        if "location" !in row.entries then Err(MissingField(index, "location"))
        else Ok(Assign(row, WhatToWear, Recommend(cities, row.entries["location"], t)))
  }

  /**
   * A row is processed exactly when its temperature is present and parses as an int and its
   * location is present. The result holds the recommendation under what_to_wear; every other
   * field keeps its value, and the column order is kept with what_to_wear appended if it is new.
   */
  lemma AnnotateSpec(cities: seq<string>, row: Dict, index: nat)
    ensures Annotate(cities, row, index).Ok? <==>
      "temperature" in row.entries && ParseInt(row.entries["temperature"]).Some? && "location" in row.entries
    ensures Annotate(cities, row, index).Err? ==>
      var e := Annotate(cities, row, index).error;
      (e.MissingField? || e.InvalidTemperature?) && e.row == index
    ensures Annotate(cities, row, index).Ok? ==>
      var out := Annotate(cities, row, index).value;
      && WhatToWear in out.entries
      && out.entries[WhatToWear] == Recommend(cities, row.entries["location"], ParseInt(row.entries["temperature"]).value)
      && (forall k :: k != WhatToWear ==> (k in out.entries <==> k in row.entries))
      && (forall k :: k != WhatToWear && k in row.entries ==> out.entries[k] == row.entries[k])
      && out.keys == (if WhatToWear in row.keys then row.keys else row.keys + [WhatToWear])
      && (ValidDict(row) ==> ValidDict(out))
  {
  }

  /**
   * The rows after the loop of process_csv: every row annotated, in order, or the error of the
   * first row the loop fails on: one result per row, or a KeyError or ValueError naming a row.
   */
  function Processed(cities: seq<string>, rows: seq<Dict>): (r: Result<seq<Dict>, Error>)
    ensures r.Ok? ==> |r.value| == |rows|
    ensures r.Err? ==> (r.error.MissingField? || r.error.InvalidTemperature?) && r.error.row < |rows|
  {
    var step := (row: Dict, i: nat) => Annotate(cities, row, i);
    MapUntilErrorSpec(step, rows);
    MapUntilError(step, rows)
  }

  /**
   * The loop succeeds exactly when every row can be annotated, and then keeps the number and the
   * order of the rows, each replaced by its annotated form. Otherwise it fails with the error of
   * the first row that cannot be annotated.
   */
  lemma ProcessedSpec(cities: seq<string>, rows: seq<Dict>)
    ensures Processed(cities, rows).Ok? <==> forall i :: 0 <= i < |rows| ==> Annotate(cities, rows[i], i).Ok?
    ensures Processed(cities, rows).Ok? ==>
      var out := Processed(cities, rows).value;
      |out| == |rows| && forall i :: 0 <= i < |rows| ==> out[i] == Annotate(cities, rows[i], i).value
    ensures Processed(cities, rows).Err? ==>
      var e := Processed(cities, rows).error;
      && (e.MissingField? || e.InvalidTemperature?) && e.row < |rows|
      && Annotate(cities, rows[e.row], e.row) == Err(e)
      && forall i :: 0 <= i < e.row ==> Annotate(cities, rows[i], i).Ok?
  {
    var step := (row: Dict, i: nat) => Annotate(cities, row, i);
    MapUntilErrorSpec(step, rows);
    var k := FirstFailure(step, rows);
  }

  /** The loop stops at row i when every earlier row was processed and row i is not. */
  lemma ProcessedFailsAt(cities: seq<string>, rows: seq<Dict>, i: nat)
    requires i < |rows| && forall j :: 0 <= j < i ==> Annotate(cities, rows[j], j).Ok?
    requires Annotate(cities, rows[i], i).Err?
    ensures Processed(cities, rows) == Err(Annotate(cities, rows[i], i).error)
  {
    ProcessedSpec(cities, rows);
  }

  /** The loop finishes with every row processed in place when no row fails. */
  lemma ProcessedAll(cities: seq<string>, rows: seq<Dict>, data: seq<Dict>)
    requires |data| == |rows|
    requires forall j :: 0 <= j < |rows| ==> Annotate(cities, rows[j], j).Ok? && data[j] == Annotate(cities, rows[j], j).value
    ensures Processed(cities, rows) == Ok(data)
  {
    ProcessedSpec(cities, rows);
    SameElements(data, Processed(cities, rows).value);
  }

  lemma SameElements<T>(a: seq<T>, b: seq<T>)
    requires |a| == |b| && forall i :: 0 <= i < |a| ==> a[i] == b[i]
    ensures a == b
  {
  }

  /** write_csv: the header is the key list of the first row, so an empty list of rows fails. */
  function WriteCsv(data: seq<Dict>): (r: Result<Table, Error>)
    ensures data == [] ==> r == Err(EmptyDataset)
    ensures r.Ok? <==> data != [] && forall i :: 0 <= i < |data| ==> FitsFields(data[0].keys, data[i])
    ensures r.Ok? ==> |r.value| == |data| + 1 && r.value[0] == data[0].keys
    ensures r.Ok? ==> forall i :: 0 <= i < |data| ==> r.value[i + 1] == DictLine(data[0].keys, data[i])
  {
    if data == [] then Err(EmptyDataset) else WriteDicts(data[0].keys, data)
  }

  /**
   * What process_csv leaves in the output file, given the input file, or the error it stops
   * with: an empty input file has no rows and fails with an IndexError, and a written file holds
   * the header line and at most one line per line of the input file.
   */
  function Recompute(cities: seq<string>, inputFile: Table): (r: Result<Table, Error>)
    ensures inputFile == [] ==> r == Err(EmptyDataset)
    ensures r.Ok? ==> 2 <= |r.value| <= |inputFile|
  {
    match ReadDicts(inputFile)
    case Err(e) => Err(e)
    case Ok(rows) =>
      match Processed(cities, rows)
      case Err(e) => Err(e)
      case Ok(data) => WriteCsv(data)
  }

  /** A Fahrenheit reading gets a jumper exactly when it is below 59 degrees, the image of 15 Celsius. */
  lemma FahrenheitDecision(fahrenheit: real)
    ensures FahrenheitToCelsius(fahrenheit) < 15.0 <==> fahrenheit < 59.0
    ensures DecideWhatToWear(FahrenheitToCelsius(fahrenheit)) == Jumper <==> fahrenheit < 59.0
  {
  }

  /** Annotating an annotated row changes nothing: what_to_wear is overwritten with the same value. */
  lemma AnnotateIdempotent(cities: seq<string>, row: Dict, index: nat)
    requires Annotate(cities, row, index).Ok?
    ensures Annotate(cities, Annotate(cities, row, index).value, index) == Annotate(cities, row, index)
  {
    AnnotateSpec(cities, row, index);
    var out := Annotate(cities, row, index).value;
    AnnotateSpec(cities, out, index);
    assert out.entries["temperature"] == row.entries["temperature"];
    assert out.entries["location"] == row.entries["location"];
    var again := Annotate(cities, out, index).value;
    assert again.entries == out.entries;
  }

  /** Running the loop of process_csv on rows it has already processed gives the same rows. */
  lemma ProcessedIdempotent(cities: seq<string>, rows: seq<Dict>)
    requires Processed(cities, rows).Ok?
    ensures Processed(cities, Processed(cities, rows).value) == Processed(cities, rows)
  {
    ProcessedSpec(cities, rows);
    var out := Processed(cities, rows).value;
    forall i | 0 <= i < |out|
      ensures Annotate(cities, out[i], i) == Ok(out[i])
    {
      AnnotateIdempotent(cities, rows[i], i);
    }
    ProcessedSpec(cities, out);
    SameElements(Processed(cities, out).value, out);
  }

  /**
   * The rows process_csv writes share one list of keys: the input header's keys, with
   * what_to_wear appended unless the header already had it.
   */
  lemma ProcessedKeys(cities: seq<string>, inputFile: Table)
    requires ReadDicts(inputFile).Ok? && Processed(cities, ReadDicts(inputFile).value).Ok?
    requires inputFile != []
    ensures var keys := KeyOrder(inputFile[0]);
      var out := Processed(cities, ReadDicts(inputFile).value).value;
      forall i :: 0 <= i < |out| ==>
        ValidDict(out[i]) && out[i].keys == if WhatToWear in keys then keys else keys + [WhatToWear]
  {
    var rows := ReadDicts(inputFile).value;
    ProcessedSpec(cities, rows);
    forall i | 0 <= i < |rows| {
      AnnotateSpec(cities, rows[i], i);
    }
  }

  /**
   * Recomputing from the output file gives the output file again: process_csv applied to its own
   * output reproduces it, so a second run after a first changes nothing.
   */
  lemma RecomputeIdempotent(cities: seq<string>, inputFile: Table)
    requires Recompute(cities, inputFile).Ok?
    ensures Recompute(cities, Recompute(cities, inputFile).value) == Recompute(cities, inputFile)
  {
    var rows := ReadDicts(inputFile).value;
    ProcessedSpec(cities, rows);
    var out := Processed(cities, rows).value;
    assert inputFile != [];
    ProcessedKeys(cities, inputFile);
    var keys := KeyOrder(inputFile[0]);
    var outKeys := if WhatToWear in keys then keys else keys + [WhatToWear];
    assert out[0].keys == outKeys;
    assert WhatToWear in outKeys;
    RoundTrip(outKeys, out);
    ProcessedIdempotent(cities, rows);
  }

  /**
   * process_csv stops before writing when some row's temperature is not an int: the recompute
   * fails, so the output file is left as it was.
   */
  lemma RecomputeRejectsInvalidTemperature(cities: seq<string>, inputFile: Table, i: nat)
    requires ReadDicts(inputFile).Ok? && i < |ReadDicts(inputFile).value|
    requires var row := ReadDicts(inputFile).value[i];
      "temperature" in row.entries && ParseInt(row.entries["temperature"]).None?
    ensures Recompute(cities, inputFile).Err?
  {
    ProcessedSpec(cities, ReadDicts(inputFile).value);
  }

  /** The header of the input file the viewer maintains. */
  const InputHeader := ["location", "temperature"]

  /** An input file in the shape the viewer keeps: the header location,temperature, then two fields per line. */
  predicate TwoColumnFile(inputFile: Table) {
    && inputFile != [] && inputFile[0] == InputHeader
    && forall i :: 1 <= i < |inputFile| ==> |inputFile[i]| == 2
  }

  /** Every temperature of such a file reads as an int, so process_csv runs through on it. */
  predicate ValidTemperatures(inputFile: Table) {
    forall i :: 1 <= i < |inputFile| ==> |inputFile[i]| == 2 && ParseInt(inputFile[i][1]).Some?
  }

  /** A line under the header location,temperature reads as the dict with exactly those two keys. */
  lemma ZipInputHeader(line: seq<string>)
    requires |line| == 2
    ensures Zip(InputHeader, line) == Dict(InputHeader, map["location" := line[0], "temperature" := line[1]])
  {
    ZipPair("location", "temperature", line[0], line[1]);
    assert line == [line[0], line[1]];
  }

  /** One line of a two-column input file, read under its header and annotated, then written back. */
  lemma AnnotateTwoColumnLine(cities: seq<string>, line: seq<string>, index: nat)
    requires |line| == 2
    ensures Annotate(cities, Zip(InputHeader, line), index).Ok? <==> ParseInt(line[1]).Some?
    ensures Annotate(cities, Zip(InputHeader, line), index).Ok? ==>
      var out := Annotate(cities, Zip(InputHeader, line), index).value;
      && ValidDict(out) && out.keys == InputHeader + [WhatToWear]
      && DictLine(InputHeader + [WhatToWear], out) == line + [Recommend(cities, line[0], ParseInt(line[1]).value)]
  {
    ZipInputHeader(line);
    if ParseInt(line[1]).Some? {
      AnnotatedTwoColumnLine(cities, line, Zip(InputHeader, line), index);
    }
  }

  lemma AnnotatedTwoColumnLine(cities: seq<string>, line: seq<string>, row: Dict, index: nat)
    requires |line| == 2 && ParseInt(line[1]).Some?
    requires row == Dict(InputHeader, map["location" := line[0], "temperature" := line[1]])
    ensures Annotate(cities, row, index).Ok?
    ensures var out := Annotate(cities, row, index).value;
      && ValidDict(out) && out.keys == InputHeader + [WhatToWear]
      && DictLine(InputHeader + [WhatToWear], out) == line + [Recommend(cities, line[0], ParseInt(line[1]).value)]
  {
    var wear := Recommend(cities, line[0], ParseInt(line[1]).value);
    AnnotatedTwoColumnRow(cities, line, row, index);
    ThreeColumnDict(line[0], line[1], wear);
    assert line + [wear] == [line[0], line[1], wear];
  }

  /** The dict {location, temperature, what_to_wear} is well formed and written as its three values. */
  lemma ThreeColumnDict(location: string, temperature: string, wear: string)
    ensures var fields := InputHeader + [WhatToWear];
      var out := Dict(fields, map["location" := location, "temperature" := temperature][WhatToWear := wear]);
      ValidDict(out) && DictLine(fields, out) == [location, temperature, wear]
  {
    var fields := InputHeader + [WhatToWear];
    var out := Dict(fields, map["location" := location, "temperature" := temperature][WhatToWear := wear]);
    assert ValidDict(out) by {
      assert forall i, j :: 0 <= i < j < |fields| ==> fields[i] != fields[j];
    }
    var written := DictLine(fields, out);
    var expected := [location, temperature, wear];
    assert written[0] == expected[0] && written[1] == expected[1] && written[2] == expected[2];
    SameElements(written, expected);
  }

  /** A row read from a two-column line gains what_to_wear as its third column. */
  lemma AnnotatedTwoColumnRow(cities: seq<string>, line: seq<string>, row: Dict, index: nat)
    requires |line| == 2 && ParseInt(line[1]).Some?
    requires row == Dict(InputHeader, map["location" := line[0], "temperature" := line[1]])
    ensures Annotate(cities, row, index) == Ok(Dict(InputHeader + [WhatToWear],
      row.entries[WhatToWear := Recommend(cities, line[0], ParseInt(line[1]).value)]))
  {
    assert WhatToWear !in InputHeader;
  }

  /**
   * process_csv on an input file of the usual shape: the header location,temperature and two
   * fields on every other line. It succeeds exactly when there is at least one data line and every
   * temperature is an int; then the output has the header location,temperature,what_to_wear and,
   * line for line, each input line followed by its recommendation.
   */
  lemma RecomputeTwoColumnFile(cities: seq<string>, inputFile: Table)
    requires TwoColumnFile(inputFile)
    ensures Recompute(cities, inputFile).Ok? <==>
      |inputFile| > 1 && forall i :: 1 <= i < |inputFile| ==> ParseInt(inputFile[i][1]).Some?
    ensures Recompute(cities, inputFile).Ok? ==>
      var out := Recompute(cities, inputFile).value;
      && |out| == |inputFile| && out[0] == InputHeader + [WhatToWear]
      && forall i :: 1 <= i < |inputFile| ==>
           out[i] == inputFile[i] + [Recommend(cities, inputFile[i][0], ParseInt(inputFile[i][1]).value)]
  {
    ReadTwoColumnFile(inputFile);
    var rows := ReadDicts(inputFile).value;
    forall i | 0 <= i < |rows|
      ensures Annotate(cities, rows[i], i).Ok? <==> ParseInt(inputFile[i + 1][1]).Some?
    {
      AnnotateTwoColumnLine(cities, inputFile[i + 1], i);
    }
    ProcessedSpec(cities, rows);
    if Processed(cities, rows).Ok? {
      forall i | 1 <= i < |inputFile|
        ensures ParseInt(inputFile[i][1]).Some?
      {
        assert Annotate(cities, rows[i - 1], i - 1).Ok?;
      }
      AnnotatedTwoColumnFile(cities, inputFile, rows, Processed(cities, rows).value);
    }
  }

  /** Line i of the output of process_csv on a two-column file whose temperatures are all ints. */
  lemma RecomputedLine(cities: seq<string>, file: Table, i: nat)
    requires TwoColumnFile(file) && forall j :: 1 <= j < |file| ==> ParseInt(file[j][1]).Some?
    requires 1 <= i < |file|
    ensures Recompute(cities, file).Ok? && |Recompute(cities, file).value| == |file|
    ensures Recompute(cities, file).value[0] == InputHeader + [WhatToWear]
    ensures Recompute(cities, file).value[i] == file[i] + [Recommend(cities, file[i][0], ParseInt(file[i][1]).value)]
  {
    RecomputeTwoColumnFile(cities, file);
  }

  /** DictReader on a file of the usual shape yields one dict per data line, built from that line. */
  lemma ReadTwoColumnFile(inputFile: Table)
    requires TwoColumnFile(inputFile)
    ensures ReadDicts(inputFile).Ok?
    ensures |ReadDicts(inputFile).value| == |inputFile| - 1
    ensures forall i :: 0 <= i < |inputFile| - 1 ==> ReadDicts(inputFile).value[i] == Zip(InputHeader, inputFile[i + 1])
  {
    var lines := inputFile[1..];
    forall i | 0 <= i < |lines|
      ensures lines[i] != [] && |lines[i]| == |InputHeader|
    {
      assert lines[i] == inputFile[i + 1];
    }
    ReadRowsEveryLine(InputHeader, lines);
  }

  /** The rows of a file of the usual shape, all annotated, are written back line for line with the label appended. */
  lemma AnnotatedTwoColumnFile(cities: seq<string>, inputFile: Table, rows: seq<Dict>, out: seq<Dict>)
    requires forall i :: 1 <= i < |inputFile| ==> |inputFile[i]| == 2 && ParseInt(inputFile[i][1]).Some?
    requires |rows| == |inputFile| - 1 && |out| == |rows|
    requires forall i :: 0 <= i < |rows| ==> rows[i] == Zip(InputHeader, inputFile[i + 1])
    requires forall i :: 0 <= i < |rows| ==> Annotate(cities, rows[i], i).Ok? && out[i] == Annotate(cities, rows[i], i).value
    ensures WriteCsv(out).Ok? <==> |inputFile| > 1
    ensures WriteCsv(out).Ok? ==>
      var written := WriteCsv(out).value;
      && |written| == |inputFile| && written[0] == InputHeader + [WhatToWear]
      && forall i :: 1 <= i < |inputFile| ==>
           written[i] == inputFile[i] + [Recommend(cities, inputFile[i][0], ParseInt(inputFile[i][1]).value)]
  {
    var fields := InputHeader + [WhatToWear];
    forall i | 0 <= i < |rows|
      ensures ValidDict(out[i]) && out[i].keys == fields
      ensures DictLine(fields, out[i]) == inputFile[i + 1] + [Recommend(cities, inputFile[i + 1][0], ParseInt(inputFile[i + 1][1]).value)]
    {
      AnnotateTwoColumnLine(cities, inputFile[i + 1], i);
    }
    if out != [] {
      RoundTrip(fields, out);
      var written := WriteCsv(out).value;
      forall i | 1 <= i < |inputFile|
        ensures written[i] == inputFile[i] + [Recommend(cities, inputFile[i][0], ParseInt(inputFile[i][1]).value)]
      {
        assert written[(i - 1) + 1] == DictLine(fields, out[i - 1]);
      }
    }
  }

  /**
   * The loop of process_csv: row['what_to_wear'] is set on each row in turn, in place; the first
   * row whose temperature or location cannot be read stops the loop with its error.
   */
  method AnnotateRows(cities: seq<string>, rows: seq<Dict>) returns (r: Result<seq<Dict>, Error>)
    ensures r == Processed(cities, rows)
  {
    var data := rows;
    var i := 0;
    while i < |data|
      invariant 0 <= i <= |data| == |rows|
      invariant forall j :: i <= j < |data| ==> data[j] == rows[j]
      invariant forall j :: 0 <= j < i ==> Annotate(cities, rows[j], j).Ok? && data[j] == Annotate(cities, rows[j], j).value
    {
      var annotated := Annotate(cities, data[i], i);
      if annotated.Err? {
        ProcessedFailsAt(cities, rows, i);
        return Err(annotated.error);
      }
      data := data[i := annotated.value];
      i := i + 1;
    }
    ProcessedAll(cities, rows, data);
    r := Ok(data);
  }

  /**
   * process_csv: read the rows, set what_to_wear on each, then write them. The output file is
   * written only when every row was processed; otherwise the error is returned.
   */
  method ProcessCsv(cities: seq<string>, inputFile: Table) returns (r: Result<Table, Error>)
    ensures r == Recompute(cities, inputFile)
  {
    var read := ReadDicts(inputFile);
    if read.Err? {
      return Err(read.error);
    }
    var data := AnnotateRows(cities, read.value);
    if data.Err? {
      return Err(data.error);
    }
    r := WriteCsv(data.value);
  }
}
