/**
 * taps-aff.py, the stand-alone script that came before the ClothingRecommender class: it reads
 * the input file with DictReader, labels every row from its temperature alone (there is no
 * Fahrenheit conversion and the location is never read), and writes the rows under the input
 * header followed by what_to_wear.
 */
module TapsAffScript {
  import opened Wrappers
  import opened Text
  import opened Csv
  import Recommender

  /** decide_what_to_wear on an int: the same rule as the class's, below 15 a jumper. */
  function DecideWhatToWear(temperature: int): (wear: string)
    ensures wear == Recommender.Jumper <==> temperature < 15
    ensures wear == Recommender.TShirt <==> temperature >= 15
    ensures wear == Recommender.DecideWhatToWear(temperature as real)
  {
    if temperature < 15 then "jumper" else "t-shirt"
  }

  /**
   * One pass of the loop body: int(row['temperature']), then row['what_to_wear'] = label. It
   * fails with a KeyError or ValueError naming that row; otherwise the row gains a label.
   */
  function LabelRow(row: Dict, index: nat): (r: Result<Dict, Error>)
    ensures r.Err? ==> (r.error.MissingField? || r.error.InvalidTemperature?) && r.error.row == index
    ensures r.Ok? ==> r.value.entries.Keys == row.entries.Keys + {Recommender.WhatToWear}
  {
    if "temperature" !in row.entries then Err(MissingField(index, "temperature"))
    else
      var text := row.entries["temperature"];
      match ParseInt(text)
      case None => Err(InvalidTemperature(index, text))
      case Some(t) => Ok(Assign(row, Recommender.WhatToWear, DecideWhatToWear(t)))
  }

  /** The list data after the loop, one dict per row, or the exception that stops it. */
  function Labelled(rows: seq<Dict>): (r: Result<seq<Dict>, Error>)
    ensures r.Ok? ==> |r.value| == |rows|
    ensures r.Err? ==> (r.error.MissingField? || r.error.InvalidTemperature?) && r.error.row < |rows|
  {
    var step := (row: Dict, i: nat) => LabelRow(row, i);
    MapUntilErrorSpec(step, rows);
    MapUntilError(step, rows)
  }

  /**
   * What the script leaves in the output file. fieldnames is reader.fieldnames + ['what_to_wear'],
   * taken after the loop: on an empty file reader.fieldnames is None and the concatenation fails.
   * A written file starts with those fieldnames and holds one more line per row read.
   */
  function Output(inputFile: Table): (r: Result<Table, Error>)
    ensures inputFile == [] ==> r == Err(MissingHeader)
    ensures r.Ok? ==> r.value != [] && r.value[0] == inputFile[0] + [Recommender.WhatToWear]
    ensures r.Ok? ==> ReadDicts(inputFile).Ok? && |r.value| == |ReadDicts(inputFile).value| + 1
  {
    match ReadDicts(inputFile)
    case Err(e) => Err(e)
    case Ok(rows) =>
      match Labelled(rows)
      case Err(e) => Err(e)
      case Ok(data) =>
        if inputFile == [] then Err(MissingHeader)
        else WriteDicts(inputFile[0] + [Recommender.WhatToWear], data)
  }

  /**
   * A row is labelled exactly when its temperature is present and an int; the label is the
   * decision on that int, and every other field keeps its value.
   */
  lemma LabelRowSpec(row: Dict, index: nat)
    ensures LabelRow(row, index).Ok? <==> "temperature" in row.entries && ParseInt(row.entries["temperature"]).Some?
    ensures LabelRow(row, index).Err? ==>
      var e := LabelRow(row, index).error;
      (e.MissingField? || e.InvalidTemperature?) && e.row == index
    ensures LabelRow(row, index).Ok? ==>
      var out := LabelRow(row, index).value;
      && out.entries == row.entries[Recommender.WhatToWear := DecideWhatToWear(ParseInt(row.entries["temperature"]).value)]
      && out.keys == (if Recommender.WhatToWear in row.keys then row.keys else row.keys + [Recommender.WhatToWear])
  {
  }

  /**
   * The loop runs through exactly when every row can be labelled, and then keeps the number and
   * the order of the rows; otherwise it stops with the error of the first row it cannot label.
   */
  lemma LabelledSpec(rows: seq<Dict>)
    ensures Labelled(rows).Ok? <==> forall i :: 0 <= i < |rows| ==> LabelRow(rows[i], i).Ok?
    ensures Labelled(rows).Ok? ==>
      var out := Labelled(rows).value;
      |out| == |rows| && forall i :: 0 <= i < |rows| ==> out[i] == LabelRow(rows[i], i).value
    ensures Labelled(rows).Err? ==>
      var e := Labelled(rows).error;
      && (e.MissingField? || e.InvalidTemperature?) && e.row < |rows| && LabelRow(rows[e.row], e.row) == Err(e)
      && forall i :: 0 <= i < e.row ==> LabelRow(rows[i], i).Ok?
  {
    var step := (row: Dict, i: nat) => LabelRow(row, i);
    MapUntilErrorSpec(step, rows);
    var k := FirstFailure(step, rows);
    if k < |rows| {
      LabelRowSpec(rows[k], k);
    }
  }

  /**
   * On a row that has a location, the script labels as the class does with no Fahrenheit
   * cities, so on such rows the two loops give the same result.
   */
  lemma LabelledAgreesWithEngine(rows: seq<Dict>)
    requires forall i :: 0 <= i < |rows| ==> "location" in rows[i].entries
    ensures Labelled(rows) == Recommender.Processed([], rows)
  {
    var step := (row: Dict, i: nat) => LabelRow(row, i);
    var other := (row: Dict, i: nat) => Recommender.Annotate([], row, i);
    forall i | 0 <= i < |rows|
      ensures step(rows[i], i) == other(rows[i], i)
    {
    }
    MapUntilErrorAgree(step, other, rows);
  }

  /** The label depends on the temperature alone: a location the class would convert is ignored. */
  lemma LabelIgnoresLocation(cities: seq<string>, row: Dict, index: nat)
    requires LabelRow(row, index).Ok? && "location" in row.entries
    requires Recommender.UsingFahrenheit(cities, row.entries["location"])
    requires var t := ParseInt(row.entries["temperature"]).value; 15 <= t < 59
    ensures LabelRow(row, index).value.entries[Recommender.WhatToWear] == Recommender.TShirt
    ensures Recommender.Annotate(cities, row, index).value.entries[Recommender.WhatToWear] == Recommender.Jumper
  {
    LabelRowSpec(row, index);
    Recommender.AnnotateSpec(cities, row, index);
  }

  /**
   * The script writes a file exactly when the input has a header line and every row's
   * temperature is an int; then the header is the input header followed by what_to_wear, and
   * one line follows per row, in order.
   */
  lemma OutputSpec(inputFile: Table)
    ensures Output(inputFile).Ok? <==>
      && inputFile != [] && ReadDicts(inputFile).Ok?
      && forall i :: 0 <= i < |ReadDicts(inputFile).value| ==> LabelRow(ReadDicts(inputFile).value[i], i).Ok?
    ensures Output(inputFile).Ok? ==>
      var out := Output(inputFile).value;
      var data := Labelled(ReadDicts(inputFile).value).value;
      && out[0] == inputFile[0] + [Recommender.WhatToWear]
      && |out| == |ReadDicts(inputFile).value| + 1
      && forall i :: 0 <= i < |data| ==> out[i + 1] == DictLine(inputFile[0] + [Recommender.WhatToWear], data[i])
  {
    if inputFile != [] && ReadDicts(inputFile).Ok? {
      var rows := ReadDicts(inputFile).value;
      var fieldnames := inputFile[0] + [Recommender.WhatToWear];
      LabelledSpec(rows);
      if Labelled(rows).Ok? {
        var data := Labelled(rows).value;
        forall i | 0 <= i < |data|
          ensures FitsFields(fieldnames, data[i])
        {
          LabelRowSpec(rows[i], i);
          assert forall k :: k in rows[i].entries ==> k in KeyOrder(inputFile[0]);
        }
      }
    }
  }

  /** A temperature that is not an int stops the script before the output file is opened. */
  lemma OutputRejectsInvalidTemperature(inputFile: Table, i: nat)
    requires ReadDicts(inputFile).Ok? && i < |ReadDicts(inputFile).value|
    requires var row := ReadDicts(inputFile).value[i];
      "temperature" in row.entries && ParseInt(row.entries["temperature"]).None?
    ensures Output(inputFile).Err?
  {
    LabelledSpec(ReadDicts(inputFile).value);
  }

  /**
   * On an input file with the header location,temperature and at least one data line the script
   * writes the same file as process_csv with no Fahrenheit cities.
   */
  lemma OutputAgreesOnTwoColumnFile(inputFile: Table)
    requires Recommender.TwoColumnFile(inputFile) && |inputFile| > 1
    ensures Output(inputFile) == Recommender.Recompute([], inputFile)
  {
    Recommender.ReadTwoColumnFile(inputFile);
    var rows := ReadDicts(inputFile).value;
    forall i | 0 <= i < |rows|
      ensures "location" in rows[i].entries
    {
      Recommender.ZipInputHeader(inputFile[i + 1]);
    }
    LabelledAgreesWithEngine(rows);
    if Labelled(rows).Ok? {
      EngineHeader(inputFile);
    }
  }

  /** On such a file the engine writes under the input header followed by what_to_wear. */
  lemma EngineHeader(inputFile: Table)
    requires Recommender.TwoColumnFile(inputFile) && |inputFile| > 1
    requires ReadDicts(inputFile).Ok? && Recommender.Processed([], ReadDicts(inputFile).value).Ok?
    ensures var data := Recommender.Processed([], ReadDicts(inputFile).value).value;
      data != [] && data[0].keys == inputFile[0] + [Recommender.WhatToWear]
  {
    Recommender.ReadTwoColumnFile(inputFile);
    var rows := ReadDicts(inputFile).value;
    Recommender.ZipInputHeader(inputFile[1]);
    Recommender.ProcessedSpec([], rows);
    AnnotatedHeader(rows[0]);
  }

  lemma AnnotatedHeader(row: Dict)
    requires row.keys == Recommender.InputHeader && Recommender.Annotate([], row, 0).Ok?
    ensures Recommender.Annotate([], row, 0).value.keys == Recommender.InputHeader + [Recommender.WhatToWear]
  {
  }

  lemma LabelledStops(rows: seq<Dict>, i: nat)
    requires i < |rows| && LabelRow(rows[i], i).Err?
    requires forall j :: 0 <= j < i ==> LabelRow(rows[j], j).Ok?
    ensures Labelled(rows) == Err(LabelRow(rows[i], i).error)
  {
    LabelledSpec(rows);
    LabelRowSpec(rows[i], i);
  }

  lemma LabelledAll(rows: seq<Dict>, data: seq<Dict>)
    requires |data| == |rows|
    requires forall j :: 0 <= j < |rows| ==> LabelRow(rows[j], j).Ok? && data[j] == LabelRow(rows[j], j).value
    ensures Labelled(rows) == Ok(data)
  {
    LabelledSpec(rows);
    Recommender.SameElements(data, Labelled(rows).value);
  }

  lemma LabelledExtend(rows: seq<Dict>, data: seq<Dict>, i: nat)
    requires i < |rows| && |data| == i && LabelRow(rows[i], i).Ok?
    requires forall j :: 0 <= j < i ==> LabelRow(rows[j], j).Ok? && data[j] == LabelRow(rows[j], j).value
    ensures var next := data + [LabelRow(rows[i], i).value];
      forall j :: 0 <= j < i + 1 ==> LabelRow(rows[j], j).Ok? && next[j] == LabelRow(rows[j], j).value
  {
    var next := data + [LabelRow(rows[i], i).value];
    forall j | 0 <= j < i + 1
      ensures LabelRow(rows[j], j).Ok? && next[j] == LabelRow(rows[j], j).value
    {
      if j < i {
        assert next[j] == data[j];
      }
    }
  }

  /**
   * The script's loop: each row is labelled in place and appended to data; the first row that
   * cannot be labelled stops the script.
   */
  method LabelRows(rows: seq<Dict>) returns (r: Result<seq<Dict>, Error>)
    ensures r == Labelled(rows)
  {
    var data: seq<Dict> := [];
    var i := 0;
    while i < |rows|
      invariant 0 <= i <= |rows| && |data| == i
      invariant forall j :: 0 <= j < i ==> LabelRow(rows[j], j).Ok? && data[j] == LabelRow(rows[j], j).value
    {
      var row := LabelRow(rows[i], i);
      if row.Err? {
        LabelledStops(rows, i);
        return Err(row.error);
      }
      LabelledExtend(rows, data, i);
      data := data + [row.value];
      i := i + 1;
    }
    LabelledAll(rows, data);
    r := Ok(data);
  }

  /** The whole script: read, label, build the fieldnames, write. */
  method RunScript(inputFile: Table) returns (r: Result<Table, Error>)
    ensures r == Output(inputFile)
  {
    var read := ReadDicts(inputFile);
    if read.Err? {
      return Err(read.error);
    }
    var data := LabelRows(read.value);
    if data.Err? {
      return Err(data.error);
    }
    if inputFile == [] {
      return Err(MissingHeader);
    }
    var fieldnames := inputFile[0] + [Recommender.WhatToWear];
    r := WriteDicts(fieldnames, data.value);
  }
}
