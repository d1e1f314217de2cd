/**
 * Concrete runs of the model: the cases of test_clothing_recommender.py and the documented
 * add, delete and recompute scenarios, each stated on literal files.
 */
module Scenarios {
  import opened Wrappers
  import opened Text
  import opened Csv
  import opened Recommender
  import Viewer

  /** test_decide_what_to_wear: 14 gives a jumper, the boundary 15 and 16 give a t-shirt. */
  lemma DecisionExamples()
    ensures DecideWhatToWear(14.0) == "jumper"
    ensures DecideWhatToWear(15.0) == "t-shirt"
    ensures DecideWhatToWear(16.0) == "t-shirt"
  {
  }

  /** test_temperature_conversion_and_decision: 52 Fahrenheit is below 15 Celsius, so a jumper. */
  lemma FahrenheitExample()
    ensures FahrenheitToCelsius(52.0) < 15.0
    ensures DecideWhatToWear(FahrenheitToCelsius(52.0)) == "jumper"
  {
  }

  lemma Parse14() ensures ParseInt("14") == Some(14) { ParseDigits("14"); }
  lemma Parse16() ensures ParseInt("16") == Some(16) { ParseDigits("16"); }
  lemma Parse20() ensures ParseInt("20") == Some(20) { ParseDigits("20"); }
  lemma Parse52() ensures ParseInt("52") == Some(52) { ParseDigits("52"); }

  /** test_read_csv: two data lines read as two dicts keyed by the header. */
  lemma ReadCsvExample(file: Table)
    requires TwoColumnFile(file) && |file| == 3 && file[1] == ["Glasgow", "14"] && file[2] == ["Edinburgh", "16"]
    ensures ReadDicts(file) ==
      Ok([Dict(["location", "temperature"], map["location" := "Glasgow", "temperature" := "14"]),
          Dict(["location", "temperature"], map["location" := "Edinburgh", "temperature" := "16"])])
  {
    ReadTwoColumnFile(file);
    var rows := ReadDicts(file).value;
    assert rows[0] == Zip(InputHeader, file[1]) && rows[1] == Zip(InputHeader, file[2]);
    ZipInputHeader(file[1]);
    ZipInputHeader(file[2]);
    SeqOfTwo(rows);
  }

  /** test_write_csv: one row makes two lines, the header and the row. */
  lemma WriteCsvExample()
    ensures var row := Dict(["location", "temperature", "what_to_wear"],
                            map["location" := "Glasgow", "temperature" := "14", "what_to_wear" := "jumper"]);
      WriteCsv([row]) == Ok([["location", "temperature", "what_to_wear"], ["Glasgow", "14", "jumper"]])
  {
    var row := Dict(["location", "temperature", "what_to_wear"],
                    map["location" := "Glasgow", "temperature" := "14", "what_to_wear" := "jumper"]);
    var out := WriteCsv([row]).value;
    assert FitsFields(row.keys, row);
    var line := out[1];
    assert line[0] == "Glasgow" && line[1] == "14" && line[2] == "jumper";
    SameElements(line, ["Glasgow", "14", "jumper"]);
    SameElements(out, [["location", "temperature", "what_to_wear"], ["Glasgow", "14", "jumper"]]);
  }

  lemma SeqOfTwo<T>(s: seq<T>)
    requires |s| == 2
    ensures s == [s[0], s[1]]
  {
  }

  lemma SeqOfThree<T>(s: seq<T>)
    requires |s| == 3
    ensures s == [s[0], s[1], s[2]]
  {
  }

  /** A file with one data line is recomputed to that line followed by its recommendation. */
  lemma RecomputeOneLine(cities: seq<string>, file: Table)
    requires TwoColumnFile(file) && |file| == 2 && ParseInt(file[1][1]).Some?
    ensures Recompute(cities, file) ==
      Ok([InputHeader + [WhatToWear], file[1] + [Recommend(cities, file[1][0], ParseInt(file[1][1]).value)]])
  {
    forall j | 1 <= j < |file|
      ensures ParseInt(file[j][1]).Some?
    {
      assert j == 1;
    }
    RecomputedLine(cities, file, 1);
    SeqOfTwo(Recompute(cities, file).value);
  }

  /** A file with two data lines is recomputed line by line, in order. */
  lemma RecomputeTwoLines(cities: seq<string>, file: Table)
    requires TwoColumnFile(file) && |file| == 3
    requires ParseInt(file[1][1]).Some? && ParseInt(file[2][1]).Some?
    ensures Recompute(cities, file) ==
      Ok([InputHeader + [WhatToWear],
          file[1] + [Recommend(cities, file[1][0], ParseInt(file[1][1]).value)],
          file[2] + [Recommend(cities, file[2][0], ParseInt(file[2][1]).value)]])
  {
    forall j | 1 <= j < |file|
      ensures ParseInt(file[j][1]).Some?
    {
      assert j == 1 || j == 2;
    }
    RecomputedLine(cities, file, 1);
    RecomputedLine(cities, file, 2);
    SeqOfThree(Recompute(cities, file).value);
  }

  /** The header written over a two-column file. */
  lemma OutputHeader()
    ensures InputHeader + [WhatToWear] == ["location", "temperature", "what_to_wear"]
  {
  }

  /** Glasgow at 14 gets a jumper and Edinburgh at 16 a t-shirt when no city uses Fahrenheit. */
  lemma RecomputeScenarioA(file: Table)
    requires TwoColumnFile(file) && |file| == 3 && file[1] == ["Glasgow", "14"] && file[2] == ["Edinburgh", "16"]
    ensures Recompute([], file) ==
      Ok([["location", "temperature", "what_to_wear"], ["Glasgow", "14", "jumper"], ["Edinburgh", "16", "t-shirt"]])
  {
    Parse14();
    Parse16();
    OutputHeader();
    assert Recommend([], "Glasgow", 14) == "jumper";
    assert Recommend([], "Edinburgh", 16) == "t-shirt";
    RecomputeTwoLines([], file);
    assert file[1] + ["jumper"] == ["Glasgow", "14", "jumper"];
    assert file[2] + ["t-shirt"] == ["Edinburgh", "16", "t-shirt"];
  }

  /** Boston at 52 is read in Fahrenheit when Boston is a Fahrenheit city, and gets a jumper. */
  lemma RecomputeScenarioB(cities: seq<string>, file: Table)
    requires cities == ["Boston", "New York"]
    requires TwoColumnFile(file) && |file| == 2 && file[1] == ["Boston", "52"]
    ensures Recompute(cities, file) ==
      Ok([["location", "temperature", "what_to_wear"], ["Boston", "52", "jumper"]])
  {
    Parse52();
    assert UsingFahrenheit(cities, "Boston") by {
      assert cities[0] == "Boston";
    }
    assert Recommend(cities, "Boston", 52) == "jumper";
    OutputHeader();
    RecomputeOneLine(cities, file);
    assert file[1] + ["jumper"] == ["Boston", "52", "jumper"];
  }

  /**
   * The viewer's duplicate check ignores case where the unit classifier does not: "boston" is
   * already listed, yet it is not a Fahrenheit city.
   */
  lemma CaseAsymmetry()
    ensures Viewer.Listed([["location", "temperature"], ["Boston", "52"]], "boston")
    ensures !UsingFahrenheit(["Boston", "New York"], "boston")
  {
    var file := [["location", "temperature"], ["Boston", "52"]];
    StripUnchanged("Boston");
    assert Lower("Boston") == "boston";
    assert Lower("boston") == "boston";
    assert Viewer.NamesCity(file[1], "boston");
  }

  lemma StripGlasgow() ensures Strip(" glasgow ") == "glasgow" { }

  lemma GlasgowListed(input: Table)
    requires input == [["location", "temperature"], ["Glasgow", "14"]]
    ensures Viewer.Listed(input, "glasgow")
  {
    StripUnchanged("Glasgow");
    assert Lower("Glasgow") == "glasgow";
    assert Lower("glasgow") == "glasgow";
    assert Viewer.NamesCity(input[1], "glasgow");
  }

  /** Adding " glasgow " at 10 to a file listing Glasgow is refused and changes nothing. */
  lemma AddScenarioC(cities: seq<string>, input: Table, output: Table)
    requires input == [["location", "temperature"], ["Glasgow", "14"]]
    ensures Viewer.Add(cities, Viewer.Files(input, output), " glasgow ", "10") ==
      Viewer.AddResult(Viewer.Files(input, output), Viewer.RejectedDuplicate)
  {
    StripUnchanged("10");
    ParseDigits("10");
    StripGlasgow();
    GlasgowListed(input);
  }

  /** Deleting the pair held by the first of two data lines keeps the header and the second line. */
  lemma DeleteFirstOfTwo(file: Table, location: string, temperature: string)
    requires |file| == 3 && TwoColumnFile(file)
    requires Viewer.LineHolds(file[1], location, temperature) && !Viewer.LineHolds(file[2], location, temperature)
    ensures Viewer.Rewritten(file, location, temperature) == Viewer.Rewrite([file[0], file[2]], None)
  {
    RemainingFirstOfTwo(file[1..], location, temperature);
    Viewer.RewrittenTwoColumnFile(file, location, temperature);
    assert [file[0]] + [file[2]] == [file[0], file[2]];
  }

  lemma RemainingFirstOfTwo(lines: Table, location: string, temperature: string)
    requires |lines| == 2
    requires Viewer.LineHolds(lines[0], location, temperature) && !Viewer.LineHolds(lines[1], location, temperature)
    ensures Viewer.RemainingLines(lines, location, temperature) == [lines[1]]
  {
    var rest := lines[1..];
    assert rest == [lines[1]] && rest[1..] == [];
    assert Viewer.RemainingLines(rest, location, temperature) == [lines[1]];
  }

  /** Deleting (Glasgow, 14) from a file that also lists Glasgow at 20 removes only the first line. */
  lemma DeleteScenarioD(file: Table)
    requires file == [["location", "temperature"], ["Glasgow", "14"], ["Glasgow", "20"]]
    ensures Viewer.Rewritten(file, "Glasgow", "14") == Viewer.Rewrite([["location", "temperature"], ["Glasgow", "20"]], None)
  {
    assert file[2][1] == "20" != "14";
    DeleteFirstOfTwo(file, "Glasgow", "14");
  }

  /** The recompute after that deletion shows the one remaining Glasgow line, at 20, in a t-shirt. */
  lemma RecomputeAfterScenarioD(file: Table)
    requires TwoColumnFile(file) && |file| == 2 && file[1] == ["Glasgow", "20"]
    ensures Recompute([], file) == Ok([["location", "temperature", "what_to_wear"], ["Glasgow", "20", "t-shirt"]])
  {
    Parse20();
    OutputHeader();
    RecomputeOneLine([], file);
    assert file[1] + ["t-shirt"] == ["Glasgow", "20", "t-shirt"];
  }
}
