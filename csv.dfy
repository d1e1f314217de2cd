/**
 * The csv layer the recommender uses, above quoting: a file is a list of lines, each a list of
 * fields. csv.DictReader turns lines into dicts keyed by the header line; csv.DictWriter turns
 * dicts back into lines in the order of a list of field names.
 */
module Csv {
  import opened Wrappers

  /** A csv file once quoting and escaping are undone: one list of fields per line. */
  type Table = seq<seq<string>>

  /** The exceptions the core raises, one per failure site. */
  datatype Error =
    | RaggedRow(line: nat)                         // a data line whose field count differs from the header's
    | MissingField(row: nat, field: string)        // KeyError from row[field]
    | InvalidTemperature(row: nat, text: string)   // ValueError from int(row['temperature'])
    | ExtraFields(row: nat)                        // ValueError from DictWriter: a key not among the fieldnames
    | EmptyDataset                                 // IndexError from data[0] when there are no rows
    | MissingHeader                                // TypeError from None + list when the input file is empty

  /** A Python dict from field names to strings; keys lists the keys in insertion order. */
  datatype Dict = Dict(keys: seq<string>, entries: map<string, string>)

  ghost predicate Distinct(names: seq<string>) {
    forall i, j :: 0 <= i < j < |names| ==> names[i] != names[j]
  }

  /** A well-formed dict: each key listed once, and the listed keys are exactly the mapped ones. */
  ghost predicate ValidDict(d: Dict) {
    Distinct(d.keys) && forall k :: k in d.entries <==> k in d.keys
  }

  /** d.get(key, default) */
  function Get(d: Dict, key: string, default: string): string {
    if key in d.entries then d.entries[key] else default
  }

  /** d[key] = value: an existing key keeps its position and takes the new value; a new key goes last. */
  function Assign(d: Dict, key: string, value: string): (r: Dict)
    ensures r.entries == d.entries[key := value]
    ensures r.keys == if key in d.keys then d.keys else d.keys + [key]
    ensures ValidDict(d) ==> ValidDict(r)
  {
    if key in d.keys then Dict(d.keys, d.entries[key := value]) else Dict(d.keys + [key], d.entries[key := value])
  }

  /** The keys of dict(zip(names, ...)): each name once, at its first position. */
  function KeyOrder(names: seq<string>): (r: seq<string>)
    ensures Distinct(r)
    ensures forall k :: k in r <==> k in names
    decreases |names|
  {
    if names == [] then []
    else
      var prefix := KeyOrder(names[..|names| - 1]);
      var last := names[|names| - 1];
      if last in prefix then prefix else prefix + [last]
  }

  /** The position of the first occurrence of k in names. */
  function FirstIndex(names: seq<string>, k: string): (i: nat)
    requires k in names
    ensures i < |names| && names[i] == k && k !in names[..i]
    decreases |names|
  {
    var n := |names| - 1;
    if k in names[..n] then
      var i := FirstIndex(names[..n], k);
      assert names[..n][..i] == names[..i];
      i
    else
      assert names == names[..n] + [names[n]];
      n
  }

  /** dict(zip(names, values)): built left to right, so a repeated name keeps its first position and its last value. */
  function Zip(names: seq<string>, values: seq<string>): (d: Dict)
    requires |names| == |values|
    ensures ValidDict(d)
    ensures d.keys == KeyOrder(names)
    decreases |names|
  {
    if names == [] then Dict([], map[])
    else
      Assign(Zip(names[..|names| - 1], values[..|values| - 1]), names[|names| - 1], values[|values| - 1])
  }

  /** dict(zip([a, b], [x, y])) for two different names. */
  lemma ZipPair(a: string, b: string, x: string, y: string)
    requires a != b
    ensures Zip([a, b], [x, y]) == Dict([a, b], map[a := x, b := y])
  {
    assert [a, b][..1] == [a] && [x, y][..1] == [x];
    assert [a][..0] == [] && [x][..0] == [];
  }

  /** Lines that DictReader turns into dicts under header; line i of lines is line i + 1 of the file. */
  function ReadRows(header: seq<string>, lines: Table): (r: Result<seq<Dict>, Error>)
    ensures r.Ok? ==> |r.value| <= |lines|
    ensures r.Ok? ==> forall i :: 0 <= i < |r.value| ==> ValidDict(r.value[i]) && r.value[i].keys == KeyOrder(header)
    ensures r.Ok? <==> forall i :: 0 <= i < |lines| ==> lines[i] == [] || |lines[i]| == |header|
    ensures r.Err? ==> r.error.RaggedRow? && 1 <= r.error.line <= |lines|
    decreases |lines|
  {
    if lines == [] then Ok([])
    else
      var rest := ReadRows(header, lines[..|lines| - 1]);
      var line := lines[|lines| - 1];
      if rest.Err? then rest
      else if line == [] then rest
      else if |line| != |header| then Err(RaggedRow(|lines|))
      else Ok(rest.value + [Zip(header, line)])
  }

  /**
   * csv.DictReader over a whole file: the first line holds the field names, blank lines are
   * skipped, and every other line becomes a dict. An empty file has no rows. Reading fails
   * exactly when some later line is neither blank nor as long as the header.
   */
  function ReadDicts(table: Table): (r: Result<seq<Dict>, Error>)
    ensures r.Ok? && table != [] ==> forall i :: 0 <= i < |r.value| ==> ValidDict(r.value[i]) && r.value[i].keys == KeyOrder(table[0])
    ensures table == [] ==> r == Ok([])
    ensures table != [] ==> (r.Ok? <==> forall i :: 1 <= i < |table| ==> table[i] == [] || |table[i]| == |table[0]|)
    ensures r.Err? ==> r.error.RaggedRow? && 1 <= r.error.line < |table|
  {
    if table == [] then Ok([])
    else
      assert forall i :: 1 <= i < |table| ==> table[1..][i - 1] == table[i];
      ReadRows(table[0], table[1..])
  }

  /** The lines DictReader turns into rows: every line but the blank ones, in order. */
  function NonBlank(lines: Table): (r: Table)
    ensures |r| <= |lines|
    ensures forall i :: 0 <= i < |r| ==> r[i] != [] && r[i] in lines
    decreases |lines|
  {
    if lines == [] then []
    else
      var n := |lines| - 1;
      var front := NonBlank(lines[..n]);
      assert forall i :: 0 <= i < |front| ==> front[i] in lines[..n] ==> front[i] in lines;
      front + (if lines[n] == [] then [] else [lines[n]])
  }

  /** DictWriter refuses a dict with a key that is not one of its fieldnames. */
  predicate FitsFields(fieldnames: seq<string>, d: Dict) {
    forall k | k in d.entries :: k in fieldnames
  }

  /** The line DictWriter writes for d: its value for each field name in turn, "" where d has none. */
  function DictLine(fieldnames: seq<string>, d: Dict): (line: seq<string>)
    ensures |line| == |fieldnames|
    ensures forall j :: 0 <= j < |fieldnames| ==> line[j] == Get(d, fieldnames[j], "")
  {
    seq(|fieldnames|, j requires 0 <= j < |fieldnames| => Get(d, fieldnames[j], ""))
  }

  /** writer.writerows(rows): one line per row in order, or the error of the first row with a foreign key. */
  function WriteRows(fieldnames: seq<string>, rows: seq<Dict>): (r: Result<Table, Error>)
    ensures r.Ok? <==> forall i :: 0 <= i < |rows| ==> FitsFields(fieldnames, rows[i])
    ensures r.Ok? ==> |r.value| == |rows| && forall i :: 0 <= i < |rows| ==> r.value[i] == DictLine(fieldnames, rows[i])
    ensures r.Err? ==> r.error.ExtraFields? && r.error.row < |rows| && !FitsFields(fieldnames, rows[r.error.row])
    ensures r.Err? ==> forall i :: 0 <= i < r.error.row ==> FitsFields(fieldnames, rows[i])
    decreases |rows|
  {
    if rows == [] then Ok([])
    else
      var rest := WriteRows(fieldnames, rows[..|rows| - 1]);
      var last := rows[|rows| - 1];
      if rest.Err? then rest
      else if !FitsFields(fieldnames, last) then Err(ExtraFields(|rows| - 1))
      else Ok(rest.value + [DictLine(fieldnames, last)])
  }

  /** DictWriter(f, fieldnames): writeheader() then writerows(rows). */
  function WriteDicts(fieldnames: seq<string>, rows: seq<Dict>): (r: Result<Table, Error>)
    ensures r.Ok? <==> forall i :: 0 <= i < |rows| ==> FitsFields(fieldnames, rows[i])
    ensures r.Ok? ==> |r.value| == |rows| + 1 && r.value[0] == fieldnames
    ensures r.Ok? ==> forall i :: 0 <= i < |rows| ==> r.value[i + 1] == DictLine(fieldnames, rows[i])
  {
    match WriteRows(fieldnames, rows)
    case Err(e) => Err(e)
    case Ok(lines) => Ok([fieldnames] + lines)
  }

  lemma {:induction false} KeyOrderDistinct(names: seq<string>)
    requires Distinct(names)
    ensures KeyOrder(names) == names
    decreases |names|
  {
    if names != [] {
      var prefix := names[..|names| - 1];
      KeyOrderDistinct(prefix);
      assert names[|names| - 1] !in prefix;
      assert prefix + [names[|names| - 1]] == names;
    }
  }

  /** The key order lists the names in the order in which they first occur. */
  lemma {:induction false} KeyOrderFirst(names: seq<string>)
    ensures forall i, j :: 0 <= i < j < |KeyOrder(names)| ==>
      FirstIndex(names, KeyOrder(names)[i]) < FirstIndex(names, KeyOrder(names)[j])
    decreases |names|
  {
    if names != [] {
      var n := |names| - 1;
      var front := names[..n];
      KeyOrderFirst(front);
      var prefix := KeyOrder(front);
      var r := KeyOrder(names);
      forall i, j | 0 <= i < j < |r|
        ensures FirstIndex(names, r[i]) < FirstIndex(names, r[j])
      {
        assert r[i] in prefix;
        if j < |prefix| {
          assert r[j] == prefix[j] && r[i] == prefix[i];
        } else {
          assert r[j] == names[n] && names[n] !in front;
        }
      }
    }
  }

  /** Each name is mapped to the value at its last occurrence: a later duplicate overwrites. */
  lemma ZipLastValue(names: seq<string>, values: seq<string>)
    requires |names| == |values|
    ensures forall i :: 0 <= i < |names| && names[i] !in names[i + 1..] ==>
      names[i] in Zip(names, values).entries && Zip(names, values).entries[names[i]] == values[i]
  {
    ZipEntriesAgree(names, values);
    forall i | 0 <= i < |names| && names[i] !in names[i + 1..]
      ensures names[i] in Zip(names, values).entries && Zip(names, values).entries[names[i]] == values[i]
    {
      ZipEntriesLast(names, values, i);
    }
  }

  /** The entries of dict(zip(names, values)), assigned left to right. */
  function ZipEntries(names: seq<string>, values: seq<string>): map<string, string>
    requires |names| == |values|
    decreases |names|
  {
    if names == [] then map[]
    else ZipEntries(names[..|names| - 1], values[..|values| - 1])[names[|names| - 1] := values[|values| - 1]]
  }

  lemma {:induction false} ZipEntriesAgree(names: seq<string>, values: seq<string>)
    requires |names| == |values|
    ensures Zip(names, values).entries == ZipEntries(names, values)
    decreases |names|
  {
    if names != [] {
      ZipEntriesAgree(names[..|names| - 1], values[..|values| - 1]);
    }
  }

  lemma {:induction false} ZipEntriesLast(names: seq<string>, values: seq<string>, i: nat)
    requires |names| == |values| && i < |names| && names[i] !in names[i + 1..]
    ensures names[i] in ZipEntries(names, values) && ZipEntries(names, values)[names[i]] == values[i]
    decreases |names|
  {
    var n := |names| - 1;
    if i < n {
      LaterSlice(names, i);
      ZipEntriesLast(names[..n], values[..n], i);
    }
  }

  /** A name absent from the rest of names differs from the last name and is absent from the rest of the front. */
  lemma LaterSlice(names: seq<string>, i: nat)
    requires i + 1 < |names| && names[i] !in names[i + 1..]
    ensures names[i] != names[|names| - 1]
    ensures names[..|names| - 1][i] == names[i] && names[i] !in names[..|names| - 1][i + 1..]
  {
    var n := |names| - 1;
    var later := names[i + 1..];
    assert names[n] == later[n - i - 1];
    assert names[..n][i + 1..] == later[..n - i - 1];
  }

  /** With distinct names, dict(zip(names, values)) maps the i-th name to the i-th value. */
  lemma {:induction false} ZipDistinct(names: seq<string>, values: seq<string>)
    requires |names| == |values| && Distinct(names)
    ensures Zip(names, values).keys == names
    ensures forall i :: 0 <= i < |names| ==> Zip(names, values).entries[names[i]] == values[i]
    decreases |names|
  {
    KeyOrderDistinct(names);
    if names != [] {
      var n := |names| - 1;
      var front, vfront := names[..n], values[..n];
      assert Distinct(front) by {
        forall i, j | 0 <= i < j < |front| ensures front[i] != front[j] {
          assert front[i] == names[i] && front[j] == names[j];
        }
      }
      ZipDistinct(front, vfront);
      var prev := Zip(front, vfront);
      var z := Zip(names, values);
      assert z.entries == prev.entries[names[n] := values[n]];
      forall i | 0 <= i < |names|
        ensures z.entries[names[i]] == values[i]
      {
        if i < n {
          assert names[i] == front[i] && values[i] == vfront[i];
          assert names[i] != names[n];
        }
      }
    }
  }

  lemma ZipDictLineAt(fieldnames: seq<string>, d: Dict, k: string)
    requires ValidDict(d) && d.keys == fieldnames
    requires k in d.entries
    ensures Zip(fieldnames, DictLine(fieldnames, d)).entries[k] == d.entries[k]
  {
    var line := DictLine(fieldnames, d);
    ZipDistinct(fieldnames, line);
    assert k in d.keys;
    var i :| 0 <= i < |fieldnames| && fieldnames[i] == k;
    assert line[i] == Get(d, fieldnames[i], "");
  }

  /** The dict read back from a written line has the keys of the dict that was written. */
  lemma ZipDictLineKeys(fieldnames: seq<string>, d: Dict)
    requires ValidDict(d) && d.keys == fieldnames
    ensures Zip(fieldnames, DictLine(fieldnames, d)).entries.Keys == d.entries.Keys
  {
    var z := Zip(fieldnames, DictLine(fieldnames, d));
    forall k
      ensures k in z.entries <==> k in d.entries
    {
      assert k in z.entries <==> k in z.keys;
      assert k in d.entries <==> k in d.keys;
    }
  }

  /** Reading back the line DictWriter wrote for a dict, under the same field names, gives that dict. */
  lemma ZipDictLine(fieldnames: seq<string>, d: Dict)
    requires ValidDict(d) && d.keys == fieldnames
    ensures Zip(fieldnames, DictLine(fieldnames, d)) == d
  {
    var line := DictLine(fieldnames, d);
    var z := Zip(fieldnames, line);
    ZipDictLineKeys(fieldnames, d);
    ZipDistinct(fieldnames, line);
    forall k | k in d.entries
      ensures z.entries[k] == d.entries[k]
    {
      ZipDictLineAt(fieldnames, d, k);
    }
    assert z.entries == d.entries;
    assert z.keys == d.keys;
  }

  lemma SplitLast<T>(s: seq<T>)
    requires s != []
    ensures s[..|s| - 1] + [s[|s| - 1]] == s
  {
  }

  lemma ReadRowsLast(header: seq<string>, lines: Table, rows: seq<Dict>)
    requires lines != [] && ReadRows(header, lines[..|lines| - 1]) == Ok(rows)
    requires lines[|lines| - 1] != [] && |lines[|lines| - 1]| == |header|
    ensures ReadRows(header, lines) == Ok(rows + [Zip(header, lines[|lines| - 1])])
  {
  }

  lemma {:induction false} ReadWrittenRows(fieldnames: seq<string>, rows: seq<Dict>, lines: Table)
    requires fieldnames != []
    requires forall i :: 0 <= i < |rows| ==> ValidDict(rows[i]) && rows[i].keys == fieldnames
    requires |lines| == |rows| && forall i :: 0 <= i < |rows| ==> lines[i] == DictLine(fieldnames, rows[i])
    ensures ReadRows(fieldnames, lines) == Ok(rows)
    decreases |rows|
  {
    if rows != [] {
      var n := |rows| - 1;
      var front := rows[..n];
      ReadWrittenRows(fieldnames, front, lines[..n]);
      ZipDictLine(fieldnames, rows[n]);
      ReadRowsLast(fieldnames, lines, front);
      SplitLast(rows);
    }
  }

  /**
   * Writing dicts that share one non-empty list of field names, then reading the file back,
   * gives the same dicts in the same order.
   */
  lemma RoundTrip(fieldnames: seq<string>, rows: seq<Dict>)
    requires fieldnames != []
    requires forall i :: 0 <= i < |rows| ==> ValidDict(rows[i]) && rows[i].keys == fieldnames
    ensures WriteDicts(fieldnames, rows).Ok?
    ensures ReadDicts(WriteDicts(fieldnames, rows).value) == Ok(rows)
  {
    forall i | 0 <= i < |rows|
      ensures FitsFields(fieldnames, rows[i])
    {
    }
    var table := WriteDicts(fieldnames, rows).value;
    ReadWrittenRows(fieldnames, rows, table[1..]);
  }

  /** A file without blank or ragged lines gives one dict per line, in order. */
  lemma {:induction false} ReadRowsEveryLine(header: seq<string>, lines: Table)
    requires forall i :: 0 <= i < |lines| ==> lines[i] != [] && |lines[i]| == |header|
    ensures ReadRows(header, lines).Ok?
    ensures |ReadRows(header, lines).value| == |lines|
    ensures forall i :: 0 <= i < |lines| ==> ReadRows(header, lines).value[i] == Zip(header, lines[i])
    decreases |lines|
  {
    if lines != [] {
      var n := |lines| - 1;
      var front := lines[..n];
      assert forall i :: 0 <= i < n ==> front[i] == lines[i];
      ReadRowsEveryLine(header, front);
      var rows := ReadRows(header, front).value;
      ReadRowsLast(header, lines, rows);
      var all := rows + [Zip(header, lines[n])];
      forall i | 0 <= i < |lines|
        ensures all[i] == Zip(header, lines[i])
      {
        if i < n {
          assert all[i] == rows[i];
        }
      }
    }
  }

  /** DictReader gives one dict per non-blank line, in order, each zipped with the header. */
  lemma ReadRowsNonBlank(header: seq<string>, lines: Table)
    ensures ReadRows(header, lines).Ok? ==>
      && |ReadRows(header, lines).value| == |NonBlank(lines)|
      && forall i :: 0 <= i < |NonBlank(lines)| ==>
           |NonBlank(lines)[i]| == |header| && ReadRows(header, lines).value[i] == Zip(header, NonBlank(lines)[i])
  {
    if ReadRows(header, lines).Ok? {
      ReadRowsCount(header, lines);
      forall i | 0 <= i < |NonBlank(lines)|
        ensures |NonBlank(lines)[i]| == |header| && ReadRows(header, lines).value[i] == Zip(header, NonBlank(lines)[i])
      {
        ReadRowsAt(header, lines, i);
      }
    }
  }

  lemma {:induction false} ReadRowsCount(header: seq<string>, lines: Table)
    ensures ReadRows(header, lines).Ok? ==> |ReadRows(header, lines).value| == |NonBlank(lines)|
    decreases |lines|
  {
    if lines != [] {
      ReadRowsCount(header, lines[..|lines| - 1]);
    }
  }

  lemma {:induction false} ReadRowsAt(header: seq<string>, lines: Table, i: nat)
    requires ReadRows(header, lines).Ok? && i < |NonBlank(lines)|
    ensures |NonBlank(lines)[i]| == |header|
    ensures i < |ReadRows(header, lines).value| && ReadRows(header, lines).value[i] == Zip(header, NonBlank(lines)[i])
    decreases |lines|
  {
    ReadRowsCount(header, lines);
    var n := |lines| - 1;
    var front := lines[..n];
    ReadRowsCount(header, front);
    var rows := ReadRows(header, front).value;
    var nb := NonBlank(front);
    if i < |nb| {
      ReadRowsAt(header, front, i);
      assert NonBlank(lines)[i] == nb[i];
      assert ReadRows(header, lines).value[i] == rows[i];
    } else {
      assert lines[n] != [] && NonBlank(lines)[i] == lines[n];
      assert ReadRows(header, lines).value == rows + [Zip(header, lines[n])];
    }
  }

  /** The rows of a whole file are its non-blank data lines zipped with the header line. */
  lemma ReadDictsNonBlank(table: Table)
    requires table != []
    ensures ReadDicts(table).Ok? ==>
      && |ReadDicts(table).value| == |NonBlank(table[1..])|
      && forall i :: 0 <= i < |NonBlank(table[1..])| ==>
           |NonBlank(table[1..])[i]| == |table[0]| && ReadDicts(table).value[i] == Zip(table[0], NonBlank(table[1..])[i])
  {
    ReadRowsNonBlank(table[0], table[1..]);
  }
}
