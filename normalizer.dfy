/** The data processor: it turns one uploaded CSV or JSON file into a processed artifact,
    a list of records with its source, format, timestamp and record count. */
module Normalizer {
  import opened Wrappers
  import opened Values
  import opened Text
  import opened Coercion

  // ---------------------------------------------------------------------------
  // csv.DictReader's view of one row

  /** One row as csv.DictReader yields it: each header name mapped to its cell, or to None
      when the row ends before that column, and the cells past the end of the header,
      which DictReader stores as a list under the key None. */
  datatype ReaderRow = ReaderRow(named: map<string, Option<string>>, extra: seq<string>)

  /** dict(zip(names, cells)) for equally long sequences: the names are assigned in order,
      so a later duplicate name overwrites an earlier one. */
  function Zip(names: seq<string>, cells: seq<string>): map<string, Option<string>>
    requires |names| == |cells|
  {
    if names == [] then map[]
    else Zip(names[..|names| - 1], cells[..|cells| - 1])[names[|names| - 1] := Some(cells[|cells| - 1])]
  }

  /** Assigns None to every name of `names`. */
  function FillNone(d: map<string, Option<string>>, names: seq<string>): map<string, Option<string>> {
    if names == [] then d else FillNone(d, names[..|names| - 1])[names[|names| - 1] := None]
  }

  /** The dict DictReader builds for a non-blank row under `header`. */
  function ReadRow(header: seq<string>, row: seq<string>): ReaderRow {
    if |header| < |row| then ReaderRow(Zip(header, row[..|header|]), row[|header|..])
    else ReaderRow(FillNone(Zip(header[..|row|], row), header[|row|..]), [])
  }

  /** The position of the last header named `name`: the column whose cell the row's dict keeps. */
  function LastIndexOf(header: seq<string>, name: string): (i: nat)
    requires name in header
    ensures i < |header| && header[i] == name
    ensures forall j :: i < j < |header| ==> header[j] != name
  {
    if header[|header| - 1] == name then |header| - 1 else LastIndexOf(header[..|header| - 1], name)
  }

  lemma {:induction false} ZipLookup(names: seq<string>, cells: seq<string>, name: string)
    requires |names| == |cells|
    ensures name in Zip(names, cells) <==> name in names
    ensures name in names ==> Zip(names, cells)[name] == Some(cells[LastIndexOf(names, name)])
  {
    if names != [] {
      var n := |names| - 1;
      ZipLookup(names[..n], cells[..n], name);
      if names[n] != name {
        assert name in names ==> name in names[..n] by {
          if name in names {
            var k :| 0 <= k < |names| && names[k] == name;
            assert names[..n][k] == name;
          }
        }
        assert names == names[..n] + [names[n]];
      }
    }
  }

  lemma {:induction false} FillNoneLookup(d: map<string, Option<string>>, names: seq<string>, name: string)
    ensures name in FillNone(d, names) <==> name in d || name in names
    ensures name in names ==> FillNone(d, names)[name] == None
    ensures name !in names && name in d ==> FillNone(d, names)[name] == d[name]
  {
    if names != [] {
      var n := |names| - 1;
      FillNoneLookup(d, names[..n], name);
      assert names == names[..n] + [names[n]];
    }
  }

  lemma LastIndexOfPrefix(header: seq<string>, m: nat, name: string)
    requires name in header && LastIndexOf(header, name) < m <= |header|
    ensures name in header[..m] && LastIndexOf(header[..m], name) == LastIndexOf(header, name)
  {
    var i := LastIndexOf(header, name);
    assert header[..m][i] == name;
  }

  /** The cell DictReader gives a header name: the cell under the name's last column, or
      None when the row ends before it. Names outside the header are absent. */
  lemma ReadRowCell(header: seq<string>, row: seq<string>, name: string)
    ensures name in ReadRow(header, row).named <==> name in header
    ensures name in header ==>
      var i := LastIndexOf(header, name);
      ReadRow(header, row).named[name] == if i < |row| then Some(row[i]) else None
    ensures ReadRow(header, row).extra == if |header| < |row| then row[|header|..] else []
  {
    if |header| < |row| {
      ZipLookup(header, row[..|header|], name);
    } else {
      ShortRowCell(header, row, name);
    }
  }

  /** `ReadRowCell` for a row no longer than the header. */
  lemma ShortRowCell(header: seq<string>, row: seq<string>, name: string)
    requires |row| <= |header|
    ensures name in ReadRow(header, row).named <==> name in header
    ensures name in header ==>
      var i := LastIndexOf(header, name);
      ReadRow(header, row).named[name] == if i < |row| then Some(row[i]) else None
  {
    var m := |row|;
    ZipLookup(header[..m], row, name);
    FillNoneLookup(Zip(header[..m], row), header[m..], name);
    if name in header {
      var i := LastIndexOf(header, name);
      if i < m {
        LastIndexOfPrefix(header, m, name);
        assert name !in header[m..];
      } else {
        assert header[m..][i - m] == name;
      }
    } else {
      assert name !in header[..m] && name !in header[m..] by {
        assert forall k :: 0 <= k < m ==> header[..m][k] == header[k];
        assert forall k :: 0 <= k < |header| - m ==> header[m..][k] == header[m + k];
      }
    }
  }

  // ---------------------------------------------------------------------------
  // csv_to_json

  datatype NormError =
    | UnsupportedFormat(extension: string)  // ValueError for an extension other than csv or json
    | MalformedJson                         // json.loads rejects the content
    | RowTooLong                            // TypeError from float()/int() on DictReader's surplus-cell list

  /** The record `csv_to_json` builds from the named cells of a row: a cell that is None
      or empty is left out, every other cell is coerced. */
  function CleanRow(named: map<string, Option<string>>): map<string, Json> {
    map k | k in named && named[k].Some? && named[k].value != "" :: Coerce(named[k].value)
  }

  function RowRecord(header: seq<string>, row: seq<string>): Json {
    JObj(CleanRow(ReadRow(header, row).named))
  }

  /** The rows DictReader yields: blank rows are skipped, the others kept in order. */
  function NonBlank(rows: seq<seq<string>>): (r: seq<seq<string>>)
    ensures |r| <= |rows|
    ensures forall j :: 0 <= j < |r| ==> r[j] != []
  {
    if rows == [] then []
    else NonBlank(rows[..|rows| - 1]) + (if rows[|rows| - 1] == [] then [] else [rows[|rows| - 1]])
  }

  /** `data` holds one record per non-blank row, in file order. */
  ghost predicate IsCsvRecords(header: seq<string>, rows: seq<seq<string>>, data: seq<Json>) {
    && |data| == |NonBlank(rows)|
    && forall j :: 0 <= j < |data| ==> data[j] == RowRecord(header, NonBlank(rows)[j])
  }

  /** `csv_to_json` on the header and rows of a file. It fails when some row has more
      cells than the header. */
  method CsvToJson(header: seq<string>, rows: seq<seq<string>>) returns (r: Result<seq<Json>, NormError>)
    ensures r.Ok? <==> forall j :: 0 <= j < |rows| ==> |rows[j]| <= |header|
    ensures r.Err? ==> r.error == RowTooLong
    ensures r.Ok? ==> IsCsvRecords(header, rows, r.value)
  {
    var data: seq<Json> := [];
    var i := 0;
    while i < |rows|
      invariant 0 <= i <= |rows|
      invariant forall j :: 0 <= j < i ==> |rows[j]| <= |header|
      invariant IsCsvRecords(header, rows[..i], data)
    {
      CsvStep(header, rows, i, data);
      if rows[i] != [] {
        var row := ReadRow(header, rows[i]);
        var cleaned: map<string, Json> := map[];
        var pending := row.named.Keys;
        while pending != {}
          invariant pending <= row.named.Keys
          invariant cleaned == CleanRow(row.named - pending)
          decreases pending
        {
          var key :| key in pending;
          var value := row.named[key];
          CleanRowAdd(row.named, pending, key);
          if value.Some? && value.value != "" {
            cleaned := cleaned[key := Coerce(value.value)];
          }
          pending := pending - {key};
        }
        assert row.named - {} == row.named;
        if row.extra != [] {
          return Err(RowTooLong);
        }
        data := data + [JObj(cleaned)];
      }
      i := i + 1;
    }
    assert rows[..i] == rows;
    return Ok(data);
  }

  /** Taking one more key of the row into account adds its coerced cell, if any. */
  lemma CleanRowAdd(named: map<string, Option<string>>, pending: set<string>, key: string)
    requires key in pending && pending <= named.Keys
    ensures CleanRow(named - (pending - {key})) ==
      if named[key].Some? && named[key].value != "" then CleanRow(named - pending)[key := Coerce(named[key].value)]
      else CleanRow(named - pending)
  {
  }

  /** One more row adds its record to the records of the rows before it, unless it is blank. */
  lemma CsvStep(header: seq<string>, rows: seq<seq<string>>, i: nat, data: seq<Json>)
    requires i < |rows| && IsCsvRecords(header, rows[..i], data)
    ensures rows[i] == [] ==> IsCsvRecords(header, rows[..i + 1], data)
    ensures rows[i] != [] ==> IsCsvRecords(header, rows[..i + 1], data + [RowRecord(header, rows[i])])
  {
    assert rows[..i + 1][..i] == rows[..i];
  }

  /** Every key of a row's record is a header name whose kept cell is present and non-empty,
      every such name is a key, and its value is the coerced cell. */
  lemma CleanRowKeys(header: seq<string>, row: seq<string>, name: string)
    ensures name in RowRecord(header, row).fields <==>
      name in header && LastIndexOf(header, name) < |row| && row[LastIndexOf(header, name)] != ""
    ensures name in RowRecord(header, row).fields ==>
      RowRecord(header, row).fields[name] == Coerce(row[LastIndexOf(header, name)])
  {
    ReadRowCell(header, row, name);
  }

  /** With distinct header names, the record of a row holds exactly the columns whose cell
      is non-empty, each coerced. */
  lemma DistinctHeaderRecord(header: seq<string>, row: seq<string>, i: nat)
    requires forall a, b :: 0 <= a < b < |header| ==> header[a] != header[b]
    requires i < |header|
    ensures header[i] in RowRecord(header, row).fields <==> i < |row| && row[i] != ""
    ensures header[i] in RowRecord(header, row).fields ==> RowRecord(header, row).fields[header[i]] == Coerce(row[i])
  {
    CleanRowKeys(header, row, header[i]);
    var k := LastIndexOf(header, header[i]);
    assert k == i;
  }

  /** A row of empty cells, no longer than the header, yields the empty record {}. */
  lemma EmptyCellsEmptyRecord(header: seq<string>, row: seq<string>)
    requires |row| <= |header| && forall j :: 0 <= j < |row| ==> row[j] == ""
    ensures RowRecord(header, row) == JObj(map[])
  {
    forall name | name in RowRecord(header, row).fields
      ensures false
    {
      CleanRowKeys(header, row, name);
    }
  }

  /** Without blank rows there is exactly one record per row. */
  lemma {:induction false} NoBlankRowsKept(rows: seq<seq<string>>)
    requires forall j :: 0 <= j < |rows| ==> rows[j] != []
    ensures NonBlank(rows) == rows
  {
    if rows != [] {
      NoBlankRowsKept(rows[..|rows| - 1]);
      assert rows == rows[..|rows| - 1] + [rows[|rows| - 1]];
    }
  }

  /** The rows yielded from a + b are those yielded from a followed by those from b:
      the reader keeps the non-blank rows in file order. */
  lemma {:induction false} NonBlankAppend(a: seq<seq<string>>, b: seq<seq<string>>)
    ensures NonBlank(a + b) == NonBlank(a) + NonBlank(b)
    decreases |b|
  {
    if b == [] {
      assert a + b == a;
    } else {
      var n := |b| - 1;
      NonBlankAppend(a, b[..n]);
      assert (a + b)[..|a + b| - 1] == a + b[..n];
      assert (a + b)[|a + b| - 1] == b[n];
    }
  }

  /** Rows that are all blank yield nothing. */
  lemma {:induction false} BlankRowsDropped(rows: seq<seq<string>>)
    requires forall j :: 0 <= j < |rows| ==> rows[j] == []
    ensures NonBlank(rows) == []
  {
    if rows != [] {
      BlankRowsDropped(rows[..|rows| - 1]);
    }
  }

  // ---------------------------------------------------------------------------
  // lambda_handler

  /** What csv.reader yields for a file: its first row, the header, and the rows after it. */
  datatype CsvTable = CsvTable(header: seq<string>, rows: seq<seq<string>>)

  /** The persisted artifact: the source object, its format, when it was processed, the
      record count and the records. */
  datatype Artifact = Artifact(
    sourceBucket: string,
    sourceKey: string,
    sourceFormat: string,
    processedTimestamp: string,
    recordCount: nat,
    data: seq<Json>)

  /** An artifact and the key it is stored under. */
  datatype Processed = Processed(artifact: Artifact, outputKey: string)

  /** `source_key.split('.')[-1].lower()`: never longer than the key, and free of '.'. */
  function Extension(key: string): (e: string)
    ensures |e| <= |key| && '.' !in e
  {
    AfterLastIsLastPiece(key, '.');
    Lower(AfterLast(key, '.'))
  }

  /** `processed-data/<today>/` followed by the source key with every occurrence of
      '.' + extension replaced by ".json". */
  function OutputKey(today: string, key: string, extension: string): string {
    "processed-data/" + today + "/" + ReplaceAll(key, "." + extension, ".json")
  }

  /** The handler for one uploaded object. The date and timestamp are parameters; the CSV
      tokeniser and `json.loads` are the functions `readCsv` and `loadJson`. */
  method HandleUpload(
    bucket: string, key: string, content: string, today: string, timestamp: string,
    readCsv: string -> CsvTable, loadJson: string -> Option<Json>)
    returns (r: Result<Processed, NormError>)
    ensures (Extension(key) != "csv" && Extension(key) != "json") <==> r == Err(UnsupportedFormat(Extension(key)))
    ensures r.Ok? ==>
      && r.value.artifact.sourceBucket == bucket
      && r.value.artifact.sourceKey == key
      && r.value.artifact.sourceFormat == Extension(key)
      && r.value.artifact.processedTimestamp == timestamp
      && r.value.artifact.recordCount == |r.value.artifact.data|
      && r.value.outputKey == OutputKey(today, key, Extension(key))
    ensures Extension(key) == "json" ==>
      match loadJson(content)
      case None => r == Err(MalformedJson)
      case Some(JArr(items)) => r.Ok? && r.value.artifact.data == items
      case Some(v) => r.Ok? && r.value.artifact.data == [v]
    ensures Extension(key) == "csv" ==>
      var t := readCsv(content);
      && (r.Ok? <==> forall j :: 0 <= j < |t.rows| ==> |t.rows[j]| <= |t.header|)
      && (r.Err? ==> r.error == RowTooLong)
      && (r.Ok? ==> IsCsvRecords(t.header, t.rows, r.value.artifact.data))
  {
    var extension := Extension(key);
    var parsed: Json;
    if extension == "csv" {
      var t := readCsv(content);
      var records := CsvToJson(t.header, t.rows);
      if records.Err? {
        return Err(records.error);
      }
      parsed := JArr(records.value);
    } else if extension == "json" {
      var loaded := loadJson(content);
      if loaded.None? {
        return Err(MalformedJson);
      }
      parsed := loaded.value;
    } else {
      return Err(UnsupportedFormat(extension));
    }
    var data := if parsed.JArr? then parsed.items else [parsed];
    var artifact := Artifact(bucket, key, extension, timestamp, |data|, data);
    return Ok(Processed(artifact, OutputKey(today, key, extension)));
  }

  // ---------------------------------------------------------------------------
  // Extension and output key

  /** The extension is the lower-cased text after the last '.'. */
  lemma {:induction false} ExtensionAfterLastDot(stem: string, ext: string)
    requires '.' !in ext
    ensures Extension(stem + "." + ext) == Lower(ext)
  {
    AfterLastSuffix(stem + ".", ext);
    assert AfterLast(stem + ".", '.') == [];
  }

  lemma {:induction false} AfterLastSuffix(s: string, ext: string)
    requires '.' !in ext && s != [] && s[|s| - 1] == '.'
    ensures AfterLast(s + ext, '.') == ext
  {
    if ext != [] {
      var n := |ext| - 1;
      AfterLastSuffix(s, ext[..n]);
      assert (s + ext)[..|s + ext| - 1] == s + ext[..n];
      assert ext == ext[..n] + [ext[n]];
    } else {
      assert s + ext == s;
    }
  }

  /** A key without '.' is its own extension, lower-cased. */
  lemma {:induction false} ExtensionWithoutDot(key: string)
    requires '.' !in key
    ensures Extension(key) == Lower(key)
  {
    AfterLastIsLastPiece(key, '.');
    var t := AfterLast(key, '.');
    assert key[|key| - |t|..] == key;
  }

  /** A key ending in ".csv" keeps its stem (with any inner ".csv" replaced) and ends in ".json". */
  lemma CsvOutputKey(today: string, stem: string)
    ensures OutputKey(today, stem + ".csv", "csv")
      == "processed-data/" + today + "/" + ReplaceAll(stem, ".csv", ".json") + ".json"
  {
    assert "." + "csv" == ".csv";
    assert ".csv"[1..] == "csv";
    ReplaceFinal(stem, ".csv", ".json");
  }

  /** A JSON upload is stored under its own key. */
  lemma JsonOutputKey(today: string, key: string)
    ensures OutputKey(today, key, "json") == "processed-data/" + today + "/" + key
  {
    assert "." + "json" == ".json";
    ReplaceBySelf(key, ".json");
  }

  /** The extension is lower-cased before it is matched, but the replace uses the lower-cased
      extension too: "Data.CSV" is processed as CSV and stored under "Data.CSV" unchanged.
      The key is a parameter fixed by the precondition rather than a literal in the
      contract, so that the verifier does not evaluate `Extension` and `ReplaceAll` on the
      literal, which makes the proof several times more expensive. */
  lemma UpperCaseExtensionKept(today: string, key: string)
    requires key == "Data.CSV"
    ensures Extension(key) == "csv"
    ensures OutputKey(today, key, "csv") == "processed-data/" + today + "/" + key
  {
    ExtensionAfterLastDot("Data", "CSV");
    assert "Data" + "." + "CSV" == key;
    assert Lower("CSV") == "csv";
    NoLowerCsv(key);
    assert "." + "csv" == ".csv";
    ReplaceAbsent(key, ".csv", ".json");
  }

  /** ".csv" occurs nowhere in "Data.CSV" (a parameter for the same reason as above). */
  lemma NoLowerCsv(s: string)
    requires s == "Data.CSV"
    ensures forall i :: !OccursAt(s, ".csv", i)
  {
    forall i
      ensures !OccursAt(s, ".csv", i)
    {
      if 0 <= i < 4 {
        assert s[i..i + 4][0] == s[i] != '.';
      } else if i == 4 {
        assert s[i..i + 4][1] == 'C';
      }
    }
  }

  /** "x.csv" and "x.json" uploaded on one day are stored under one key, so the later
      artifact overwrites the earlier. */
  lemma CsvAndJsonCollide(today: string)
    ensures OutputKey(today, "x.csv", "csv") == OutputKey(today, "x.json", "json")
  {
    CsvOutputKey(today, "x");
    assert "x" + ".csv" == "x.csv";
    assert ReplaceAll("x", ".csv", ".json") == "x";
    JsonOutputKey(today, "x.json");
  }
}
