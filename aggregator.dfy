/** The report generator: it folds the day's processed artifacts into a summary (file and
    record totals, per-format counts, event-type and user-action counts, float amounts,
    sample records) and names the JSON and text reports. */
module Aggregator {
  import opened Wrappers
  import opened Values
  import opened Text
  import opened Counters

  /** The exceptions the folds raise; the handler reports each and re-raises it. */
  datatype AggError =
    | NotAnObject       // file_data.get on a value that is not a dict (AttributeError)
    | BadRecordCount    // total_records += a record_count that is not a number (TypeError)
    | UnhashableFormat  // file_formats[source_format] with a list or dict format (TypeError)
    | UnhashableField   // event_types[...] or user_actions[...] with a truthy list or dict (TypeError)

  /** A Python number: `total_records` stays an int until a float is added to it. */
  datatype Num = IntNum(i: int) | FloatNum(r: real)

  function NumValue(n: Num): real {
    match n
    case IntNum(i) => i as real
    case FloatNum(r) => r
  }

  /** Python's `a + b` on numbers: int + int is an int, anything with a float is a float. */
  function AddNum(a: Num, b: Num): (r: Num)
    ensures NumValue(r) == NumValue(a) + NumValue(b)
    ensures r.IntNum? <==> a.IntNum? && b.IntNum?
  {
    if a.IntNum? && b.IntNum? then IntNum(a.i + b.i) else FloatNum(NumValue(a) + NumValue(b))
  }

  // ---------------------------------------------------------------------------
  // What one listed file contributes

  /** `file_data.get('record_count', 0)` as a number; None for a value `+=` rejects.
      A bool is an int in Python. */
  function RecordCountOf(file: Json): Option<Num>
    requires file.JObj?
  {
    match GetOr(file.fields, "record_count", JInt(0))
    case JInt(n) => Some(IntNum(n))
    case JBool(b) => Some(IntNum(if b then 1 else 0))
    case JFloat(r) => Some(FloatNum(r))
    case _ => None
  }

  /** `file_data.get('source_format', 'unknown')`. */
  function FormatOf(file: Json): Json
    requires file.JObj?
  {
    GetOr(file.fields, "source_format", JStr("unknown"))
  }

  /** What `all_data` gains from a file: the elements of a list `data`, a non-list `data`
      as one element, nothing when `data` is missing. */
  function DataOf(file: Json): seq<Json>
    requires file.JObj?
  {
    match GetOr(file.fields, "data", JArr([]))
    case JArr(items) => items
    case d => [d]
  }

  /** The exception reading a file raises, if any, in the order the loop body meets them. */
  function FileFault(file: Json): Option<AggError> {
    if !file.JObj? then Some(NotAnObject)
    else if RecordCountOf(file).None? then Some(BadRecordCount)
    else if !Hashable(FormatOf(file)) then Some(UnhashableFormat)
    else None
  }

  predicate NoFileFault(files: seq<Json>) {
    forall j :: 0 <= j < |files| ==> FileFault(files[j]).None?
  }

  // Reference definitions over a sequence of files that raise nothing

  /** The sum of the record counts. */
  function RecordSum(files: seq<Json>): real
    requires NoFileFault(files)
  {
    if files == [] then 0.0
    else RecordSum(files[..|files| - 1]) + NumValue(RecordCountOf(files[|files| - 1]).value)
  }

  /** Some record count is a float. */
  predicate AnyFloatCount(files: seq<Json>)
    requires NoFileFault(files)
  {
    exists j :: 0 <= j < |files| && RecordCountOf(files[j]).value.FloatNum?
  }

  /** The format of each file, in order. */
  function Formats(files: seq<Json>): (fs: seq<Json>)
    requires NoFileFault(files)
    ensures |fs| == |files| && AllHashable(fs)
  {
    if files == [] then [] else Formats(files[..|files| - 1]) + [FormatOf(files[|files| - 1])]
  }

  /** The records of all files, file after file. */
  function AllData(files: seq<Json>): seq<Json>
    requires NoFileFault(files)
  {
    if files == [] then [] else AllData(files[..|files| - 1]) + DataOf(files[|files| - 1])
  }

  // The file totals are additive: a listing split in two adds up its two halves.

  lemma NoFileFaultAppend(a: seq<Json>, b: seq<Json>)
    requires NoFileFault(a) && NoFileFault(b)
    ensures NoFileFault(a + b)
  {
    assert forall j :: 0 <= j < |a + b| ==> (a + b)[j] == if j < |a| then a[j] else b[j - |a|];
  }

  /** Dropping the last file keeps a listing free of faults. */
  lemma NoFileFaultInit(b: seq<Json>)
    requires b != [] && NoFileFault(b)
    ensures NoFileFault(b[..|b| - 1])
  {
    assert forall j :: 0 <= j < |b| - 1 ==> b[..|b| - 1][j] == b[j];
  }

  /** The record counts of `a + b` sum to those of `a` plus those of `b`. */
  lemma {:induction false} RecordSumAppend(a: seq<Json>, b: seq<Json>)
    requires NoFileFault(a) && NoFileFault(b)
    ensures NoFileFault(a + b)
    ensures RecordSum(a + b) == RecordSum(a) + RecordSum(b)
  {
    NoFileFaultAppend(a, b);
    if b == [] {
      assert a + b == a;
    } else {
      var n := |b| - 1;
      NoFileFaultInit(b);
      RecordSumAppend(a, b[..n]);
      assert (a + b)[..|a + b| - 1] == a + b[..n] && (a + b)[|a + b| - 1] == b[n];
    }
  }

  /** `a + b` has a float record count iff `a` or `b` has one. */
  lemma AnyFloatCountAppend(a: seq<Json>, b: seq<Json>)
    requires NoFileFault(a) && NoFileFault(b)
    ensures NoFileFault(a + b)
    ensures AnyFloatCount(a + b) <==> AnyFloatCount(a) || AnyFloatCount(b)
  {
    NoFileFaultAppend(a, b);
    if AnyFloatCount(a + b) {
      var j :| 0 <= j < |a + b| && RecordCountOf((a + b)[j]).value.FloatNum?;
      if j < |a| {
        assert (a + b)[j] == a[j];
      } else {
        assert (a + b)[j] == b[j - |a|];
      }
    }
    if AnyFloatCount(a) {
      var j :| 0 <= j < |a| && RecordCountOf(a[j]).value.FloatNum?;
      assert (a + b)[j] == a[j];
    }
    if AnyFloatCount(b) {
      var j :| 0 <= j < |b| && RecordCountOf(b[j]).value.FloatNum?;
      assert (a + b)[|a| + j] == b[j];
    }
  }

  /** The formats of `a + b` are those of `a`, then those of `b`. */
  lemma {:induction false} FormatsAppend(a: seq<Json>, b: seq<Json>)
    requires NoFileFault(a) && NoFileFault(b)
    ensures NoFileFault(a + b)
    ensures Formats(a + b) == Formats(a) + Formats(b)
  {
    NoFileFaultAppend(a, b);
    if b == [] {
      assert a + b == a;
    } else {
      var n := |b| - 1;
      NoFileFaultInit(b);
      FormatsAppend(a, b[..n]);
      assert (a + b)[..|a + b| - 1] == a + b[..n] && (a + b)[|a + b| - 1] == b[n];
    }
  }

  /** The format counter of `a + b` counts each format as often as the counters of `a`
      and of `b` together. */
  lemma FormatCountsAppend(a: seq<Json>, b: seq<Json>, k: Key)
    requires NoFileFault(a) && NoFileFault(b)
    ensures NoFileFault(a + b)
    ensures Get(Tally(Formats(a + b)), k) == Get(Tally(Formats(a)), k) + Get(Tally(Formats(b)), k)
  {
    FormatsAppend(a, b);
    TallyCounts(Formats(a + b));
    TallyCounts(Formats(a));
    TallyCounts(Formats(b));
    OccurrencesAppend(Formats(a), Formats(b), k);
  }

  /** The records of `a + b` are those of `a`, then those of `b`. */
  lemma {:induction false} AllDataAppend(a: seq<Json>, b: seq<Json>)
    requires NoFileFault(a) && NoFileFault(b)
    ensures NoFileFault(a + b)
    ensures AllData(a + b) == AllData(a) + AllData(b)
  {
    NoFileFaultAppend(a, b);
    if b == [] {
      assert a + b == a;
    } else {
      var n := |b| - 1;
      NoFileFaultInit(b);
      AllDataAppend(a, b[..n]);
      assert (a + b)[..|a + b| - 1] == a + b[..n] && (a + b)[|a + b| - 1] == b[n];
    }
  }

  // ---------------------------------------------------------------------------
  // What one record contributes

  /** Reading a record raises when a counted field is truthy but unhashable. */
  predicate RecordFault(record: Json) {
    && record.JObj?
    && ((Truthy(FieldOf(record, "event_type")) && !Hashable(FieldOf(record, "event_type")))
     || (Truthy(FieldOf(record, "user_action")) && !Hashable(FieldOf(record, "user_action"))))
  }

  predicate NoRecordFault(records: seq<Json>) {
    forall j :: 0 <= j < |records| ==> !RecordFault(records[j])
  }

  /** The truthy values of field `name` in the dict records, in order: what a Counter
      over that field counts. */
  function FieldValues(records: seq<Json>, name: string): seq<Json> {
    if records == [] then []
    else
      var r := records[|records| - 1];
      FieldValues(records[..|records| - 1], name) +
        (if r.JObj? && Truthy(FieldOf(r, name)) then [FieldOf(r, name)] else [])
  }

  /** The float-typed `amount` values of the dict records, in order. */
  function FloatAmounts(records: seq<Json>): seq<real> {
    if records == [] then []
    else
      var r := records[|records| - 1];
      FloatAmounts(records[..|records| - 1]) +
        (if r.JObj? && FieldOf(r, "amount").JFloat? then [FieldOf(r, "amount").r] else [])
  }

  lemma {:induction false} FieldValuesHashable(records: seq<Json>)
    requires NoRecordFault(records)
    ensures AllHashable(FieldValues(records, "event_type"))
    ensures AllHashable(FieldValues(records, "user_action"))
  {
    if records != [] {
      FieldValuesHashable(records[..|records| - 1]);
    }
  }

  /** Counting a field is additive: the values of `a + b` are those of `a`, then of `b`. */
  lemma {:induction false} FieldValuesAppend(a: seq<Json>, b: seq<Json>, name: string)
    ensures FieldValues(a + b, name) == FieldValues(a, name) + FieldValues(b, name)
  {
    if b == [] {
      assert a + b == a;
    } else {
      var n := |b| - 1;
      FieldValuesAppend(a, b[..n], name);
      assert (a + b)[..|a + b| - 1] == a + b[..n];
      assert (a + b)[|a + b| - 1] == b[n];
    }
  }

  /** Selecting float amounts is additive in the same way. */
  lemma {:induction false} FloatAmountsAppend(a: seq<Json>, b: seq<Json>)
    ensures FloatAmounts(a + b) == FloatAmounts(a) + FloatAmounts(b)
  {
    if b == [] {
      assert a + b == a;
    } else {
      var n := |b| - 1;
      FloatAmountsAppend(a, b[..n]);
      assert (a + b)[..|a + b| - 1] == a + b[..n];
      assert (a + b)[|a + b| - 1] == b[n];
    }
  }

  /** A record that is not a dict, or whose field is falsy, adds nothing to the count. */
  lemma IgnoredRecord(records: seq<Json>, r: Json, name: string)
    requires !r.JObj? || !Truthy(FieldOf(r, name))
    ensures FieldValues(records + [r], name) == FieldValues(records, name)
  {
    assert (records + [r])[..|records|] == records;
  }

  /** Only a float `amount` is kept: an int, string or missing one adds nothing. */
  lemma NonFloatAmountIgnored(records: seq<Json>, r: Json)
    requires !r.JObj? || !FieldOf(r, "amount").JFloat?
    ensures FloatAmounts(records + [r]) == FloatAmounts(records)
  {
    assert (records + [r])[..|records|] == records;
  }

  // ---------------------------------------------------------------------------
  // The two loops of lambda_handler

  /** The state the loop over listed files builds. */
  datatype FileTotals = FileTotals(
    totalFiles: nat, totalRecords: Num, fileFormats: Counter, allData: seq<Json>)

  /** The loop over the listed files, each already parsed from JSON. It fails at the first
      file that raises; otherwise it has counted every file, summed the record counts,
      counted each format and concatenated the records. */
  method FoldFiles(files: seq<Json>) returns (r: Result<FileTotals, AggError>)
    ensures r.Err? <==> !NoFileFault(files)
    ensures r.Err? ==>
      exists j :: 0 <= j < |files| && FileFault(files[j]) == Some(r.error) && NoFileFault(files[..j])
    ensures r.Ok? ==> FoldedFiles(files, r.value)
  {
    var totalRecords := IntNum(0);
    var totalFiles: nat := 0;
    var allData: seq<Json> := [];
    var fileFormats: Counter := [];
    var i := 0;
    while i < |files|
      invariant 0 <= i <= |files|
      invariant FoldedFiles(files[..i], FileTotals(totalFiles, totalRecords, fileFormats, allData))
    {
      ghost var before := FileTotals(totalFiles, totalRecords, fileFormats, allData);
      var file := files[i];
      if !file.JObj? {
        FaultAt(files, i);
        return Err(NotAnObject);
      }
      totalFiles := totalFiles + 1;
      var count := RecordCountOf(file);
      if count.None? {
        FaultAt(files, i);
        return Err(BadRecordCount);
      }
      totalRecords := AddNum(totalRecords, count.value);
      var sourceFormat := FormatOf(file);
      if !Hashable(sourceFormat) {
        FaultAt(files, i);
        return Err(UnhashableFormat);
      }
      fileFormats := Increment(fileFormats, sourceFormat);
      var data := GetOr(file.fields, "data", JArr([]));
      if data.JArr? {
        allData := allData + data.items;
      } else {
        allData := allData + [data];
      }
      StepFile(files, i, before);
      i := i + 1;
    }
    assert files[..i] == files;
    return Ok(FileTotals(totalFiles, totalRecords, fileFormats, allData));
  }

  /** `t` is what the loop over `files` builds: one per file, the sum of the record counts
      (an int unless some count is a float), the formats counted, the data concatenated. */
  predicate FoldedFiles(files: seq<Json>, t: FileTotals) {
    && NoFileFault(files)
    && t.totalFiles == |files|
    && NumValue(t.totalRecords) == RecordSum(files)
    && (t.totalRecords.IntNum? <==> !AnyFloatCount(files))
    && t.fileFormats == Tally(Formats(files))
    && t.allData == AllData(files)
  }

  /** The format counter counts each file once under its format, so its counts sum to the
      number of files, and its keys are the formats in first-seen order. */
  lemma FoldedFilesCounts(files: seq<Json>, t: FileTotals)
    requires FoldedFiles(files, t)
    ensures Total(t.fileFormats) == t.totalFiles
    ensures forall k :: Get(t.fileFormats, k) == Occurrences(Formats(files), k)
    ensures Keys(t.fileFormats) == FirstSeen(Formats(files))
  {
    TallyCounts(Formats(files));
  }

  /** `total_records` is read from the `record_count` fields, not recomputed: a file that
      claims three records but holds none adds three to the total and nothing to the data. */
  lemma CountNotRecomputed()
    ensures NoFileFault([JObj(map["record_count" := JInt(3)])])
    ensures RecordSum([JObj(map["record_count" := JInt(3)])]) == 3.0
    ensures AllData([JObj(map["record_count" := JInt(3)])]) == []
  {
    var file := JObj(map["record_count" := JInt(3)]);
    assert "source_format" !in file.fields && "data" !in file.fields;
    assert [file][..0] == [];
  }

  /** A fault at `i` after none before is the first fault of `files`. */
  lemma FaultAt(files: seq<Json>, i: nat)
    requires i < |files| && NoFileFault(files[..i]) && FileFault(files[i]).Some?
    ensures !NoFileFault(files)
    ensures exists j :: 0 <= j < |files| && FileFault(files[j]) == FileFault(files[i]) && NoFileFault(files[..j])
  {
  }

  /** One turn of the loop over the files keeps `FoldedFiles`. */
  lemma StepFile(files: seq<Json>, i: nat, t: FileTotals)
    requires i < |files| && FoldedFiles(files[..i], t) && FileFault(files[i]).None?
    ensures FoldedFiles(files[..i + 1],
      FileTotals(t.totalFiles + 1, AddNum(t.totalRecords, RecordCountOf(files[i]).value),
                 Increment(t.fileFormats, FormatOf(files[i])), t.allData + DataOf(files[i])))
  {
    PrefixStep(files, i);
    ReferenceStep(files, i);
    var p, f := files[..i + 1], files[i];
    assert NumValue(AddNum(t.totalRecords, RecordCountOf(f).value)) == RecordSum(p);
    assert Increment(t.fileFormats, FormatOf(f)) == Tally(Formats(p));
  }

  /** The reference definitions on `files[..i + 1]` extend those on `files[..i]`. */
  lemma ReferenceStep(files: seq<Json>, i: nat)
    requires i < |files| && NoFileFault(files[..i + 1])
    requires files[..i + 1][..i] == files[..i] && files[..i + 1][i] == files[i]
    ensures RecordSum(files[..i + 1]) == RecordSum(files[..i]) + NumValue(RecordCountOf(files[i]).value)
    ensures AnyFloatCount(files[..i + 1]) <==> AnyFloatCount(files[..i]) || RecordCountOf(files[i]).value.FloatNum?
    ensures Tally(Formats(files[..i + 1])) == Increment(Tally(Formats(files[..i])), FormatOf(files[i]))
    ensures AllData(files[..i + 1]) == AllData(files[..i]) + DataOf(files[i])
  {
    RecordSumStep(files, i);
    AnyFloatStep(files, i);
    FormatsStep(files, i);
    AllDataStep(files, i);
  }

  lemma RecordSumStep(files: seq<Json>, i: nat)
    requires i < |files| && NoFileFault(files[..i + 1])
    requires files[..i + 1][..i] == files[..i] && files[..i + 1][i] == files[i]
    ensures RecordSum(files[..i + 1]) == RecordSum(files[..i]) + NumValue(RecordCountOf(files[i]).value)
  {
  }

  lemma AnyFloatStep(files: seq<Json>, i: nat)
    requires i < |files| && NoFileFault(files[..i + 1])
    requires files[..i + 1][..i] == files[..i] && files[..i + 1][i] == files[i]
    ensures AnyFloatCount(files[..i + 1]) <==> AnyFloatCount(files[..i]) || RecordCountOf(files[i]).value.FloatNum?
  {
    var p := files[..i + 1];
    if AnyFloatCount(p) && !RecordCountOf(files[i]).value.FloatNum? {
      var j :| 0 <= j < |p| && RecordCountOf(p[j]).value.FloatNum?;
      assert p[j] == files[..i][j];
    }
  }

  lemma FormatsStep(files: seq<Json>, i: nat)
    requires i < |files| && NoFileFault(files[..i + 1])
    requires files[..i + 1][..i] == files[..i] && files[..i + 1][i] == files[i]
    ensures Tally(Formats(files[..i + 1])) == Increment(Tally(Formats(files[..i])), FormatOf(files[i]))
  {
    var p := files[..i + 1];
    assert Formats(p) == Formats(files[..i]) + [FormatOf(files[i])];
    TallyAppend(Formats(files[..i]), FormatOf(files[i]));
  }

  lemma AllDataStep(files: seq<Json>, i: nat)
    requires i < |files| && NoFileFault(files[..i + 1])
    requires files[..i + 1][..i] == files[..i] && files[..i + 1][i] == files[i]
    ensures AllData(files[..i + 1]) == AllData(files[..i]) + DataOf(files[i])
  {
  }

  lemma PrefixStep(files: seq<Json>, i: nat)
    requires i < |files| && NoFileFault(files[..i]) && FileFault(files[i]).None?
    ensures NoFileFault(files[..i + 1])
    ensures files[..i + 1][..i] == files[..i] && files[..i + 1][i] == files[i]
  {
    var p := files[..i + 1];
    assert p[..i] == files[..i];
    assert forall j :: 0 <= j < i ==> p[j] == files[..i][j];
  }

  /** The counters and amounts the loop over all records builds. */
  datatype RecordStats = RecordStats(eventTypes: Counter, userActions: Counter, amounts: seq<real>)

  /** The loop over all records. It fails at the first truthy unhashable `event_type` or
      `user_action`; otherwise it has counted every truthy `event_type` and `user_action`
      of a dict record and kept every float `amount`, in order. */
  method FoldRecords(records: seq<Json>) returns (r: Result<RecordStats, AggError>)
    ensures r.Err? <==> !NoRecordFault(records)
    ensures r.Err? ==> r.error == UnhashableField
    ensures r.Ok? ==> FoldedRecords(records, r.value)
  {
    var eventTypes: Counter := [];
    var userActions: Counter := [];
    var amounts: seq<real> := [];
    var i := 0;
    while i < |records|
      invariant 0 <= i <= |records|
      invariant FoldedRecords(records[..i], RecordStats(eventTypes, userActions, amounts))
    {
      ghost var before := RecordStats(eventTypes, userActions, amounts);
      var record := records[i];
      if record.JObj? {
        var eventType := FieldOf(record, "event_type");
        if Truthy(eventType) {
          if !Hashable(eventType) {
            return Err(UnhashableField);
          }
          eventTypes := Increment(eventTypes, eventType);
        }
        var userAction := FieldOf(record, "user_action");
        if Truthy(userAction) {
          if !Hashable(userAction) {
            return Err(UnhashableField);
          }
          userActions := Increment(userActions, userAction);
        }
        var amount := FieldOf(record, "amount");
        if amount.JFloat? {
          amounts := amounts + [amount.r];
        }
      }
      StepRecord(records, i, before);
      i := i + 1;
    }
    assert records[..i] == records;
    return Ok(RecordStats(eventTypes, userActions, amounts));
  }

  /** `st` is what the loop over `records` builds: the counts of the truthy `event_type`
      and `user_action` values, and the float amounts. */
  predicate FoldedRecords(records: seq<Json>, st: RecordStats) {
    && NoRecordFault(records)
    && FieldValuesOk(records)
    && st.eventTypes == Tally(FieldValues(records, "event_type"))
    && st.userActions == Tally(FieldValues(records, "user_action"))
    && st.amounts == FloatAmounts(records)
  }

  /** `event_types[v]` and `user_actions[v]` are the number of dict records whose field is
      truthy and equal to `v` as a dict key; the keys are in first-seen order. */
  lemma FoldedRecordsCounts(records: seq<Json>, st: RecordStats)
    requires FoldedRecords(records, st)
    ensures forall k :: Get(st.eventTypes, k) == Occurrences(FieldValues(records, "event_type"), k)
    ensures forall k :: Get(st.userActions, k) == Occurrences(FieldValues(records, "user_action"), k)
    ensures Keys(st.eventTypes) == FirstSeen(FieldValues(records, "event_type"))
    ensures Keys(st.userActions) == FirstSeen(FieldValues(records, "user_action"))
  {
    TallyCounts(FieldValues(records, "event_type"));
    TallyCounts(FieldValues(records, "user_action"));
  }

  predicate FieldValuesOk(records: seq<Json>) {
    AllHashable(FieldValues(records, "event_type")) && AllHashable(FieldValues(records, "user_action"))
  }

  /** `counter[record.get(name)] += 1` when the value is truthy. */
  function CountField(c: Counter, record: Json, name: string): Counter
    requires record.JObj? && Valid(c) && (Truthy(FieldOf(record, name)) ==> Hashable(FieldOf(record, name)))
  {
    if Truthy(FieldOf(record, name)) then Increment(c, FieldOf(record, name)) else c
  }

  /** One turn of the loop over the records keeps `FoldedRecords`. */
  lemma StepRecord(records: seq<Json>, i: nat, st: RecordStats)
    requires i < |records| && FoldedRecords(records[..i], st) && !RecordFault(records[i])
    ensures var rec := records[i];
      FoldedRecords(records[..i + 1],
        if !rec.JObj? then st
        else RecordStats(CountField(st.eventTypes, rec, "event_type"),
                         CountField(st.userActions, rec, "user_action"),
                         st.amounts + (if FieldOf(rec, "amount").JFloat? then [FieldOf(rec, "amount").r] else [])))
  {
    RecordPrefixStep(records, i);
    FieldStep(records, i, "event_type");
    FieldStep(records, i, "user_action");
  }

  lemma RecordPrefixStep(records: seq<Json>, i: nat)
    requires i < |records| && NoRecordFault(records[..i]) && !RecordFault(records[i])
    ensures NoRecordFault(records[..i + 1])
    ensures var rec := records[i];
      FloatAmounts(records[..i + 1]) == FloatAmounts(records[..i]) +
        (if rec.JObj? && FieldOf(rec, "amount").JFloat? then [FieldOf(rec, "amount").r] else [])
  {
    var p := records[..i + 1];
    assert p[..i] == records[..i] && p[i] == records[i];
    assert forall j :: 0 <= j < i ==> p[j] == records[..i][j];
  }

  /** Counting field `name` of one more record is one more `c[v] += 1`, if any. */
  lemma FieldStep(records: seq<Json>, i: nat, name: string)
    requires i < |records| && AllHashable(FieldValues(records[..i], name))
    requires records[i].JObj? && Truthy(FieldOf(records[i], name)) ==> Hashable(FieldOf(records[i], name))
    ensures AllHashable(FieldValues(records[..i + 1], name))
    ensures Tally(FieldValues(records[..i + 1], name)) ==
      if records[i].JObj? then CountField(Tally(FieldValues(records[..i], name)), records[i], name)
      else Tally(FieldValues(records[..i], name))
  {
    var p := records[..i + 1];
    assert p[..i] == records[..i];
    var rec := records[i];
    if rec.JObj? && Truthy(FieldOf(rec, name)) {
      TallyAppend(FieldValues(records[..i], name), FieldOf(rec, name));
    } else {
      assert FieldValues(p, name) == FieldValues(records[..i], name);
    }
  }

  // ---------------------------------------------------------------------------
  // Summary, report keys and the file-formats line

  /** The `summary` dict; `total_amount` is represented by the amounts it sums. */
  datatype Summary = Summary(
    reportDate: string,
    generatedAt: string,
    totalFiles: nat,
    totalRecords: Num,
    fileFormats: Counter,
    eventTypes: Counter,
    userActions: Counter,
    amounts: seq<real>,
    sampleRecords: seq<Json>)

  datatype Outcome =
    | NoData                 // the listing had no Contents: "No data to report"
    | Report(summary: Summary, jsonKey: string, textKey: string, fileFormatsLine: string)
    | Failed(error: AggError)

  /** The prefix under which the processed files of a day are listed. */
  function ListingPrefix(date: string): string {
    "processed-data/" + date + "/"
  }

  function JsonReportKey(date: string): string {
    "daily_reports/" + date + "-summary.json"
  }

  function TextReportKey(date: string): string {
    "daily_reports/" + date + "-summary.txt"
  }

  /** The two reports of a day have distinct keys, and different days never share a key. */
  lemma ReportKeysDistinct(date: string, other: string)
    ensures JsonReportKey(date) != TextReportKey(date)
    ensures JsonReportKey(date) == JsonReportKey(other) ==> date == other
    ensures TextReportKey(date) == TextReportKey(other) ==> date == other
  {
    var j, t := JsonReportKey(date), TextReportKey(date);
    assert j[|j| - 4] == 'j' && t[|t| - 4] == '.';
    if JsonReportKey(date) == JsonReportKey(other) {
      assert |date| == |other|;
      assert date == j[14..14 + |date|];
    }
    if TextReportKey(date) == TextReportKey(other) {
      assert |date| == |other|;
      assert date == t[14..14 + |date|];
    }
  }

  /** `str(v)` for a hashable value; float formatting is the parameter `floatRepr`. */
  function PyStr(v: Json, floatRepr: real -> string): string
    requires Hashable(v)
  {
    match v
    case JNull => "None"
    case JBool(b) => if b then "True" else "False"
    case JInt(i) => IntToString(i)
    case JFloat(r) => floatRepr(r)
    case JStr(s) => s
  }

  /** `f'{fmt}={count}'` for one entry. */
  function FormatPair(e: Entry, floatRepr: real -> string): string
    requires Hashable(e.key)
  {
    PyStr(e.key, floatRepr) + "=" + IntToString(e.count)
  }

  /** `', '.join(f'{fmt}={count}' for fmt, count in file_formats.items())`. */
  function FormatsLine(c: Counter, floatRepr: real -> string): (line: string)
    requires KeysHashable(c)
    ensures line == [] <==> c == []
  {
    if c == [] then []
    else if |c| == 1 then FormatPair(c[0], floatRepr)
    else FormatPair(c[0], floatRepr) + ", " + FormatsLine(c[1..], floatRepr)
  }

  /** The pairs appear in the counter's order: one more key adds its pair at the end. */
  lemma {:induction false} FormatsLineAppend(c: Counter, e: Entry, floatRepr: real -> string)
    requires KeysHashable(c) && Hashable(e.key) && c != []
    ensures FormatsLine(c + [e], floatRepr) == FormatsLine(c, floatRepr) + ", " + FormatPair(e, floatRepr)
  {
    var c' := c + [e];
    if |c| == 1 {
      assert c'[1..] == [e];
    } else {
      assert c'[1..] == c[1..] + [e];
      FormatsLineAppend(c[1..], e, floatRepr);
    }
  }

  function Min(a: nat, b: nat): nat {
    if a < b then a else b
  }

  /** `s` is the summary of `files`: the file totals, the record counts over all their
      records, and the first five records as the sample. */
  predicate Summarizes(s: Summary, files: seq<Json>, reportDate: string, generatedAt: string) {
    && s.reportDate == reportDate
    && s.generatedAt == generatedAt
    && NoFileFault(files)
    && var records := AllData(files);
    && FoldedFiles(files, FileTotals(s.totalFiles, s.totalRecords, s.fileFormats, records))
    && FoldedRecords(records, RecordStats(s.eventTypes, s.userActions, s.amounts))
    && s.sampleRecords == records[..Min(5, |records|)]
  }

  /** The summary of a listing with no files is all zeros: no files, an int total of 0,
      empty counters, no amounts to add up and no sample records. */
  lemma EmptyListingSummary(s: Summary, reportDate: string, generatedAt: string)
    requires Summarizes(s, [], reportDate, generatedAt)
    ensures s.totalFiles == 0 && s.totalRecords == IntNum(0)
    ensures s.fileFormats == [] && s.eventTypes == [] && s.userActions == []
    ensures s.amounts == [] && s.sampleRecords == []
  {
    assert AllData([]) == [];
  }

  /** lambda_handler of the report generator. `listing` is the parsed content of each
      object the day's listing returns, or None when the listing has no Contents; the
      dates are parameters. */
  method GenerateReport(listing: Option<seq<Json>>, reportDate: string, generatedAt: string,
                        floatRepr: real -> string)
    returns (out: Outcome)
    ensures listing.None? <==> out == NoData
    ensures listing.Some? && !NoFileFault(listing.value) ==> out.Failed?
    ensures listing.Some? && !NoFileFault(listing.value) ==> exists j ::
      0 <= j < |listing.value| && FileFault(listing.value[j]) == Some(out.error) && NoFileFault(listing.value[..j])
    ensures listing.Some? && NoFileFault(listing.value) ==>
      (out.Failed? <==> !NoRecordFault(AllData(listing.value)))
    ensures listing.Some? && NoFileFault(listing.value) && out.Failed? ==> out.error == UnhashableField
    ensures listing.Some? && NoFileFault(listing.value) && NoRecordFault(AllData(listing.value)) ==> out.Report?
    ensures out.Report? ==>
      && listing.Some?
      && Summarizes(out.summary, listing.value, reportDate, generatedAt)
      && out.jsonKey == JsonReportKey(reportDate)
      && out.textKey == TextReportKey(reportDate)
      && KeysHashable(out.summary.fileFormats)
      && out.fileFormatsLine == FormatsLine(out.summary.fileFormats, floatRepr)
  {
    if listing.None? {
      return NoData;
    }
    var totals := FoldFiles(listing.value);
    if totals.Err? {
      return Failed(totals.error);
    }
    var t := totals.value;
    var stats := FoldRecords(t.allData);
    if stats.Err? {
      return Failed(stats.error);
    }
    var st := stats.value;
    var summary := Summary(reportDate, generatedAt, t.totalFiles, t.totalRecords, t.fileFormats,
                           st.eventTypes, st.userActions, st.amounts, t.allData[..Min(5, |t.allData|)]);
    ValidKeysHashable(t.fileFormats);
    return Report(summary, JsonReportKey(reportDate), TextReportKey(reportDate),
                  FormatsLine(t.fileFormats, floatRepr));
  }
}
