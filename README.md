# Event pipeline: normalizer and daily report, modelled in Dafny

The pipeline has two handlers.

- The data processor (`lambda/data_processor/lambda_function.py`) receives one uploaded CSV or JSON object. It turns the object into a list of records. A CSV cell that holds a number becomes that number. The handler stores the records as an artifact under `processed-data/<today>/`, together with the source bucket and key, the format, a timestamp and the record count.
- The report generator (`lambda/report_generator/lambda_function.py`) lists one day's artifacts. Over the files it builds the file count, the sum of the record counts, a per-format counter and the concatenation of all records. Over those records it builds counters of `event_type` and `user_action`, selects the float `amount` values and takes a five-record sample. It names the JSON and text reports and renders the `fmt=count` line of the text report.

The model follows the source's own form:

- `csv_to_json` and both loops of the report generator are `method`s with `while` loops. Each is proved against reference functions (`CleanRow`, `RecordSum`, `Formats`, `AllData`, `FieldValues`, `FloatAmounts`, `Tally`).
- The key and text building are functions.

Modules:

- `Wrappers`: `Option` and `Result`.
- `Values`: JSON values, Python truthiness, and dict-key identity. As dict keys, `True`, `1` and `1.0` are the same key.
- `Text`: `lower`, the last piece of `split('.')`, `replace`, and `str` of an int.
- `Coercion`: `int()` and `float()` on a cell, and the order in which `csv_to_json` tries them.
- `Normalizer`: how `csv.DictReader` turns a header and a row into a dict, `csv_to_json`, and the data processor's handler.
- `Counters`: `collections.Counter` as a sequence of entries in insertion order.
- `Aggregator`: the report generator's folds, summary, report keys and formats line.
- `Pipeline`: the report generator reading back the artifacts that the data processor stored.

The model includes several behaviours of the code that are easy to miss:

- The report generator's loops raise, and the handler re-raises, in these cases:
  - a listed object that is not a dict;
  - a `record_count` that is not a number;
  - an unhashable format;
  - a truthy unhashable `event_type` or `user_action`.

  So the aggregation does have fatal paths, which the model follows (`AggError`).
- `csv.DictReader` skips rows with no cells at all. There is one record per non-blank row (`NonBlank`).
- A row with more cells than the header stores the surplus cells as a list. The code then tests `'.' in` that list and calls `float()` or `int()` on it, and either call raises `TypeError`, which `except ValueError` does not catch. The model returns `Err(RowTooLong)`.
- When header names repeat, the later column wins.
- The extension is lower-cased before `replace`. So `Data.CSV` is processed as CSV and stored under `.../Data.CSV` unchanged (`UpperCaseExtensionKept`).
- `x.csv` and `x.json` uploaded on the same day map to the same output key (`CsvAndJsonCollide`).
- `"1e5"` stays a string, because `float()` is tried only when the cell contains a `.` (`ExponentExample`).
- A digit run longer than 4300 digits stays a string: CPython's `int()` refuses to convert it and raises `ValueError` (`AllDigitsIsInt`).

## Model

| member | source | states |
|---|---|---|
| Values.Truthy | lambda/report_generator/lambda_function.py:64-72 | Python truthiness of a JSON value, as `if event_type:` and `if user_action:` test it: None, False, 0, 0.0 and empty strings, lists and dicts are false; used by RecordFault, FieldValues, CountField and FoldRecords |
| Values.KeyOf | lambda/report_generator/lambda_function.py:51 | which hashable values are the same Counter key (also at lines 68 and 72): None, numbers by value with True as 1 and False as 0, strings by content; its use is stated by IncrementCounts and TallyCounts |
| Values.Hashable | lambda/report_generator/lambda_function.py:51 | the values that can be a dict key (also at lines 68 and 72): everything but lists and dicts, which raise TypeError; used by FileFault and RecordFault |
| Values.GetOr | lambda/report_generator/lambda_function.py:48-53 | `dict.get(name, default)`: the field's value when the name is a key, the default otherwise, as lines 48, 50 and 53 read record_count, source_format and data |
| Values.FieldOf | lambda/report_generator/lambda_function.py:66-74 | `record.get(name)`: the field's value, None when absent, as lines 66, 70 and 74 read event_type, user_action and amount |
| Coercion.IsSpace | lambda/data_processor/lambda_function.py:22-23 | the characters int() and float() strip around a number: ASCII \t to \r and space, and the non-ASCII Unicode spaces CPython maps to a space; U+001C to U+001F are not among them |
| Coercion.Strip | lambda/data_processor/lambda_function.py:22-23 | the whitespace int() and float() ignore on either side of the text; stated by StripPadded, StripPlain and StripKeepsDots |
| Coercion.Unsign | lambda/data_processor/lambda_function.py:22-23 | the optional leading '+' or '-': whether it is '-', and the text after it |
| Coercion.IsDigitPart | lambda/data_processor/lambda_function.py:22-23 | a digit run as int() accepts it: ASCII digits, starting and ending with a digit, each '_' between two digits |
| Coercion.DigitsValue | lambda/data_processor/lambda_function.py:22-23 | the number a digit run spells in base 10, underscores ignored; DigitsOfNat shows str() of n spells n |
| Coercion.ParseSignedDigits | lambda/data_processor/lambda_function.py:22-23 | an optional sign and a digit run, with nothing around them, read as the signed int they spell |
| Coercion.ParseMantissa | lambda/data_processor/lambda_function.py:22-23 | a float literal's digits around an optional '.', at least one digit in all: the number with the point removed and the count of fraction digits |
| Coercion.ParseUnsignedDecimal | lambda/data_processor/lambda_function.py:22-23 | an unsigned float literal, a mantissa with an optional e/E exponent, read as its exact value; stated by DecimalCell and UnsignedDecimalHasOneDot |
| Coercion.Coerce | lambda/data_processor/lambda_function.py:21-24 | a cell becomes a float only if it holds '.', an int only if it holds none, and otherwise stays exactly its text |
| Coercion.StripKeepsDots | lambda/data_processor/lambda_function.py:22-23 | strip() removes whitespace only, so the text keeps every '.' it had |
| Coercion.ParseInt | lambda/data_processor/lambda_function.py:22-23 | int(value) in base 10, None where it raises ValueError (including a run of more than 4300 digits); text it accepts never holds '.' |
| Coercion.ParseDecimal | lambda/data_processor/lambda_function.py:22-23 | float(value) on text with '.', None where it raises ValueError; what it accepts is stated by DecimalHasOneDot and DecimalCell |
| Coercion.TwoDotsStayText | lambda/data_processor/lambda_function.py:21-24 | a cell with two or more '.' fails float() and is kept as the original string |
| Coercion.DecimalHasOneDot | lambda/data_processor/lambda_function.py:22 | any text that float() accepts in the model has at most one '.' |
| Coercion.AllDigitsIsInt | lambda/data_processor/lambda_function.py:22-24 | a run of at most 4300 ASCII digits is parsed by int() as the value it spells, leading zeros ignored, and is stored as that int; a longer run exceeds int()'s digit limit and stays the original string |
| Coercion.FloatCell | lambda/data_processor/lambda_function.py:22-23 | text with a '.' that, once stripped and past its optional sign, parses as a float literal of value x becomes the float x, or -x after a '-', not the text |
| Coercion.DecimalCell | lambda/data_processor/lambda_function.py:22 | digits '.' digits becomes the float equal to the digits over 10 to the number of fractional digits |
| Coercion.SignedLiteralCell | lambda/data_processor/lambda_function.py:22-23 | whitespace, an optional '+' or '-', a float literal with a '.' and whitespace become the literal's value, negated after '-' |
| Coercion.SignedDecimalCell | lambda/data_processor/lambda_function.py:22-23 | a padded, optionally signed digits '.' digits cell becomes the digits over 10 to the number of fractional digits, negated after '-' |
| Coercion.IntCellRoundTrip | lambda/data_processor/lambda_function.py:22-24 | the decimal digits of an int n (with '-' when negative) read back by int() give n, and the cell is stored as the int n, whenever they number at most 4300; beyond that the cell stays text |
| Coercion.DigitsOfNat | lambda/data_processor/lambda_function.py:22-23 | the digits of a natural number are a non-empty run of ASCII digits that spells that number |
| Coercion.NegativeCell | lambda/data_processor/lambda_function.py:22-24 | '-' followed by the digits of m > 0 is read by int() as -m within 4300 digits and fails beyond, and holds no '.' |
| Coercion.IntExamples | lambda/data_processor/lambda_function.py:22 | "42" becomes 42 and "007" becomes 7 |
| Coercion.FloatExample | lambda/data_processor/lambda_function.py:22 | "3.5" becomes the float 3.5 |
| Coercion.PaddedNegativeExample | lambda/data_processor/lambda_function.py:22 | " -3.5" becomes the float -3.5: float() strips the space and applies the sign |
| Coercion.WordExample | lambda/data_processor/lambda_function.py:23-24 | "abc" fails int() and stays a string |
| Coercion.ExponentExample | lambda/data_processor/lambda_function.py:22-24 | "1e5" has no '.', fails int(), and stays a string |
| Coercion.TwoDotsExample | lambda/data_processor/lambda_function.py:22-24 | "3.14.15" stays a string |
| Normalizer.ReadRow | lambda/data_processor/lambda_function.py:13-16 | the dict csv.DictReader makes of one row under the header; its keys and cells are stated by ReadRowCell |
| Normalizer.Zip | lambda/data_processor/lambda_function.py:13-16 | dict(zip(names, cells)) for equal lengths: names assigned in order, so a later duplicate wins; stated by ZipLookup |
| Normalizer.ZipLookup | lambda/data_processor/lambda_function.py:13-16 | a name is a key of the zipped dict iff it is one of the names, and its cell is the one under its last occurrence |
| Normalizer.FillNone | lambda/data_processor/lambda_function.py:13-16 | DictReader's restval: each header name without a cell gets None; stated by FillNoneLookup |
| Normalizer.FillNoneLookup | lambda/data_processor/lambda_function.py:13-16 | after filling, the keys are the old keys and the names; the names map to None and the other keys keep their cells |
| Normalizer.LastIndexOf | lambda/data_processor/lambda_function.py:13-16 | the column of the last header with a given name: it holds that name and no later column does |
| Normalizer.ReadRowCell | lambda/data_processor/lambda_function.py:13-18 | a name is a key of the row's dict iff it is a header name; its cell is the one under its last column, or None when the row ends first; the cells past the header are the surplus |
| Normalizer.ShortRowCell | lambda/data_processor/lambda_function.py:13-16 | for a row no longer than the header, a name is a key iff it is a header name, mapped to the cell under its last column or None past the row's end |
| Normalizer.NonBlank | lambda/data_processor/lambda_function.py:16 | the rows DictReader yields: no more than it is given, and none of them blank |
| Normalizer.CleanRow | lambda/data_processor/lambda_function.py:17-24 | cleaned_row: a cell that is None or empty is left out, every other cell is coerced; its keys and values are stated by CleanRowKeys |
| Normalizer.IsCsvRecords | lambda/data_processor/lambda_function.py:14-26 | what csv_to_json returns: one record per row the reader yields, in order, each the cleaned dict of that row; CsvToJson ensures it |
| Normalizer.RowRecord | lambda/data_processor/lambda_function.py:17-25 | the record appended for one row: the cleaned dict of DictReader's dict for it |
| Normalizer.CsvToJson | lambda/data_processor/lambda_function.py:11-26 | succeeds iff no row is longer than the header, and then yields one record per non-blank row, in order, each equal to the cleaned row; otherwise fails with RowTooLong |
| Normalizer.CleanRowKeys | lambda/data_processor/lambda_function.py:18-24 | a name is a key of a record iff it is a header whose kept cell is present and non-empty; its value is that cell coerced |
| Normalizer.DistinctHeaderRecord | lambda/data_processor/lambda_function.py:18-24 | with distinct header names, column i is in the record iff its cell exists and is non-empty, and its value is the coerced cell |
| Normalizer.EmptyCellsEmptyRecord | lambda/data_processor/lambda_function.py:16-25 | a row of empty cells yields the empty record {} |
| Normalizer.NoBlankRowsKept | lambda/data_processor/lambda_function.py:16-25 | without blank rows, there is exactly one record per row |
| Normalizer.NonBlankAppend | lambda/data_processor/lambda_function.py:16 | the rows yielded from a + b are those yielded from a followed by those from b, so every non-blank row is kept, in file order |
| Normalizer.BlankRowsDropped | lambda/data_processor/lambda_function.py:16 | rows that are all blank yield no row |
| Normalizer.HandleUpload | lambda/data_processor/lambda_function.py:34-68 | an extension other than csv or json fails with UnsupportedFormat; a JSON list passes through unchanged, any other JSON value is wrapped as a one-element list, unparsable JSON fails; CSV content yields csv_to_json's records or its failure; an artifact carries the source bucket and key, the format, the timestamp, record_count = len(data), and the output key |
| Normalizer.Extension | lambda/data_processor/lambda_function.py:36 | the extension is never longer than the key and holds no '.' |
| Text.LowerChar | lambda/data_processor/lambda_function.py:36 | lower() on one character: A to Z become a to z, other characters are kept |
| Text.Lower | lambda/data_processor/lambda_function.py:36 | lower() keeps the length and lower-cases each character on its own |
| Normalizer.ExtensionAfterLastDot | lambda/data_processor/lambda_function.py:36 | the extension of stem + "." + ext (ext without '.') is ext lower-cased |
| Normalizer.ExtensionWithoutDot | lambda/data_processor/lambda_function.py:36 | a key without '.' is its own extension, lower-cased |
| Text.AfterLast | lambda/data_processor/lambda_function.py:36 | `split('.')[-1]`: the text after the last '.', or the whole key without one; stated by AfterLastIsLastPiece |
| Text.AfterLastIsLastPiece | lambda/data_processor/lambda_function.py:36 | the last piece of split is a '.'-free suffix that is the whole key or follows a '.' |
| Normalizer.OutputKey | lambda/data_processor/lambda_function.py:67-68 | processed-data/today/ followed by the key with '.' + extension replaced by ".json"; stated for each case by CsvOutputKey, JsonOutputKey, UpperCaseExtensionKept and StoredUnderListing |
| Normalizer.CsvOutputKey | lambda/data_processor/lambda_function.py:67-68 | "stem.csv" is stored under processed-data/today/ followed by the stem (inner ".csv" replaced) and ".json" |
| Normalizer.JsonOutputKey | lambda/data_processor/lambda_function.py:67-68 | a JSON upload is stored under processed-data/today/ followed by its own key |
| Normalizer.UpperCaseExtensionKept | lambda/data_processor/lambda_function.py:36-68 | "Data.CSV" is handled as csv but its output key keeps "Data.CSV" unchanged |
| Normalizer.NoLowerCsv | lambda/data_processor/lambda_function.py:67 | ".csv" does not occur in "Data.CSV", since replace() is case-sensitive |
| Normalizer.CsvAndJsonCollide | lambda/data_processor/lambda_function.py:65-68 | "x.csv" and "x.json" map to the same output key on the same day |
| Text.ReplaceAll | lambda/data_processor/lambda_function.py:67 | str.replace: every occurrence, scanning left to right without overlaps, is replaced; stated by ReplaceFinal, ReplaceBySelf and ReplaceAbsent |
| Text.ReplaceFinal | lambda/data_processor/lambda_function.py:67 | when the pattern's first character does not recur in it, a string ending in the pattern ends in the replacement afterwards |
| Text.ReplaceBySelf | lambda/data_processor/lambda_function.py:67 | replacing a pattern by itself leaves the string unchanged |
| Text.ReplaceAbsent | lambda/data_processor/lambda_function.py:67 | a string in which the pattern does not occur is left unchanged |
| Counters.Valid | lambda/report_generator/lambda_function.py:37-51 | what a Counter is: hashable keys, pairwise distinct as dict keys, each with a positive count; Increment and Tally keep it |
| Counters.Get | lambda/report_generator/lambda_function.py:51 | c[k]: the count of key k, 0 for a key never counted; stated by IncrementCounts and GetPositive |
| Counters.Total | lambda/report_generator/lambda_function.py:37-51 | the sum of a Counter's counts; FoldedFilesCounts shows it equals total_files for file_formats |
| Counters.Keys | lambda/report_generator/lambda_function.py:87-91 | the keys in insertion order, as dict() and items() list them; TallyCounts shows this is first-seen order |
| Counters.Occurrences | lambda/report_generator/lambda_function.py:51 | how many values of a sequence are a given dict key: the reference count TallyCounts ties c[k] to; OccurrencesAppend states its additivity |
| Counters.FirstSeen | lambda/report_generator/lambda_function.py:51 | the values that are the first of their key, in order: the reference key order TallyCounts ties the Counter to |
| Counters.Increment | lambda/report_generator/lambda_function.py:51 | c[v] += 1 keeps the counter well formed (hashable, distinct keys, positive counts) and adds v's key to its key set |
| Counters.IncrementCounts | lambda/report_generator/lambda_function.py:51 | c[v] += 1 raises v's count by one, no other count changes, a new key goes last, and an existing key keeps its place |
| Counters.GetPositive | lambda/report_generator/lambda_function.py:51 | a key has a positive count iff it is in the counter |
| Counters.TallyCounts | lambda/report_generator/lambda_function.py:37-51 | counting a sequence gives each key its number of occurrences, counts summing to the length, and keys in first-seen order |
| Counters.OccurrencesAppend | lambda/report_generator/lambda_function.py:51 | occurrences are additive over concatenation |
| Counters.ValidKeysHashable | lambda/report_generator/lambda_function.py:118 | every key of a well-formed counter is hashable, so str() can render it |
| Counters.Tally | lambda/report_generator/lambda_function.py:37-51 | the Counter that `c[v] += 1` builds over a sequence of hashable values, starting empty, is well formed (distinct keys, positive counts); its counts and key order are stated by TallyCounts |
| Aggregator.NumValue | lambda/report_generator/lambda_function.py:48 | the numeric value of an int or float count, as `+=` adds it |
| Aggregator.AddNum | lambda/report_generator/lambda_function.py:48 | Python's `+` on numbers: the sum has the value of the two added, and is an int exactly when both are ints |
| Aggregator.RecordCountOf | lambda/report_generator/lambda_function.py:48 | file_data.get('record_count', 0) as a number, a bool counting as an int; None where += raises TypeError |
| Aggregator.FormatOf | lambda/report_generator/lambda_function.py:50 | file_data.get('source_format', 'unknown') |
| Aggregator.DataOf | lambda/report_generator/lambda_function.py:53-58 | what all_data gains from a file: the items of a list, any other value as one item, nothing when data is missing |
| Aggregator.FileFault | lambda/report_generator/lambda_function.py:45-51 | the exception a file raises, in the order the loop body meets them: not a dict, a record_count that is not a number, an unhashable format |
| Aggregator.NoFileFault | lambda/report_generator/lambda_function.py:39-58 | no listed file raises in the loop body; FoldFiles succeeds exactly then |
| Aggregator.RecordSum | lambda/report_generator/lambda_function.py:48 | the value total_records reaches: the sum of the record counts of the files; FoldFiles ensures it, RecordSumAppend states its additivity |
| Aggregator.AnyFloatCount | lambda/report_generator/lambda_function.py:48 | whether total_records ends a float: some file's record_count is a float; FoldFiles ensures the total is an int otherwise |
| Aggregator.Formats | lambda/report_generator/lambda_function.py:50 | the source_format of each file in listing order, one per file, every one hashable; file_formats is its tally |
| Aggregator.AllData | lambda/report_generator/lambda_function.py:53-58 | all_data: the data of each file, a list extended and any other value appended, file after file; stated by AllDataAppend |
| Aggregator.FoldedFiles | lambda/report_generator/lambda_function.py:34-58 | the state the file loop builds: one per file, the record-count sum with its int/float type, the format tally and the concatenated data; FoldFiles keeps it as its invariant |
| Aggregator.FoldFiles | lambda/report_generator/lambda_function.py:34-58 | fails iff some file raises, with the error of the first such file; otherwise total_files is the number of files, total_records the sum of the record_count fields (an int unless some count is a float), file_formats counts the formats, and all_data concatenates the data |
| Aggregator.FoldedFilesCounts | lambda/report_generator/lambda_function.py:37-51 | file_formats counts each file once under its format (default 'unknown'), so its counts sum to total_files, and its keys are in first-seen order |
| Aggregator.RecordSumAppend | lambda/report_generator/lambda_function.py:39-48 | total_records is additive: the record counts of a + b sum to those of a plus those of b |
| Aggregator.AnyFloatCountAppend | lambda/report_generator/lambda_function.py:48 | a + b has a float record count, which makes total_records a float, iff a or b has one |
| Aggregator.FormatsAppend | lambda/report_generator/lambda_function.py:50-51 | the formats of a + b are those of a, then those of b |
| Aggregator.FormatCountsAppend | lambda/report_generator/lambda_function.py:50-51 | file_formats is additive: over a + b each format is counted as often as over a and over b together |
| Aggregator.AllDataAppend | lambda/report_generator/lambda_function.py:53-58 | all_data of a + b is all_data of a, then all_data of b |
| Aggregator.CountNotRecomputed | lambda/report_generator/lambda_function.py:48-58 | total_records is read from record_count, not recomputed: a file claiming 3 records with no data adds 3 and no records |
| Aggregator.RecordFault | lambda/report_generator/lambda_function.py:64-72 | a dict record raises TypeError when its event_type or user_action is truthy but unhashable |
| Aggregator.NoRecordFault | lambda/report_generator/lambda_function.py:64-72 | no record raises in the record loop; FoldRecords succeeds exactly then |
| Aggregator.FieldValues | lambda/report_generator/lambda_function.py:64-72 | the truthy values of a field of the dict records, in order; stated by IgnoredRecord, FieldValuesAppend and FieldValuesHashable |
| Aggregator.FloatAmounts | lambda/report_generator/lambda_function.py:74-77 | the float amount values of the dict records, in order; stated by NonFloatAmountIgnored and FloatAmountsAppend |
| Aggregator.CountField | lambda/report_generator/lambda_function.py:66-72 | one record's `if field: counter[field] += 1` for event_type or user_action: an increment when the field is truthy, no change otherwise; StepRecord uses it |
| Aggregator.FoldRecords | lambda/report_generator/lambda_function.py:60-79 | fails iff some dict record has a truthy unhashable event_type or user_action; otherwise counts the truthy values of both fields of the dict records and keeps the float amounts in order |
| Aggregator.FoldedRecords | lambda/report_generator/lambda_function.py:60-79 | the state the record loop builds: the tallies of the truthy event_type and user_action values and the float amounts in order; FoldRecords keeps it as its invariant |
| Aggregator.FoldedRecordsCounts | lambda/report_generator/lambda_function.py:60-72 | event_types[v] and user_actions[v] equal the number of dict records whose field is truthy and equal to v, with keys in first-seen order |
| Aggregator.FieldValuesHashable | lambda/report_generator/lambda_function.py:64-72 | without a faulting record, every counted value is hashable |
| Aggregator.FieldValuesAppend | lambda/report_generator/lambda_function.py:64-72 | the counted values of a + b are those of a, then those of b |
| Aggregator.IgnoredRecord | lambda/report_generator/lambda_function.py:65-72 | a non-dict record, or one whose field is falsy, is not counted |
| Aggregator.FloatAmountsAppend | lambda/report_generator/lambda_function.py:74-77 | the amounts of a + b are those of a, then those of b |
| Aggregator.NonFloatAmountIgnored | lambda/report_generator/lambda_function.py:74-77 | an int, string or missing amount, or a non-dict record, adds no amount |
| Aggregator.ListingPrefix | lambda/report_generator/lambda_function.py:17 | processed-data/<date>/; that every output key of the day lies under it is stated by Pipeline.StoredUnderListing |
| Aggregator.Summarizes | lambda/report_generator/lambda_function.py:80-94 | the summary dict: report and generation dates, the file fold's totals, counts and all_data, the record fold's counters and amounts, and the first five records; stated of the report by GenerateReport, EmptyListingSummary and Pipeline.DailySummaryOfArtifacts |
| Aggregator.GenerateReport | lambda/report_generator/lambda_function.py:21-135 | no Contents gives "No data to report"; a faulting file or record fails the report, and a listing with neither always ends in a report; that report's summary holds the folds' results and the first min(5, len) records, with the JSON and text report keys and the formats line |
| Aggregator.EmptyListingSummary | lambda/report_generator/lambda_function.py:34-94 | the summary of a listing with no files has zero files, an int total of 0, empty counters, no amounts and no sample records |
| Aggregator.JsonReportKey | lambda/report_generator/lambda_function.py:97 | daily_reports/<date>-summary.json; its properties are stated by ReportKeysDistinct |
| Aggregator.TextReportKey | lambda/report_generator/lambda_function.py:135 | daily_reports/<date>-summary.txt; its properties are stated by ReportKeysDistinct |
| Aggregator.ReportKeysDistinct | lambda/report_generator/lambda_function.py:97-135 | a day's JSON and text report keys differ, and different days never share a key |
| Aggregator.PyStr | lambda/report_generator/lambda_function.py:118 | str() of a hashable value as the f-string renders it; float formatting is a parameter |
| Aggregator.FormatPair | lambda/report_generator/lambda_function.py:118 | f'{fmt}={count}': str() of the key, '=', the decimal count; FormatsLine and FormatsLineAppend state how the pairs are joined |
| Text.NatToString | lambda/report_generator/lambda_function.py:116-118 | the decimal digits of a natural number, most significant first; DigitsOfNat shows they spell it |
| Text.IntToString | lambda/report_generator/lambda_function.py:116-118 | str() of an int as the f-strings render it: its digits, with '-' when negative; that int() reads it back is stated by Coercion.IntCellRoundTrip |
| Aggregator.FormatsLine | lambda/report_generator/lambda_function.py:118 | the formats line is empty iff the counter is empty |
| Aggregator.FormatsLineAppend | lambda/report_generator/lambda_function.py:118 | the fmt=count pairs appear in the counter's order, joined by ", " |
| Pipeline.Consistent | lambda/data_processor/lambda_function.py:61 | an artifact the data processor writes has record_count equal to len(data) |
| Pipeline.Listing | lambda/report_generator/lambda_function.py:39-45 | the files the report generator reads for a day: the artifacts stored under its prefix, each read back as its JSON object; stated by ListingAt |
| Pipeline.ListingAt | lambda/report_generator/lambda_function.py:39-45 | the listing has one file per artifact, the j-th being the j-th artifact's JSON object |
| Pipeline.Records | lambda/data_processor/lambda_function.py:56-63 | the records of all stored artifacts, artifact after artifact |
| Pipeline.FormatNames | lambda/data_processor/lambda_function.py:56-63 | the source_format of each stored artifact, in order |
| Pipeline.ArtifactJson | lambda/data_processor/lambda_function.py:56-63 | the processed_data dict as json.dumps at line 73 writes it and json.loads reads it back; what the report generator reads from it is stated by ArtifactFields |
| Pipeline.ArtifactFields | lambda/data_processor/lambda_function.py:56-63 | an artifact read back raises nothing and yields an int record_count equal to len(data), its format and its data |
| Pipeline.ListingNoFault | lambda/report_generator/lambda_function.py:39-51 | a listing of stored artifacts raises nothing, and no record count in it is a float |
| Pipeline.ListingFolds | lambda/report_generator/lambda_function.py:34-58 | over stored artifacts, the record counts sum to the number of records, and the formats and records read back are the artifacts' own |
| Pipeline.ListingRecordSum | lambda/report_generator/lambda_function.py:48 | over stored artifacts nothing raises, and total_records is the number of records they hold |
| Pipeline.ListingFormats | lambda/report_generator/lambda_function.py:50-51 | over stored artifacts the formats read are the artifacts' own source_format values |
| Pipeline.ListingData | lambda/report_generator/lambda_function.py:53-58 | over stored artifacts all_data is exactly their records, artifact after artifact |
| Pipeline.DailySummaryOfArtifacts | lambda/report_generator/lambda_function.py:81-95 | the summary of stored artifacts has one file per artifact, an int total equal to the number of records, each format counted once per artifact, and the first five records as the sample |
| Pipeline.StoredUnderListing | lambda/data_processor/lambda_function.py:65-68 | an artifact stored today is under the prefix that today's listing uses |

## Left out

- S3 and SNS calls (`get_object`, `put_object`, `list_objects_v2`, `publish`) are left out; they are external I/O. The listed objects and the uploaded object are parameters: a listing is `Option<seq<Json>>`, and an upload is its content string.
- A `list_objects_v2` page holds at most 1000 keys. The model reads everything it is given, so it does not model the truncation.
- `os.environ` is left out: it holds only configuration.
- `datetime.now()` and `timedelta` are left out. The date and the timestamps are string parameters.
- `urllib.parse.unquote_plus` is left out. The key is given already decoded.
- CSV tokenising (quotes, delimiters, line breaks) is left out. The handler takes a `readCsv` function that yields a header and rows. Only DictReader's row-to-dict step is modelled.
- `json.loads` is a parameter `loadJson`. `json.dumps` followed by `json.loads` of an artifact is modelled as the identity (`Pipeline.ArtifactJson`). Key order of JSON objects and `json.dumps` rendering of non-string counter keys are not modelled, because Dafny maps are unordered.
- Floats are exact reals. Binary rounding, `inf`, `nan` and the float `repr` are left out; the formats line takes float formatting as a parameter `floatRepr`.
- Text.IntToString: renders every int. CPython's `str()` and f-string formatting raise `ValueError` for an int of more than 4300 digits. Of the rendered numbers only `total_records` can get that long (see `Aggregator.GenerateReport` below).
- Aggregator.FoldFiles: does not model the `OverflowError` that line 48 raises when `+=` adds an int and a float and the int is beyond float range (more than about 1.8e308, 309 digits), in either order. The model adds exactly and returns `Ok` with a `FloatNum`, because floats are exact reals without a range.
- Aggregator.GenerateReport: does not model the limits that very large `record_count` values hit. These are the `OverflowError` above, and the `ValueError` that `json.dumps` (line 102) and the f-string at line 117 raise once `total_records` is an int of more than 4300 digits. Two files with 4300-digit counts are enough. So "no file or record fault means a report" holds only below these limits. Artifacts from the data processor never reach them, because their `record_count` is `len(data)`.
- `float()` and `int()` accept ASCII digits only; Python also accepts other Unicode decimal digits. `str.lower` is modelled on ASCII letters only.
- `total_amount` is represented by the list of selected float amounts. Its sum, `round(..., 2)` and the `:,.2f` formatting are left out.
- The text report is modelled only through its `File Formats:` line. The rest of its layout, the email subject and body, and `print` logging are left out.
- The error path's notification, with its swallowed failure, is left out: it is I/O around the re-raised error.
