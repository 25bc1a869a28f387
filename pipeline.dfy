/** The two handlers together: the artifacts the data processor writes under a day's
    prefix are the files the report generator reads back for that day. */
module Pipeline {
  import opened Wrappers
  import opened Values
  import opened Counters
  import opened Normalizer
  import opened Aggregator

  /** An artifact as the JSON object `json.dumps` writes and `json.loads` reads back. */
  function ArtifactJson(a: Artifact): Json {
    JObj(map[
      "source_bucket" := JStr(a.sourceBucket),
      "source_key" := JStr(a.sourceKey),
      "source_format" := JStr(a.sourceFormat),
      "processed_timestamp" := JStr(a.processedTimestamp),
      "record_count" := JInt(a.recordCount),
      "data" := JArr(a.data)])
  }

  /** The record count of an artifact the data processor writes is the length of its data. */
  predicate Consistent(a: Artifact) {
    a.recordCount == |a.data|
  }

  /** The listed files of a day, one per stored artifact, in listing order. */
  function Listing(arts: seq<Artifact>): (files: seq<Json>)
    ensures |files| == |arts|
  {
    if arts == [] then [] else Listing(arts[..|arts| - 1]) + [ArtifactJson(arts[|arts| - 1])]
  }

  /** The records of all artifacts, artifact after artifact. */
  function Records(arts: seq<Artifact>): seq<Json> {
    if arts == [] then [] else Records(arts[..|arts| - 1]) + arts[|arts| - 1].data
  }

  /** The formats of the artifacts, in order. */
  function FormatNames(arts: seq<Artifact>): seq<Json> {
    if arts == [] then [] else FormatNames(arts[..|arts| - 1]) + [JStr(arts[|arts| - 1].sourceFormat)]
  }

  /** The report generator reads back exactly what the data processor stored: an int record
      count equal to the number of records, the format, and the records themselves. */
  lemma ArtifactFields(a: Artifact)
    requires Consistent(a)
    ensures FileFault(ArtifactJson(a)) == None
    ensures RecordCountOf(ArtifactJson(a)) == Some(IntNum(|a.data|))
    ensures FormatOf(ArtifactJson(a)) == JStr(a.sourceFormat)
    ensures DataOf(ArtifactJson(a)) == a.data
  {
    var f := ArtifactJson(a).fields;
    assert "record_count" in f && f["record_count"] == JInt(a.recordCount);
    assert "source_format" in f && f["source_format"] == JStr(a.sourceFormat);
    assert "data" in f && f["data"] == JArr(a.data);
  }

  lemma {:induction false} ListingAt(arts: seq<Artifact>)
    ensures |Listing(arts)| == |arts|
    ensures forall j :: 0 <= j < |arts| ==> Listing(arts)[j] == ArtifactJson(arts[j])
  {
    if arts != [] {
      ListingAt(arts[..|arts| - 1]);
    }
  }

  /** A day's listing of consistent artifacts raises nothing, and no record count in it
      is a float. */
  lemma ListingNoFault(arts: seq<Artifact>)
    requires forall j :: 0 <= j < |arts| ==> Consistent(arts[j])
    ensures NoFileFault(Listing(arts))
    ensures !AnyFloatCount(Listing(arts))
  {
    var files := Listing(arts);
    ListingAt(arts);
    forall j | 0 <= j < |arts|
      ensures FileFault(files[j]) == None && RecordCountOf(files[j]) == Some(IntNum(|arts[j].data|))
    {
      ArtifactFields(arts[j]);
    }
  }

  /** The record counts of a day's consistent artifacts sum to the number of their records,
      and the formats and records read back are the artifacts' own. */
  lemma ListingFolds(arts: seq<Artifact>)
    requires forall j :: 0 <= j < |arts| ==> Consistent(arts[j])
    ensures NoFileFault(Listing(arts))
    ensures RecordSum(Listing(arts)) == |Records(arts)| as real
    ensures Formats(Listing(arts)) == FormatNames(arts)
    ensures AllData(Listing(arts)) == Records(arts)
  {
    ListingNoFault(arts);
    ListingRecordSum(arts);
    ListingFormats(arts);
    ListingData(arts);
  }

  lemma {:induction false} ListingRecordSum(arts: seq<Artifact>)
    requires forall j :: 0 <= j < |arts| ==> Consistent(arts[j])
    ensures NoFileFault(Listing(arts))
    ensures RecordSum(Listing(arts)) == |Records(arts)| as real
  {
    ListingNoFault(arts);
    if arts != [] {
      var n := |arts| - 1;
      var p := arts[..n];
      ListingRecordSum(p);
      ArtifactFields(arts[n]);
      var files := Listing(arts);
      assert files[..n] == Listing(p) && files[n] == ArtifactJson(arts[n]);
      assert Records(arts) == Records(p) + arts[n].data;
      calc {
        RecordSum(files);
        RecordSum(files[..n]) + NumValue(RecordCountOf(files[n]).value);
        RecordSum(Listing(p)) + NumValue(IntNum(|arts[n].data|));
        |Records(p)| as real + |arts[n].data| as real;
        |Records(arts)| as real;
      }
    }
  }

  lemma {:induction false} ListingFormats(arts: seq<Artifact>)
    requires forall j :: 0 <= j < |arts| ==> Consistent(arts[j])
    ensures NoFileFault(Listing(arts))
    ensures Formats(Listing(arts)) == FormatNames(arts)
  {
    ListingNoFault(arts);
    if arts != [] {
      var n := |arts| - 1;
      var p := arts[..n];
      ListingFormats(p);
      ArtifactFields(arts[n]);
      var files := Listing(arts);
      assert files[..n] == Listing(p) && files[n] == ArtifactJson(arts[n]);
    }
  }

  lemma {:induction false} ListingData(arts: seq<Artifact>)
    requires forall j :: 0 <= j < |arts| ==> Consistent(arts[j])
    ensures NoFileFault(Listing(arts))
    ensures AllData(Listing(arts)) == Records(arts)
  {
    ListingNoFault(arts);
    if arts != [] {
      var n := |arts| - 1;
      var p := arts[..n];
      ListingData(p);
      ArtifactFields(arts[n]);
      var files := Listing(arts);
      assert files[..n] == Listing(p) && files[n] == ArtifactJson(arts[n]);
    }
  }

  /** The summary of a day whose listing holds only artifacts the data processor wrote:
      one file per artifact, an int total equal to the number of records, each format
      counted once per artifact of that format, and the first five of all their records as
      the sample. */
  lemma DailySummaryOfArtifacts(arts: seq<Artifact>, s: Summary, reportDate: string, generatedAt: string)
    requires forall j :: 0 <= j < |arts| ==> Consistent(arts[j])
    requires Summarizes(s, Listing(arts), reportDate, generatedAt)
    ensures s.totalFiles == |arts|
    ensures s.totalRecords == IntNum(|Records(arts)|)
    ensures forall k :: Get(s.fileFormats, k) == Occurrences(FormatNames(arts), k)
    ensures Total(s.fileFormats) == |arts|
    ensures s.sampleRecords == Records(arts)[..Min(5, |Records(arts)|)]
  {
    ListingNoFault(arts);
    ListingFolds(arts);
    ListingAt(arts);
    TallyCounts(Formats(Listing(arts)));
  }

  /** An artifact stored on `today` is found by that day's listing. */
  lemma StoredUnderListing(today: string, key: string, extension: string)
    ensures ListingPrefix(today) <= OutputKey(today, key, extension)
  {
    var rest := Text.ReplaceAll(key, "." + extension, ".json");
    assert OutputKey(today, key, extension) == ListingPrefix(today) + rest;
  }
}
