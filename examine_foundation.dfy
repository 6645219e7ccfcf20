/** The script that examines an existing foundation table: it sorts the
    fields into useful, system and unclear ones by keywords in their names,
    picks the fields to sample, shows the first records with long values
    truncated, and recommends what to do with the table. */
module ExamineFoundation {
  import opened Values
  import opened Strings
  import opened FeatureTable

  const LocationKeywords: seq<string> := ["tmk", "island", "county", "dist", "municipal", "domestic", "well"]
  const MatrixKeywords: seq<string> := ["soil", "slope", "perc", "drain", "septic", "atu", "seepage", "join_log"]
  const SystemFields: seq<string> := ["FID", "Shape"]

  /** How a field is categorised, by the first test it passes. */
  datatype FieldKind = Located | MatrixInput | System | Unclear

  /** Some keyword occurs in the lower-cased name. */
  predicate HasKeyword(name: string, keywords: seq<string>) {
    exists k :: 0 <= k < |keywords| && Contains(Lower(name), keywords[k])
  }

  function Classify(name: string): FieldKind {
    if HasKeyword(name, LocationKeywords) then Located
    else if HasKeyword(name, MatrixKeywords) then MatrixInput
    else if name in SystemFields then System
    else Unclear
  }

  /** A field is unclear exactly when no keyword occurs in it and it is not
      a system field; a keyword wins over the system-field test. */
  lemma ClassifyUnclear(name: string)
    ensures Classify(name) == Unclear <==>
      !HasKeyword(name, LocationKeywords) && !HasKeyword(name, MatrixKeywords) && name !in SystemFields
    ensures Classify(name) == System ==> name == "FID" || name == "Shape"
  {
  }

  predicate Useful(name: string) {
    Classify(name) == Located || Classify(name) == MatrixInput
  }

  /** The useful fields, in table order. */
  function UsefulFields(names: seq<string>): seq<string>
    decreases |names|
  {
    if names == [] then []
    else UsefulFields(names[..|names| - 1]) + (if Useful(names[|names| - 1]) then [names[|names| - 1]] else [])
  }

  /** The unclear fields, in table order. */
  function ConfusingFields(names: seq<string>): seq<string>
    decreases |names|
  {
    if names == [] then []
    else ConfusingFields(names[..|names| - 1])
         + (if Classify(names[|names| - 1]) == Unclear then [names[|names| - 1]] else [])
  }

  /** The number of system fields. */
  function SystemCount(names: seq<string>): nat
    decreases |names|
  {
    if names == [] then 0
    else SystemCount(names[..|names| - 1]) + (if Classify(names[|names| - 1]) == System then 1 else 0)
  }

  /** Useful, unclear and system fields add up to all fields. */
  lemma {:induction false} GroupSizes(names: seq<string>)
    ensures |UsefulFields(names)| + |ConfusingFields(names)| + SystemCount(names) == |names|
    decreases |names|
  {
    if names != [] {
      GroupSizes(names[..|names| - 1]);
    }
  }

  /** The useful fields are exactly the fields that are useful. */
  lemma {:induction false} UsefulMembers(names: seq<string>)
    ensures forall n :: n in UsefulFields(names) <==> n in names && Useful(n)
    decreases |names|
  {
    if names != [] {
      var init := names[..|names| - 1];
      UsefulMembers(init);
      assert names == init + [names[|names| - 1]];
    }
  }

  /** The unclear fields are exactly the fields classified unclear. */
  lemma {:induction false} ConfusingMembers(names: seq<string>)
    ensures forall n :: n in ConfusingFields(names) <==> n in names && Classify(n) == Unclear
    decreases |names|
  {
    if names != [] {
      var init := names[..|names| - 1];
      ConfusingMembers(init);
      assert names == init + [names[|names| - 1]];
    }
  }

  /** Every field lands in exactly one group: useful, unclear and system
      fields add up to all fields, and the groups hold exactly the fields
      of their kind. */
  lemma FieldsPartition(names: seq<string>)
    ensures |UsefulFields(names)| + |ConfusingFields(names)| + SystemCount(names) == |names|
    ensures forall n :: n in UsefulFields(names) <==> n in names && Useful(n)
    ensures forall n :: n in ConfusingFields(names) <==> n in names && Classify(n) == Unclear
  {
    GroupSizes(names);
    UsefulMembers(names);
    ConfusingMembers(names);
  }

  /** The categorising loop of the script. */
  method CategorizeFields(names: seq<string>) returns (useful: seq<string>, confusing: seq<string>)
    ensures useful == UsefulFields(names)
    ensures confusing == ConfusingFields(names)
  {
    useful, confusing := [], [];
    for i := 0 to |names|
      invariant useful == UsefulFields(names[..i])
      invariant confusing == ConfusingFields(names[..i])
    {
      assert names[..i + 1][..i] == names[..i];
      var kind := Classify(names[i]);
      if kind == Located {
        useful := useful + [names[i]];
      } else if kind == MatrixInput {
        useful := useful + [names[i]];
      } else if kind == System {
      } else {
        confusing := confusing + [names[i]];
      }
    }
    assert names[..|names|] == names;
  }

  const TrackingFields: seq<string> := ["SOIL_JOIN", "JOIN_LOG", "PERC_CLASS"]

  predicate IsDistance(name: string) {
    Contains(Lower(name), "dist")
  }

  predicate Distinct(s: seq<string>) {
    forall i, j :: 0 <= i < j < |s| ==> s[i] != s[j]
  }

  /** The first sampling loop: TMK and Island, then the distance fields in
      table order until there are five. */
  method PickDistanceFields(names: seq<string>) returns (sample: seq<string>)
    ensures 2 <= |sample| <= 5 && sample[..2] == ["TMK", "Island"]
    ensures Distinct(sample)
    ensures forall k :: 2 <= k < |sample| ==> sample[k] in names && IsDistance(sample[k])
    ensures |sample| < 5 ==> forall n :: n in names && IsDistance(n) ==> n in sample
  {
    sample := ["TMK", "Island"];
    var full := false;
    for i := 0 to |names|
      invariant 2 <= |sample| <= 5 && sample[..2] == ["TMK", "Island"]
      invariant Distinct(sample)
      invariant forall k :: 2 <= k < |sample| ==> sample[k] in names && IsDistance(sample[k])
      invariant full <==> |sample| == 5
      invariant !full ==> forall n :: n in names[..i] && IsDistance(n) ==> n in sample
    {
      if full {
        break;
      }
      if IsDistance(names[i]) && names[i] !in sample {
        sample := sample + [names[i]];
        full := |sample| >= 5;
      }
    }
    assert !full ==> names[..|names|] == names;
  }

  /** The second sampling loop: the tracking fields the table has, in
      order, until there are eight. */
  method PickTrackingFields(names: seq<string>, start: seq<string>) returns (sample: seq<string>)
    requires |start| < 8 && Distinct(start)
    ensures |start| <= |sample| <= 8 && sample[..|start|] == start
    ensures Distinct(sample)
    ensures forall k :: |start| <= k < |sample| ==> sample[k] in names && sample[k] in TrackingFields
    ensures |sample| < 8 ==> forall f :: f in TrackingFields && f in names ==> f in sample
  {
    sample := start;
    var full := false;
    for t := 0 to |TrackingFields|
      invariant |start| <= |sample| <= |start| + t && |sample| <= 8
      invariant sample[..|start|] == start
      invariant Distinct(sample)
      invariant forall k :: |start| <= k < |sample| ==> sample[k] in names && sample[k] in TrackingFields
      invariant full <==> |sample| == 8
      invariant !full ==> forall f :: f in TrackingFields[..t] && f in names ==> f in sample
    {
      if full {
        break;
      }
      var f := TrackingFields[t];
      if f in names && f !in sample {
        sample := sample + [f];
        full := |sample| >= 8;
      }
    }
  }

  /** The fields to sample: TMK and Island, then distance fields until
      there are five, then the tracking fields the table has until there
      are eight. */
  method ChooseSampleFields(names: seq<string>) returns (sample: seq<string>)
    ensures 2 <= |sample| <= 8 && sample[..2] == ["TMK", "Island"]
    ensures Distinct(sample)
    ensures forall k :: 2 <= k < |sample| ==> sample[k] in names && (IsDistance(sample[k]) || sample[k] in TrackingFields)
    ensures |sample| < 5 ==> forall n :: n in names && IsDistance(n) ==> n in sample
    ensures |sample| < 8 ==> forall f :: f in TrackingFields && f in names ==> f in sample
  {
    var afterDistance := PickDistanceFields(names);
    sample := PickTrackingFields(names, afterDistance);
    assert sample[..2] == afterDistance[..2];
    forall n | n in afterDistance
      ensures n in sample
    {
      var k :| 0 <= k < |afterDistance| && afterDistance[k] == n;
      assert sample[k] == afterDistance[k];
    }
    forall k | 2 <= k < |afterDistance|
      ensures sample[k] in names && IsDistance(sample[k])
    {
      assert sample[k] == afterDistance[k];
    }
  }

  /** A value as the sample shows it: NULL for a false value, otherwise
      its text cut to 30 characters. */
  function DisplayValue(v: Value): (r: string)
    ensures !Truthy(v) ==> r == "NULL"
    ensures Truthy(v) ==> |r| <= 30 && StartsWith(Display(v), r)
    ensures Truthy(v) && |Display(v)| <= 30 ==> r == Display(v)
  {
    if !Truthy(v) then "NULL"
    else if |Display(v)| <= 30 then Display(v) else Display(v)[..30]
  }

  /** One sampled record: `field: value` for each sample field. */
  function RecordEntries(row: map<string, Value>, sample: seq<string>): (r: seq<string>)
    requires forall j :: 0 <= j < |sample| ==> sample[j] in row
    ensures |r| == |sample|
    ensures forall j :: 0 <= j < |sample| ==> StartsWith(r[j], sample[j] + ": ")
  {
    seq(|sample|, j requires 0 <= j < |sample| && sample[j] in row => sample[j] + ": " + DisplayValue(row[sample[j]]))
  }

  /** The sampling cursor: it raises when a sample field is not a field of
      the table; otherwise the first three records are shown. */
  method SampleRecords(fields: seq<string>, rows: seq<map<string, Value>>, sample: seq<string>)
      returns (shown: Option<seq<seq<string>>>)
    requires WellFormed(fields, rows)
    ensures shown.None? <==> exists j :: 0 <= j < |sample| && sample[j] !in fields
    ensures shown.Some? ==> |shown.value| == (if |rows| < 3 then |rows| else 3)
    ensures shown.Some? ==> forall i :: 0 <= i < |shown.value| ==> shown.value[i] == RecordEntries(rows[i], sample)
  {
    if exists j :: 0 <= j < |sample| && sample[j] !in fields {
      return None;
    }
    var lines: seq<seq<string>> := [];
    var i := 0;
    while i < |rows|
      invariant 0 <= i <= |rows| && i <= 3
      invariant |lines| == i
      invariant forall k :: 0 <= k < i ==> lines[k] == RecordEntries(rows[k], sample)
      invariant i < |rows| ==> i < 3
    {
      lines := lines + [RecordEntries(rows[i], sample)];
      if i >= 2 {
        i := i + 1;
        break;
      }
      i := i + 1;
    }
    shown := Some(lines);
  }

  datatype Recommendation = StartFresh | CleanUp | EvaluateCaseByCase

  /** More than five unclear fields means starting fresh, whatever else;
      otherwise eight useful fields mean cleaning up this table. */
  function Recommend(usefulCount: nat, confusingCount: nat): Recommendation {
    if confusingCount > 5 then StartFresh
    else if usefulCount >= 8 then CleanUp
    else EvaluateCaseByCase
  }

  /** A table with fewer than eight fields, or with more unclear than
      clean-up can tolerate, is never recommended for clean-up; one whose
      fields are all useful or system fields is never started afresh. */
  lemma RecommendationBounds(names: seq<string>)
    ensures |names| < 8 ==> Recommend(|UsefulFields(names)|, |ConfusingFields(names)|) != CleanUp
    ensures (forall n :: n in names ==> Classify(n) != Unclear) ==>
      Recommend(|UsefulFields(names)|, |ConfusingFields(names)|) != StartFresh
  {
    FieldsPartition(names);
  }

  /** What one run of the script establishes. */
  datatype Examination =
    | NotFound
    | SampleFailed(useful: seq<string>, confusing: seq<string>, sample: seq<string>)
    | Examined(useful: seq<string>, confusing: seq<string>, sample: seq<string>,
               records: seq<seq<string>>, recommendation: Recommendation)

  /** The whole script on the table's fields and records; `found` is what
      `arcpy.Exists` says of the foundation shapefile. */
  method Examine(found: bool, fields: seq<string>, rows: seq<map<string, Value>>) returns (r: Examination)
    requires WellFormed(fields, rows)
    ensures r.NotFound? <==> !found
    ensures !r.NotFound? ==> r.useful == UsefulFields(fields) && r.confusing == ConfusingFields(fields)
    ensures !r.NotFound? ==> |r.useful| + |r.confusing| <= |fields|
    ensures !r.NotFound? ==> 2 <= |r.sample| <= 8 && Distinct(r.sample) && r.sample[..2] == ["TMK", "Island"]
    ensures !r.NotFound? ==> forall k :: 2 <= k < |r.sample| ==>
      r.sample[k] in fields && (IsDistance(r.sample[k]) || r.sample[k] in TrackingFields)
    ensures !r.NotFound? && |r.sample| < 5 ==> forall n :: n in fields && IsDistance(n) ==> n in r.sample
    ensures !r.NotFound? && |r.sample| < 8 ==> forall f :: f in TrackingFields && f in fields ==> f in r.sample
    ensures r.SampleFailed? <==> found && !(forall j :: 0 <= j < |r.sample| ==> r.sample[j] in fields)
    ensures r.Examined? ==> r.recommendation == Recommend(|r.useful|, |r.confusing|)
    ensures r.Examined? ==> |r.records| == (if |rows| < 3 then |rows| else 3)
    ensures r.Examined? ==> forall i :: 0 <= i < |r.records| ==> r.records[i] == RecordEntries(rows[i], r.sample)
  {
    if !found {
      return NotFound;
    }
    var useful, confusing := CategorizeFields(fields);
    FieldsPartition(fields);
    var sample := ChooseSampleFields(fields);
    var shown := SampleRecords(fields, rows, sample);
    if shown.None? {
      return SampleFailed(useful, confusing, sample);
    }
    r := Examined(useful, confusing, sample, shown.value, Recommend(|useful|, |confusing|));
  }
}
