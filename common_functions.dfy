/** The shared table utilities: output and backup path naming, counting the
    rows by value, required-field validation, completeness counts, the HAR
    11-62 class validation, the CSV export columns and the tracking field. */
module CommonFunctions {
  import opened Values
  import opened Strings
  import opened Tally
  import opened FeatureTable

  // ---------------------------------------------------------------------
  // Output and backup paths
  // ---------------------------------------------------------------------

  /** The output name: `layer_suffix` for a non-empty suffix, else the layer. */
  function OutputName(layerName: string, suffix: string): (r: string)
    ensures suffix == "" ==> r == layerName
    ensures suffix != "" ==> StartsWith(r, layerName + "_") && EndsWith(r, "_" + suffix)
    ensures suffix != "" ==> |r| == |layerName| + 1 + |suffix|
  {
    if suffix != "" then layerName + "_" + suffix else layerName
  }

  /** `create_output_path`: the shapefile named after the layer and suffix
      in the base folder. */
  function CreateOutputPath(baseFolder: string, layerName: string, suffix: string): (r: string)
    ensures StartsWith(r, baseFolder)
    ensures EndsWith(r, OutputName(layerName, suffix) + ".shp")
  {
    PathJoin(baseFolder, OutputName(layerName, suffix) + ".shp")
  }

  /** `backup_layer`'s destination for a given timestamp text. */
  function BackupPath(sourceLayer: string, backupFolder: string, timestamp: string): (r: string)
    ensures StartsWith(r, backupFolder)
    ensures EndsWith(r, sourceLayer + "_backup_" + timestamp + ".shp")
  {
    PathJoin(backupFolder, sourceLayer + "_backup_" + timestamp + ".shp")
  }

  /** Two backups of one layer at different times of equal length never
      overwrite each other. */
  lemma {:induction false} BackupPathsDiffer(sourceLayer: string, backupFolder: string, t1: string, t2: string)
    requires |t1| == |t2| && t1 != t2
    ensures BackupPath(sourceLayer, backupFolder, t1) != BackupPath(sourceLayer, backupFolder, t2)
  {
    var k :| 0 <= k < |t1| && t1[k] != t2[k];
    var n := |sourceLayer + "_backup_"|;
    var s1, s2 := sourceLayer + "_backup_" + t1 + ".shp", sourceLayer + "_backup_" + t2 + ".shp";
    assert s1[n + k] != s2[n + k];
    var pre := if backupFolder == [] || backupFolder[|backupFolder| - 1] in {'\\', '/'} then backupFolder else backupFolder + "\\";
    assert BackupPath(sourceLayer, backupFolder, t1) == pre + s1;
    assert BackupPath(sourceLayer, backupFolder, t2) == pre + s2;
    assert (pre + s1)[|pre| + n + k] != (pre + s2)[|pre| + n + k];
  }

  // ---------------------------------------------------------------------
  // Counting by value
  // ---------------------------------------------------------------------

  /** The key a row is counted under: NULL becomes the text "NULL". */
  function CountKey(v: Value): Value {
    if v.Null? then Str("NULL") else v
  }

  /** The key of every row: never NULL; a value other than NULL is its own
      key, and a row is counted under "NULL" exactly when it holds NULL or
      the text "NULL". */
  function CountKeys(column: seq<Value>): (r: seq<Value>)
    ensures |r| == |column|
    ensures Null !in r
    ensures forall i :: 0 <= i < |column| && !column[i].Null? ==> r[i] == column[i]
    ensures forall i :: 0 <= i < |column| ==> (r[i] == Str("NULL") <==> column[i] in {Null, Str("NULL")})
  {
    seq(|column|, i requires 0 <= i < |column| => CountKey(column[i]))
  }

  /** `count_records_by_field` over the values of the field. No key is NULL,
      every key was seen and counted at least once, and the counts add up
      to the number of rows. A NULL and the text "NULL" share one key. */
  method CountRecordsByField(column: seq<Value>) returns (valueCounts: map<Value, nat>)
    ensures valueCounts == Counts(CountKeys(column))
    ensures SumValues(valueCounts) == |column|
    ensures Null !in valueCounts
    ensures forall v :: v in valueCounts ==> valueCounts[v] >= 1
    ensures forall i :: 0 <= i < |column| ==> CountKey(column[i]) in valueCounts
  {
    var keys := CountKeys(column);
    valueCounts := map[];
    for i := 0 to |column|
      invariant valueCounts == Counts(keys[..i])
    {
      var value := if column[i].Null? then Str("NULL") else column[i];
      CountsStep(keys, i);
      valueCounts := valueCounts[value := (if value in valueCounts then valueCounts[value] else 0) + 1];
    }
    assert keys[..|column|] == keys;
    CountKeysSummary(column);
  }

  /** The tally of the count keys: no key is NULL, every row's key is
      there with a count of at least one, and the counts add up to the
      number of rows. */
  lemma CountKeysSummary(column: seq<Value>)
    ensures SumValues(Counts(CountKeys(column))) == |column|
    ensures Null !in Counts(CountKeys(column))
    ensures forall v :: v in Counts(CountKeys(column)) ==> Counts(CountKeys(column))[v] >= 1
    ensures forall i :: 0 <= i < |column| ==> CountKey(column[i]) in Counts(CountKeys(column))
  {
    var keys := CountKeys(column);
    CountsSum(keys);
    CountsAreOccurrences(keys);
    assert forall i :: 0 <= i < |column| ==> keys[i] in keys;
  }

  // ---------------------------------------------------------------------
  // Field lists
  // ---------------------------------------------------------------------

  /** The names of `names` that are in `pool`, in order. */
  function KeepPresent(names: seq<string>, pool: seq<string>): seq<string>
    decreases |names|
  {
    if names == [] then []
    else (if names[0] in pool then [names[0]] else []) + KeepPresent(names[1..], pool)
  }

  /** The names of `names` that are not in `pool`, in order. */
  function KeepAbsent(names: seq<string>, pool: seq<string>): seq<string>
    decreases |names|
  {
    if names == [] then []
    else (if names[0] in pool then [] else [names[0]]) + KeepAbsent(names[1..], pool)
  }

  /** Each filter keeps exactly the names on its side of the pool. */
  lemma {:induction false} FilterMembers(names: seq<string>, pool: seq<string>)
    ensures forall f :: f in KeepPresent(names, pool) <==> f in names && f in pool
    ensures forall f :: f in KeepAbsent(names, pool) <==> f in names && f !in pool
    decreases |names|
  {
    if names != [] {
      FilterMembers(names[1..], pool);
      assert names == [names[0]] + names[1..];
    }
  }

  /** Together the two filters keep every name exactly once. */
  lemma {:induction false} FilterCounts(names: seq<string>, pool: seq<string>)
    ensures multiset(KeepPresent(names, pool)) + multiset(KeepAbsent(names, pool)) == multiset(names)
    decreases |names|
  {
    if names != [] {
      FilterCounts(names[1..], pool);
      assert names == [names[0]] + names[1..];
    }
  }

  /** The two filters split the names between them: each keeps exactly the
      names on its side, and together they keep every name once. */
  lemma FiltersPartition(names: seq<string>, pool: seq<string>)
    ensures forall f :: f in KeepPresent(names, pool) <==> f in names && f in pool
    ensures forall f :: f in KeepAbsent(names, pool) <==> f in names && f !in pool
    ensures |KeepPresent(names, pool)| + |KeepAbsent(names, pool)| == |names|
    ensures multiset(KeepPresent(names, pool)) + multiset(KeepAbsent(names, pool)) == multiset(names)
  {
    FilterMembers(names, pool);
    FilterCounts(names, pool);
    assert |multiset(KeepPresent(names, pool))| == |KeepPresent(names, pool)|;
    assert |multiset(KeepAbsent(names, pool))| == |KeepAbsent(names, pool)|;
  }

  /** Filtering keeps the order of the names: each filter's result is the
      first kept name followed by the filtered rest. */
  lemma FilterOrder(f: string, rest: seq<string>, pool: seq<string>)
    ensures f in pool ==> KeepPresent([f] + rest, pool) == [f] + KeepPresent(rest, pool)
    ensures f !in pool ==> KeepAbsent([f] + rest, pool) == [f] + KeepAbsent(rest, pool)
    ensures f in pool ==> KeepAbsent([f] + rest, pool) == KeepAbsent(rest, pool)
  {
    assert ([f] + rest)[1..] == rest;
  }

  /** Filtering a list extended by one name extends the result by that name
      when it is kept. */
  lemma {:induction false} KeepPresentAppend(names: seq<string>, x: string, pool: seq<string>)
    ensures KeepPresent(names + [x], pool) == KeepPresent(names, pool) + (if x in pool then [x] else [])
    decreases |names|
  {
    if names != [] {
      assert (names + [x])[1..] == names[1..] + [x];
      KeepPresentAppend(names[1..], x, pool);
    }
  }

  /** Filtering one more name of a list keeps one more exactly when that
      name is in the pool. */
  lemma KeepPresentStep(names: seq<string>, k: nat, pool: seq<string>)
    requires k < |names|
    ensures |KeepPresent(names[..k + 1], pool)| == |KeepPresent(names[..k], pool)| + (if names[k] in pool then 1 else 0)
  {
    assert names[..k + 1] == names[..k] + [names[k]];
    KeepPresentAppend(names[..k], names[k], pool);
  }

  /** The outcome of a validation that raises on failure. */
  datatype Validation = Passed | Raised(missing: seq<string>)

  /** `validate_required_fields`: raises with the missing fields, in the
      order required, exactly when some required field is absent. */
  function ValidateRequiredFields(existingFields: seq<string>, requiredFields: seq<string>): (r: Validation)
    ensures r.Passed? <==> forall f :: f in requiredFields ==> f in existingFields
    ensures r.Raised? ==> r.missing == KeepAbsent(requiredFields, existingFields) && r.missing != []
  {
    FiltersPartition(requiredFields, existingFields);
    var missing := KeepAbsent(requiredFields, existingFields);
    assert missing != [] ==> missing[0] in missing;
    if missing != [] then Raised(missing) else Passed
  }

  // ---------------------------------------------------------------------
  // Completeness
  // ---------------------------------------------------------------------

  /** Python's `str.isspace` for one character, which is what `strip()`
      removes. */
  predicate IsSpace(c: char) {
    || c in {' ', '\t', '\n', '\r', '\U{000B}', '\U{000C}', '\U{001C}', '\U{001D}', '\U{001E}', '\U{001F}',
             '\U{0085}', '\U{00A0}', '\U{1680}', '\U{2028}', '\U{2029}', '\U{202F}', '\U{205F}', '\U{3000}'}
    || '\U{2000}' <= c <= '\U{200A}'
  }

  /** `str(v).strip() != ""`: the text has a character that is not white space. */
  predicate NotBlank(s: string) {
    exists k :: 0 <= k < |s| && !IsSpace(s[k])
  }

  /** A value counts as populated when it is not NULL and its text is not
      blank. */
  predicate Populated(v: Value) {
    v != Null && NotBlank(Display(v))
  }

  /** Every number is populated: its text starts with a digit or '-'. */
  lemma NumbersPopulated(i: int)
    ensures Populated(Int(i))
  {
    var d := Display(Int(i));
    if i < 0 {
      assert d[0] == '-';
    } else {
      assert '0' <= d[0] <= '9';
    }
    assert !IsSpace(d[0]);
  }

  /** Number of populated values. */
  function PopulatedCount(column: seq<Value>): (n: nat)
    ensures n <= |column|
    decreases |column|
  {
    if column == [] then 0
    else PopulatedCount(column[..|column| - 1]) + (if Populated(column[|column| - 1]) then 1 else 0)
  }

  /** Every value populated exactly when the count reaches the row count. */
  lemma {:induction false} PopulatedCountFull(column: seq<Value>)
    ensures PopulatedCount(column) == |column| <==> forall i :: 0 <= i < |column| ==> Populated(column[i])
    decreases |column|
  {
    if column != [] {
      var init, last := column[..|column| - 1], column[|column| - 1];
      PopulatedCountFull(init);
      if PopulatedCount(column) == |column| {
        forall i | 0 <= i < |column|
          ensures Populated(column[i])
        {
          if i < |init| {
            assert column[i] == init[i];
          }
        }
      } else if Populated(last) {
        var i :| 0 <= i < |init| && !Populated(init[i]);
        assert column[i] == init[i];
      }
    }
  }

  /** Counting one more value adds one exactly when it is populated. */
  lemma PopulatedCountStep(column: seq<Value>, i: nat)
    requires i < |column|
    ensures PopulatedCount(column[..i + 1]) ==
      PopulatedCount(column[..i]) + (if Populated(column[i]) then 1 else 0)
  {
    assert column[..i + 1][..i] == column[..i];
  }

  datatype Completeness = Completeness(populated: nat, total: nat)

  /** `calculate_completeness_stats`: for each field checked, the number of
      populated rows and the row count. A field that does not exist makes
      the search cursor raise, and there is no result. */
  method CalculateCompletenessStats(fields: seq<string>, rows: seq<map<string, Value>>, fieldsToCheck: seq<string>)
      returns (stats: Option<map<string, Completeness>>)
    requires WellFormed(fields, rows)
    ensures stats.None? <==> exists f :: f in fieldsToCheck && f !in fields
    ensures stats.Some? ==> stats.value.Keys == set f | f in fieldsToCheck
    ensures stats.Some? ==> forall f :: f in stats.value ==>
      && stats.value[f].total == |rows|
      && stats.value[f].populated == PopulatedCount(Column(rows, f))
      && stats.value[f].populated <= stats.value[f].total
  {
    var totalRecords := |rows|;
    var result: map<string, Completeness> := map[];
    for j := 0 to |fieldsToCheck|
      invariant result.Keys == set f | f in fieldsToCheck[..j]
      invariant forall f :: f in fieldsToCheck[..j] ==> f in fields
      invariant forall f :: f in result ==>
        result[f] == Completeness(PopulatedCount(Column(rows, f)), |rows|)
    {
      var field := fieldsToCheck[j];
      if field !in fields {
        return None;
      }
      var column := Column(rows, field);
      var nonNullCount := 0;
      for i := 0 to |rows|
        invariant nonNullCount == PopulatedCount(column[..i])
      {
        PopulatedCountStep(column, i);
        if column[i] != Null && NotBlank(Display(column[i])) {
          nonNullCount := nonNullCount + 1;
        }
      }
      assert column[..|rows|] == column;
      result := result[field := Completeness(nonNullCount, totalRecords)];
      assert fieldsToCheck[..j + 1] == fieldsToCheck[..j] + [field];
    }
    assert fieldsToCheck[..|fieldsToCheck|] == fieldsToCheck;
    stats := Some(result);
  }

  // ---------------------------------------------------------------------
  // HAR 11-62 class validation
  // ---------------------------------------------------------------------

  const HarSlopeField := "HAR_SLOPE_CLASS"
  const HarPercField := "HAR_PERC_CLASS"
  const HarDrainageField := "HAR_DRAINAGE_CLASS"
  const HarFields := [HarSlopeField, HarPercField, HarDrainageField]

  const ValidSlopeClasses := ["<8%", "8-12%", ">12%", "Unknown"]
  const ValidPercClasses := ["<1 min/inch", "1-10 min/inch", "10-60 min/inch", ">60 min/inch", "Unknown"]
  const ValidDrainageClasses := ["Good", "Moderate", "Poor", "Unknown"]

  /** The allowed values of a HAR class field. */
  function AllowedValues(field: string): seq<string> {
    if field == HarSlopeField then ValidSlopeClasses
    else if field == HarPercField then ValidPercClasses
    else if field == HarDrainageField then ValidDrainageClasses
    else []
  }

  /** `value in allowed`: only text can equal an allowed class; NULL and
      numbers never do. */
  predicate AllowedValue(v: Value, allowed: seq<string>) {
    v.Str? && v.s in allowed
  }

  function InvalidCount(column: seq<Value>, allowed: seq<string>): (n: nat)
    ensures n <= |column|
    decreases |column|
  {
    if column == [] then 0
    else InvalidCount(column[..|column| - 1], allowed) + (if AllowedValue(column[|column| - 1], allowed) then 0 else 1)
  }

  /** No invalid value exactly when every value is allowed; a NULL value is
      always counted as invalid. */
  lemma {:induction false} InvalidCountZero(column: seq<Value>, allowed: seq<string>)
    ensures InvalidCount(column, allowed) == 0 <==> forall i :: 0 <= i < |column| ==> AllowedValue(column[i], allowed)
    ensures Null in column ==> InvalidCount(column, allowed) >= 1
    decreases |column|
  {
    if column != [] {
      var init := column[..|column| - 1];
      InvalidCountZero(init, allowed);
      assert forall i :: 0 <= i < |init| ==> init[i] == column[i];
      if Null in column && column[|column| - 1] != Null {
        assert Null in init;
      }
    }
  }

  /** Counting one more value adds one exactly when it is not allowed. */
  lemma InvalidCountStep(column: seq<Value>, allowed: seq<string>, i: nat)
    requires i < |column|
    ensures InvalidCount(column[..i + 1], allowed) ==
      InvalidCount(column[..i], allowed) + (if AllowedValue(column[i], allowed) then 0 else 1)
  {
    assert column[..i + 1][..i] == column[..i];
  }

  datatype FieldValidity = Missing | Checked(invalidCount: nat, totalCount: nat)

  /** `validate_har_classifications`: each of the three HAR class fields is
      reported "MISSING" when absent, and otherwise with the number of rows
      whose value is not allowed and the row count. */
  method ValidateHarClassifications(fields: seq<string>, rows: seq<map<string, Value>>)
      returns (results: map<string, FieldValidity>)
    requires WellFormed(fields, rows)
    ensures results.Keys == {HarSlopeField, HarPercField, HarDrainageField}
    ensures forall f :: f in results ==> (results[f].Missing? <==> f !in fields)
    ensures forall f :: f in results && f in fields ==>
      && results[f].totalCount == |rows|
      && results[f].invalidCount == InvalidCount(Column(rows, f), AllowedValues(f))
      && results[f].invalidCount <= results[f].totalCount
  {
    results := map[];
    for j := 0 to |HarFields|
      invariant results.Keys == set f | f in HarFields[..j]
      invariant forall f :: f in results ==> (results[f].Missing? <==> f !in fields)
      invariant forall f :: f in results && f in fields ==>
        results[f] == Checked(InvalidCount(Column(rows, f), AllowedValues(f)), |rows|)
    {
      var field := HarFields[j];
      assert HarFields[..j + 1] == HarFields[..j] + [field];
      if field !in fields {
        results := results[field := Missing];
        continue;
      }
      var column := Column(rows, field);
      var allowed := AllowedValues(field);
      var invalidCount, totalCount := 0, 0;
      for i := 0 to |rows|
        invariant invalidCount == InvalidCount(column[..i], allowed)
        invariant totalCount == i
      {
        InvalidCountStep(column, allowed, i);
        totalCount := totalCount + 1;
        if !(column[i].Str? && column[i].s in allowed) {
          invalidCount := invalidCount + 1;
        }
      }
      assert column[..|rows|] == column;
      results := results[field := Checked(invalidCount, totalCount)];
    }
    assert HarFields[..|HarFields|] == HarFields;
  }

  // ---------------------------------------------------------------------
  // CSV export and the tracking field
  // ---------------------------------------------------------------------

  /** One CSV line: a row's values of the header fields, in header order. */
  function CsvLine(row: map<string, Value>, header: seq<string>): (line: seq<Value>)
    requires forall j :: 0 <= j < |header| ==> header[j] in row
    ensures |line| == |header|
    ensures forall j :: 0 <= j < |header| ==> line[j] == row[header[j]]
  {
    seq(|header|, j requires 0 <= j < |header| => row[header[j]])
  }

  /** Every row of a well-formed table has a value for every field of the
      table. */
  lemma FieldsInEveryRow(fields: seq<string>, rows: seq<map<string, Value>>, header: seq<string>)
    requires WellFormed(fields, rows)
    requires forall f :: f in header ==> f in fields
    ensures forall i, j :: 0 <= i < |rows| && 0 <= j < |header| ==> header[j] in rows[i]
  {
    forall i, j | 0 <= i < |rows| && 0 <= j < |header|
      ensures header[j] in rows[i]
    {
      assert header[j] in fields;
      assert rows[i].Keys == set f | f in fields;
    }
  }

  /** `export_summary_csv`'s rows: the header is the requested fields that
      exist, in requested order, and each line holds a row's values of
      those fields. */
  method ExportSummaryCsv(fields: seq<string>, rows: seq<map<string, Value>>, fieldsToExport: seq<string>)
      returns (header: seq<string>, lines: seq<seq<Value>>)
    requires WellFormed(fields, rows)
    ensures header == KeepPresent(fieldsToExport, fields)
    ensures forall f :: f in header <==> f in fieldsToExport && f in fields
    ensures |lines| == |rows|
    ensures forall i :: 0 <= i < |rows| ==> |lines[i]| == |header|
    ensures forall i, j :: 0 <= i < |rows| && 0 <= j < |header| ==> lines[i][j] == rows[i][header[j]]
  {
    FiltersPartition(fieldsToExport, fields);
    header := KeepPresent(fieldsToExport, fields);
    FieldsInEveryRow(fields, rows, header);
    lines := [];
    for i := 0 to |rows|
      invariant |lines| == i
      invariant forall r :: 0 <= r < i ==> lines[r] == CsvLine(rows[r], header)
    {
      lines := lines + [CsvLine(rows[i], header)];
    }
  }

  /** `add_tracking_field`: the field is added, and when the initial value
      is non-empty every row is set to it; a failed AddField returns False
      and changes nothing. */
  method AddTrackingField(t: Table, fieldName: string, initialValue: string, addSucceeds: bool) returns (ok: bool)
    requires t.Valid()
    modifies t
    ensures t.Valid()
    ensures ok == addSucceeds
    ensures !ok ==> t.fields == old(t.fields) && t.rows == old(t.rows)
    ensures ok ==> fieldName in t.fields && |t.rows| == |old(t.rows)|
    ensures ok && initialValue != "" ==>
      forall i :: 0 <= i < |t.rows| ==> t.rows[i][fieldName] == Str(initialValue)
    ensures ok && initialValue == "" ==>
      t.rows == (if fieldName in old(t.fields) then old(t.rows) else SetAll(old(t.rows), fieldName, Null))
    ensures forall i, f :: 0 <= i < |t.rows| && f in old(t.fields) && f != fieldName ==>
      f in t.rows[i] && t.rows[i][f] == old(t.rows[i][f])
  {
    ok := t.AddField(fieldName, addSucceeds);
    if !ok {
      return;
    }
    if initialValue != "" {
      var _ := t.FillField(fieldName, Str(initialValue));
    }
  }
}
