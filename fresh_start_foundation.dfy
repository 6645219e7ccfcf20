/** The fresh-start foundation script: remove old foundations, import
    whichever wells shapefiles exist into the geodatabase, and, when the
    municipal import is there, copy it as the foundation, add the 15
    academic fields, write the initial tracking values, join the domestic
    wells when their import is there too, and delete the temporary imports.

    Paths are relative to the project folder; the file system is the set of
    paths that exist and the geodatabase the set of names `arcpy.Exists`
    reports. AddField and JoinField outcomes, the timestamp text and the
    clock are parameters. */
module FreshStartFoundation {
  import opened Values
  import opened Strings
  import opened FeatureTable
  import opened MpatFoundation

  const OldFoundations: seq<string> := ["TMK_Foundation_Master", "Foundation_Master", "MPAT_Wells_Joined"]

  const MunicipalShapefile := "data\\gis_downloads\\wells\\statewide\\CPs_Distance_to_Municipal_Wells.shp"
  const DomesticShapefile := "data\\gis_downloads\\wells\\statewide\\CPs_Distance_to_Domestic_Wells.shp"

  /** The geodatabase feature classes the shapefiles are imported as. */
  const MunicipalImport := "Municipal_Wells_Import"
  const DomesticImport := "Domestic_Wells_Import"

  const TmkCandidates: seq<string> := ["TMK", "TMK9", "TMK_txt"]

  /** The academic framework fields, in the order they are added. */
  const AcademicFields: seq<FieldSpec> := [
    FieldSpec("JOIN_LOG", "TEXT", Some(255), "Processing sequence tracking"),
    FieldSpec("DATA_STATUS", "TEXT", Some(50), "Data completion status"),
    FieldSpec("SOIL_CLASS", "TEXT", Some(20), "HAR 11-62 soil classification"),
    FieldSpec("SLOPE_PERCENT", "DOUBLE", None, "Average slope percentage"),
    FieldSpec("SLOPE_CLASS", "TEXT", Some(15), "Slope suitability class"),
    FieldSpec("PERC_RATE", "DOUBLE", None, "Soil percolation rate (min/inch)"),
    FieldSpec("LOT_SIZE_SQFT", "DOUBLE", None, "Lot size in square feet"),
    FieldSpec("AVAILABLE_AREA", "DOUBLE", None, "Available area for septic"),
    FieldSpec("SMA_STATUS", "TEXT", Some(10), "Special Management Area (Y/N)"),
    FieldSpec("FLOOD_ZONE", "TEXT", Some(10), "FEMA flood zone designation"),
    FieldSpec("SSPSCRT", "TEXT", Some(255), "Site Specific Suitable Technologies"),
    FieldSpec("LIMITING_FACTORS", "TEXT", Some(255), "Site constraint documentation"),
    FieldSpec("MATRIX_READY", "SHORT", None, "Ready for Matrix analysis (1/0)"),
    FieldSpec("CONFIDENCE", "TEXT", Some(20), "Data confidence level"),
    FieldSpec("LAST_UPDATED", "DATE", None, "Last processing date")
  ]

  /** The geodatabase after step 2: each shapefile that exists is copied in
      under its import name. */
  function Imported(gdb: set<string>, existing: set<string>): (r: set<string>)
    ensures MunicipalImport in r <==> MunicipalImport in gdb || MunicipalShapefile in existing
    ensures DomesticImport in r <==> DomesticImport in gdb || DomesticShapefile in existing
    ensures gdb <= r <= gdb + {MunicipalImport, DomesticImport}
  {
    gdb + (if MunicipalShapefile in existing then {MunicipalImport} else {})
        + (if DomesticShapefile in existing then {DomesticImport} else {})
  }

  /** The no-field-is-a-TMK-candidate fact the join relies on, and where the
      tracking fields sit among the academic fields. */
  lemma AcademicFieldNames()
    ensures AcademicFields[0].name == "JOIN_LOG" && AcademicFields[1].name == "DATA_STATUS"
    ensures AcademicFields[14].name == "LAST_UPDATED"
    ensures forall c :: c in TmkCandidates ==> c !in Names(AcademicFields)
  {
    assert forall k :: 0 <= k < |AcademicFields| ==> |AcademicFields[k].name| > 0 && AcademicFields[k].name[0] != 'T';
    forall c | c in TmkCandidates
      ensures c !in Names(AcademicFields)
    {
      assert |c| > 0 && c[0] == 'T';
    }
  }

  /** The fifteen academic fields have different names. */
  lemma AcademicNamesDistinct()
    ensures forall j, k :: 0 <= j < k < |AcademicFields| ==> AcademicFields[j].name != AcademicFields[k].name
  {
  }

  /** The foundation as written is a shapefile, so every field it holds has
      a name of at most ten characters; AddField stores DATA_STATUS as
      DATA_STATU and LAST_UPDATED as LAST_UPDAT. Whatever AddField does, the
      initial tracking cursor does not find its three fields and the
      script stops there, where AddAcademicFields, whose table keeps names
      whole, goes on. */
  lemma ShapefileTrackingMissing(fields: seq<string>, addSucceeds: FieldSpec -> bool)
    requires forall f :: f in fields ==> |f| <= ShapefileNameLimit
    ensures addSucceeds(AddFieldArguments(AcademicFields[1])) ==> "DATA_STATU" in ShapefileAddedNames(AcademicFields, addSucceeds)
    ensures addSucceeds(AddFieldArguments(AcademicFields[14])) ==> "LAST_UPDAT" in ShapefileAddedNames(AcademicFields, addSucceeds)
    ensures !("JOIN_LOG" in fields && "DATA_STATUS" in fields && "LAST_UPDATED" in fields)
  {
    AcademicFieldNames();
    assert ShapefileFieldName(AcademicFields[1].name) == "DATA_STATU";
    assert ShapefileFieldName(AcademicFields[14].name) == "LAST_UPDAT";
    assert |"DATA_STATUS"| > ShapefileNameLimit;
  }

  const FoundationPrefix := "Foundation: "
  const DomesticSuffix := "; Domestic wells: "

  /** A record after the initial tracking cursor. */
  predicate InitiallyTracked(r: map<string, Value>, timestamp: string, now: Value) {
    && "JOIN_LOG" in r && r["JOIN_LOG"] == Str(FoundationPrefix + timestamp)
    && "DATA_STATUS" in r && r["DATA_STATUS"] == Str("Municipal wells only")
    && "LAST_UPDATED" in r && r["LAST_UPDATED"] == now
  }

  /** The initial tracking cursor of step 3, which nothing guards: it raises
      when one of its three fields is missing. Otherwise every record is
      marked as holding the municipal wells only, with its own time. */
  method InitialTracking(t: Table, timestamp: string, clock: nat -> Value) returns (ok: bool)
    requires t.Valid()
    modifies t
    ensures t.Valid()
    ensures t.fields == old(t.fields)
    ensures ok <==> "JOIN_LOG" in t.fields && "DATA_STATUS" in t.fields && "LAST_UPDATED" in t.fields
    ensures |t.rows| == |old(t.rows)|
    ensures ok ==> forall i :: 0 <= i < |t.rows| ==> InitiallyTracked(t.rows[i], timestamp, clock(i))
    ensures forall i, f :: 0 <= i < |t.rows| && f in old(t.rows[i]) && f !in {"JOIN_LOG", "DATA_STATUS", "LAST_UPDATED"} ==>
      f in t.rows[i] && t.rows[i][f] == old(t.rows[i][f])
  {
    var values := map["JOIN_LOG" := Str(FoundationPrefix + timestamp), "DATA_STATUS" := Str("Municipal wells only")];
    assert values.Keys == {"JOIN_LOG", "DATA_STATUS"};
    var updateCount := InitializeTracking(t, values, "LAST_UPDATED", clock);
    ok := updateCount.Some?;
  }

  /** The status cursor after a successful join: every record's log gets
      the domestic-wells entry appended to its text, and its status says
      both wells are joined. */
  method AppendDomesticLog(t: Table, timestamp: string)
    requires t.Valid() && "JOIN_LOG" in t.fields && "DATA_STATUS" in t.fields
    modifies t
    ensures t.Valid()
    ensures t.fields == old(t.fields)
    ensures |t.rows| == |old(t.rows)|
    ensures forall i :: 0 <= i < |t.rows| ==>
      t.rows[i] == old(t.rows[i])["JOIN_LOG" := Str(Display(old(t.rows[i])["JOIN_LOG"]) + DomesticSuffix + timestamp)]
                                  ["DATA_STATUS" := Str("Both wells joined")]
  {
    var rows := t.rows;
    var updated: seq<map<string, Value>> := [];
    var i := 0;
    while i < |rows|
      invariant 0 <= i <= |rows|
      invariant |updated| == i
      invariant forall j :: 0 <= j < i ==>
        updated[j] == rows[j]["JOIN_LOG" := Str(Display(rows[j]["JOIN_LOG"]) + DomesticSuffix + timestamp)]
                             ["DATA_STATUS" := Str("Both wells joined")]
    {
      var row := rows[i];
      row := row["JOIN_LOG" := Str(Display(row["JOIN_LOG"]) + DomesticSuffix + timestamp)];
      row := row["DATA_STATUS" := Str("Both wells joined")];
      updated := updated + [row];
      i := i + 1;
    }
    assert forall j :: 0 <= j < |updated| ==> updated[j].Keys == rows[j].Keys;
    t.rows := updated;
  }

  /** The log a record ends with: the foundation entry, followed by the
      domestic-wells entry when the join went through. Both entries carry
      the same timestamp. */
  function FinalLog(timestamp: string, joined: bool): string {
    FoundationPrefix + timestamp + (if joined then DomesticSuffix + timestamp else "")
  }

  /** Appending to an initially tracked record gives the joined log, which
      still starts with the foundation entry. */
  lemma AppendAfterInitial(r: map<string, Value>, timestamp: string, now: Value)
    requires InitiallyTracked(r, timestamp, now)
    ensures Display(r["JOIN_LOG"]) + DomesticSuffix + timestamp == FinalLog(timestamp, true)
    ensures StartsWith(FinalLog(timestamp, true), FinalLog(timestamp, false))
  {
    assert FinalLog(timestamp, true) == FinalLog(timestamp, false) + (DomesticSuffix + timestamp);
  }

  /** Step 4 when the domestic import exists: choose the TMK fields, join,
      and on success append to every record's log. An exception from the
      join is caught, and the records keep the initial values. A join
      appends the domestic fields `joinFields`, each record taking its
      matched values. */
  method JoinDomestic(t: Table, domesticFields: seq<string>, joinFields: seq<string>, matched: nat -> map<string, Value>,
                      joinSucceeds: bool, timestamp: string) returns (joined: bool)
    requires t.Valid() && "JOIN_LOG" in t.fields && "DATA_STATUS" in t.fields
    requires forall f :: f in joinFields ==> f !in t.fields
    modifies t
    ensures t.Valid()
    ensures joined <==> FirstPresent(TmkCandidates, old(t.fields)).Some? && FirstPresent(TmkCandidates, domesticFields).Some?
                        && joinSucceeds
    ensures t.fields == old(t.fields) + (if joined then joinFields else [])
    ensures !joined ==> t.rows == old(t.rows)
    ensures |t.rows| == |old(t.rows)|
    ensures joined ==> forall i :: 0 <= i < |t.rows| ==>
      t.rows[i] == JoinedRow(old(t.rows[i]), joinFields, matched(i))
                     ["JOIN_LOG" := Str(Display(old(t.rows[i])["JOIN_LOG"]) + DomesticSuffix + timestamp)]
                     ["DATA_STATUS" := Str("Both wells joined")]
  {
    var foundationTmk, domesticTmk := FindTmkFields(TmkCandidates, t.fields, domesticFields);
    joined := false;
    if foundationTmk.Some? && domesticTmk.Some? {
      ghost var before := t.rows;
      joined := t.JoinField(joinFields, matched, joinSucceeds);
      if joined {
        assert forall i :: 0 <= i < |t.rows| ==> t.rows[i]["JOIN_LOG"] == before[i]["JOIN_LOG"];
        AppendDomesticLog(t, timestamp);
      }
    }
  }

  /** The records after step 4: a join leaves the matched values in the
      joined fields, and every record ends with the final log and status
      and its own time. */
  lemma FinalRows(tracked: seq<map<string, Value>>, rows: seq<map<string, Value>>, joinFields: seq<string>,
                  matched: nat -> map<string, Value>, timestamp: string, clock: nat -> Value, joined: bool)
    requires |rows| == |tracked|
    requires forall i :: 0 <= i < |tracked| ==> InitiallyTracked(tracked[i], timestamp, clock(i))
    requires forall f :: f in joinFields ==> f != "JOIN_LOG" && f != "DATA_STATUS" && f != "LAST_UPDATED"
    requires !joined ==> rows == tracked
    requires joined ==> forall i :: 0 <= i < |rows| ==>
      && "JOIN_LOG" in tracked[i]
      && rows[i] == JoinedRow(tracked[i], joinFields, matched(i))
                      ["JOIN_LOG" := Str(Display(tracked[i]["JOIN_LOG"]) + DomesticSuffix + timestamp)]
                      ["DATA_STATUS" := Str("Both wells joined")]
    ensures joined ==> forall i, f :: 0 <= i < |rows| && f in joinFields ==>
      f in rows[i] && rows[i][f] == (if f in matched(i) then matched(i)[f] else Null)
    ensures forall i :: 0 <= i < |rows| ==>
      "JOIN_LOG" in rows[i] && rows[i]["JOIN_LOG"] == Str(FinalLog(timestamp, joined)) &&
      "DATA_STATUS" in rows[i] && rows[i]["DATA_STATUS"] == Str(if joined then "Both wells joined" else "Municipal wells only") &&
      "LAST_UPDATED" in rows[i] && rows[i]["LAST_UPDATED"] == clock(i)
  {
    forall i | 0 <= i < |rows|
      ensures "JOIN_LOG" in rows[i] && rows[i]["JOIN_LOG"] == Str(FinalLog(timestamp, joined))
    {
      if joined {
        AppendAfterInitial(tracked[i], timestamp, clock(i));
      } else {
        assert FinalLog(timestamp, false) == FoundationPrefix + timestamp;
      }
    }
  }

  /** Step 3 on the copy of the municipal import: add the academic fields
      and write the initial tracking values. The tracking cursor raises when
      one of its fields could not be added; otherwise every record is
      initially tracked. Adding the fields does not change which TMK field
      the join later finds. */
  method AddAcademicFields(foundation: Table, addSucceeds: FieldSpec -> bool, timestamp: string, clock: nat -> Value)
      returns (ok: bool, fieldsAdded: nat)
    requires foundation.Valid()
    modifies foundation
    ensures foundation.Valid()
    ensures fieldsAdded == SuccessCount(AcademicFields, addSucceeds)
    ensures ok <==> forall k :: k in {0, 1, 14} ==>
      AcademicFields[k].name in old(foundation.fields) || addSucceeds(AddFieldArguments(AcademicFields[k]))
    ensures FirstPresent(TmkCandidates, foundation.fields) == FirstPresent(TmkCandidates, old(foundation.fields))
    ensures forall f :: f in foundation.fields ==> f in old(foundation.fields) || f in Names(AcademicFields)
    ensures |foundation.rows| == |old(foundation.rows)|
    ensures ok ==> "JOIN_LOG" in foundation.fields && "DATA_STATUS" in foundation.fields
    ensures ok ==> forall i :: 0 <= i < |foundation.rows| ==> InitiallyTracked(foundation.rows[i], timestamp, clock(i))
  {
    var copied := foundation.fields;
    fieldsAdded := AddFields(foundation, AcademicFields, addSucceeds);
    AcademicFieldNames();
    FirstPresentUnaffected(TmkCandidates, copied, foundation.fields, Names(AcademicFields));
    AcademicNamesDistinct();
    AddedNamesDistinct(AcademicFields, addSucceeds);
    ok := InitialTracking(foundation, timestamp, clock);
  }

  /** Steps 3 and 4: add the academic fields, write the initial tracking
      values, and join the domestic wells when their import exists. The run
      crashes at the initial tracking cursor exactly when one of its fields
      was neither on the copy nor added; otherwise every record ends with
      the final log and status. */
  method BuildFoundation(foundation: Table, domesticImported: bool, domesticFields: seq<string>,
                         addSucceeds: FieldSpec -> bool, joinFields: seq<string>, matched: nat -> map<string, Value>,
                         joinSucceeds: bool, timestamp: string, clock: nat -> Value)
      returns (end: ScriptEnd, fieldsAdded: nat, joined: bool)
    requires foundation.Valid()
    requires forall f :: f in joinFields ==> f !in foundation.fields && f !in Names(AcademicFields)
    modifies foundation
    ensures foundation.Valid()
    ensures end != Exited
    ensures fieldsAdded == SuccessCount(AcademicFields, addSucceeds)
    ensures end == Finished <==> forall k :: k in {0, 1, 14} ==>
      AcademicFields[k].name in old(foundation.fields) || addSucceeds(AddFieldArguments(AcademicFields[k]))
    ensures joined <==> (end == Finished && domesticImported && FirstPresent(TmkCandidates, old(foundation.fields)).Some?
      && FirstPresent(TmkCandidates, domesticFields).Some? && joinSucceeds)
    ensures |foundation.rows| == |old(foundation.rows)|
    ensures joined ==> forall i, f :: 0 <= i < |foundation.rows| && f in joinFields ==>
      f in foundation.fields && f in foundation.rows[i] && foundation.rows[i][f] == (if f in matched(i) then matched(i)[f] else Null)
    ensures end == Finished ==> forall i :: 0 <= i < |foundation.rows| ==>
      "JOIN_LOG" in foundation.rows[i] && foundation.rows[i]["JOIN_LOG"] == Str(FinalLog(timestamp, joined)) &&
      "DATA_STATUS" in foundation.rows[i] &&
      foundation.rows[i]["DATA_STATUS"] == Str(if joined then "Both wells joined" else "Municipal wells only") &&
      "LAST_UPDATED" in foundation.rows[i] && foundation.rows[i]["LAST_UPDATED"] == clock(i)
  {
    joined := false;
    var ok;
    ok, fieldsAdded := AddAcademicFields(foundation, addSucceeds, timestamp, clock);
    if !ok {
      return Crashed, fieldsAdded, joined;
    }
    ghost var tracked := foundation.rows;
    if domesticImported {
      joined := JoinDomestic(foundation, domesticFields, joinFields, matched, joinSucceeds, timestamp);
    }
    FinalRows(tracked, foundation.rows, joinFields, matched, timestamp, clock, joined);
    end := Finished;
  }

  /** The whole script. A foundation is created exactly when the municipal
      import is in the geodatabase after step 2; a run that reaches its end
      deletes the temporary imports. */
  method RunFreshStart(existing: set<string>, gdb: set<string>, foundation: Table, domesticFields: seq<string>,
                       addSucceeds: FieldSpec -> bool, joinFields: seq<string>, matched: nat -> map<string, Value>,
                       joinSucceeds: bool, timestamp: string, clock: nat -> Value)
      returns (end: ScriptEnd, gdbAfter: set<string>, created: bool, fieldsAdded: nat, joined: bool)
    requires foundation.Valid()
    requires forall f :: f in joinFields ==> f !in foundation.fields && f !in Names(AcademicFields)
    modifies foundation
    ensures foundation.Valid()
    ensures end != Exited
    ensures created <==> MunicipalImport in Imported(gdb - NameSet(OldFoundations), existing)
    ensures !created ==> end == Finished && !joined && gdbAfter == Imported(gdb - NameSet(OldFoundations), existing)
    ensures !created ==> foundation.fields == old(foundation.fields) && foundation.rows == old(foundation.rows)
    ensures created ==> fieldsAdded == SuccessCount(AcademicFields, addSucceeds)
    ensures end == Crashed ==> !joined && gdbAfter == Imported(gdb - NameSet(OldFoundations), existing)
    ensures created && end == Finished ==>
      gdbAfter == Imported(gdb - NameSet(OldFoundations), existing) - {MunicipalImport, DomesticImport}
    ensures joined <==> (created && end == Finished && DomesticImport in Imported(gdb - NameSet(OldFoundations), existing)
      && FirstPresent(TmkCandidates, old(foundation.fields)).Some? && FirstPresent(TmkCandidates, domesticFields).Some?
      && joinSucceeds)
    ensures created && end == Finished ==> forall i :: 0 <= i < |foundation.rows| ==>
      "JOIN_LOG" in foundation.rows[i] && foundation.rows[i]["JOIN_LOG"] == Str(FinalLog(timestamp, joined))
  {
    var cleaned: nat;
    gdbAfter, cleaned := CleanOldFoundations(gdb, OldFoundations);
    if MunicipalShapefile in existing {
      gdbAfter := gdbAfter + {MunicipalImport};
    }
    if DomesticShapefile in existing {
      gdbAfter := gdbAfter + {DomesticImport};
    }
    assert gdbAfter == Imported(gdb - NameSet(OldFoundations), existing);
    created, fieldsAdded, joined := MunicipalImport in gdbAfter, 0, false;
    if !created {
      return Finished, gdbAfter, created, fieldsAdded, joined;
    }
    end, fieldsAdded, joined := BuildFoundation(foundation, DomesticImport in gdbAfter, domesticFields,
                                                addSucceeds, joinFields, matched, joinSucceeds, timestamp, clock);
    if end == Finished {
      gdbAfter := gdbAfter - {MunicipalImport, DomesticImport};
    }
  }
}
