/** The clean-slate foundation script: take an inventory of the four data
    sources, remove old foundations, stop unless both wells-distance
    shapefiles are there, copy the municipal wells as the foundation, add the
    24 MPAT framework fields, join the domestic wells on a TMK field, write
    the tracking fields of every record and delete the temporary copies.

    Paths are relative to the project folder. The file system is the set of
    paths that exist, the geodatabase the set of feature class names
    `arcpy.Exists` reports; the outcomes of AddField and JoinField are
    parameters, and so are the timestamp text and the clock. */
module CleanSlateStart {
  import opened Values
  import opened FeatureTable
  import opened MpatFoundation

  /** The data sources checked by the inventory, by display name. */
  const DataSources: seq<(string, string)> := [
    ("Municipal Wells", "data\\gis_downloads\\wells\\statewide\\CPs_Distance_to_Municipal_Wells.shp"),
    ("Domestic Wells", "data\\gis_downloads\\wells\\statewide\\CPs_Distance_to_Domestic_Wells.shp"),
    ("NRCS Soils", "data\\gis_downloads\\soils\\Statewide\\HIstate_nrcs_join2\\HIstate_nrcs_join2.shp"),
    ("TMK Parcels", "data\\tmk_state.shp\\tmk_state.shp")
  ]

  const OldFoundations: seq<string> := ["MPAT_Foundation", "TMK_Foundation_Master", "Foundation_Academic"]

  /** The temporary feature classes the wells shapefiles are copied into. */
  const MunicipalBase := "Municipal_Wells_Base"
  const DomesticJoin := "Domestic_Wells_Join"

  const TmkCandidates: seq<string> := ["TMK", "TMK9", "TMK_txt"]

  /** Processing tracking: the fields the last step writes. */
  const TrackingSpecs: seq<FieldSpec> := [
    FieldSpec("JOIN_LOG", "TEXT", Some(255), "Processing sequence log"),
    FieldSpec("DATA_STATUS", "TEXT", Some(50), "Data completeness status"),
    FieldSpec("CONFIDENCE", "TEXT", Some(20), "Analysis confidence level"),
    FieldSpec("LAST_UPDATED", "DATE", None, "Last processing date")
  ]

  /** Site characteristics for the matrix. */
  const SiteSpecs: seq<FieldSpec> := [
    FieldSpec("SOIL_PERC_RATE", "DOUBLE", None, "Soil percolation rate (min/inch)"),
    FieldSpec("SOIL_HAR_CLASS", "TEXT", Some(20), "HAR 11-62 soil classification"),
    FieldSpec("SLOPE_PERCENT", "DOUBLE", None, "Average slope percentage"),
    FieldSpec("SLOPE_HAR_CLASS", "TEXT", Some(15), "HAR 11-62 slope class"),
    FieldSpec("LOT_SIZE_ACRES", "DOUBLE", None, "Parcel size in acres"),
    FieldSpec("AVAILABLE_AREA", "DOUBLE", None, "Available septic area (sq ft)"),
    FieldSpec("BEDROOMS_COUNT", "SHORT", None, "Number of bedrooms"),
    FieldSpec("ESTIMATED_FLOW", "DOUBLE", None, "Daily wastewater flow (gallons)")
  ]

  /** Regulatory constraints. */
  const RegulatorySpecs: seq<FieldSpec> := [
    FieldSpec("SMA_STATUS", "TEXT", Some(5), "Special Management Area (Y/N)"),
    FieldSpec("FLOOD_ZONE", "TEXT", Some(10), "FEMA flood zone"),
    FieldSpec("GROUNDWATER_DEPTH", "DOUBLE", None, "Depth to groundwater (feet)"),
    FieldSpec("WELLS_1000FT", "TEXT", Some(5), "Within 1000ft of wells (Y/N)"),
    FieldSpec("SHORE_50FT", "TEXT", Some(5), "Within 50ft of shore (Y/N)"),
    FieldSpec("WATER_50FT", "TEXT", Some(5), "Within 50ft of surface water (Y/N)")
  ]

  /** Matrix results. */
  const MatrixSpecs: seq<FieldSpec> := [
    FieldSpec("MATRIX_PROCESSED", "SHORT", None, "Matrix analysis complete (1/0)"),
    FieldSpec("SSPSCRT", "TEXT", Some(255), "Site Specific Suitable Technologies"),
    FieldSpec("LIMITING_FACTORS", "TEXT", Some(255), "Site constraints documentation"),
    FieldSpec("RECOMMENDED_TECH", "TEXT", Some(100), "Primary recommended technology"),
    FieldSpec("ALTERNATIVE_TECH", "TEXT", Some(100), "Alternative technology options"),
    FieldSpec("IMPLEMENTATION", "TEXT", Some(50), "Implementation complexity level")
  ]

  /** The academic MPAT framework fields, in the order they are added. */
  const MpatFields: seq<FieldSpec> := TrackingSpecs + SiteSpecs + RegulatorySpecs + MatrixSpecs

  /** The inventory loop: a source is available exactly when its path
      exists, and is recorded under its display name with its path. */
  method TakeInventory(existing: set<string>) returns (available: map<string, string>)
    ensures forall k :: 0 <= k < |DataSources| ==>
      (DataSources[k].0 in available <==> DataSources[k].1 in existing)
    ensures forall k :: 0 <= k < |DataSources| && DataSources[k].0 in available ==>
      available[DataSources[k].0] == DataSources[k].1
    ensures forall n :: n in available ==> exists k :: 0 <= k < |DataSources| && DataSources[k].0 == n
  {
    available := map[];
    for k := 0 to |DataSources|
      invariant forall j :: 0 <= j < k ==> (DataSources[j].0 in available <==> DataSources[j].1 in existing)
      invariant forall j :: 0 <= j < k && DataSources[j].0 in available ==> available[DataSources[j].0] == DataSources[j].1
      invariant forall j :: k <= j < |DataSources| ==> DataSources[j].0 !in available
      invariant forall n :: n in available ==> exists j :: 0 <= j < k && DataSources[j].0 == n
    {
      var (name, path) := DataSources[k];
      if path in existing {
        available := available[name := path];
      }
    }
  }

  /** Both wells-distance sources were found, the condition for going on. */
  predicate WellsAvailable(available: map<string, string>) {
    "Municipal Wells" in available && "Domestic Wells" in available
  }

  /** The wells status recorded in every record: both wells joined only when
      both sides have a TMK field and the join does not raise. */
  function WellsStatus(foundationTmk: Option<string>, domesticTmk: Option<string>, joinSucceeds: bool): (s: string)
    ensures s == "Both wells joined" <==> foundationTmk.Some? && domesticTmk.Some? && joinSucceeds
    ensures s == "Both wells joined" || s == "Municipal only"
  {
    if foundationTmk.Some? && domesticTmk.Some? && joinSucceeds then "Both wells joined" else "Municipal only"
  }

  const LogPrefix := "Academic Foundation: "
  const LogSeparator := "; Wells: "

  /** The processing log written into every record. */
  function InitLog(timestamp: string, status: string): string {
    LogPrefix + timestamp + LogSeparator + status
  }

  /** The log names the run: it starts with the prefix and the timestamp,
      and the wells status can be read back from behind the separator. */
  lemma InitLogReadBack(timestamp: string, status: string)
    ensures InitLog(timestamp, status)[..|LogPrefix| + |timestamp|] == LogPrefix + timestamp
    ensures InitLog(timestamp, status)[|LogPrefix| + |timestamp| + |LogSeparator|..] == status
  {
    var log := InitLog(timestamp, status);
    assert log == (LogPrefix + timestamp) + (LogSeparator + status);
    assert log == (LogPrefix + timestamp + LogSeparator) + status;
  }

  /** The tracking values written by the cursor, apart from the clock. */
  function TrackingValues(timestamp: string, status: string): map<string, Value> {
    map["JOIN_LOG" := Str(InitLog(timestamp, status)), "DATA_STATUS" := Str(status), "CONFIDENCE" := Str("High")]
  }

  /** The fields the tracking cursor writes. */
  const TrackingFields: set<string> := {"JOIN_LOG", "DATA_STATUS", "CONFIDENCE", "LAST_UPDATED"}

  /** A record as the tracking cursor leaves it. */
  predicate TrackingWritten(r: map<string, Value>, timestamp: string, status: string, now: Value) {
    && "JOIN_LOG" in r && r["JOIN_LOG"] == Str(InitLog(timestamp, status))
    && "DATA_STATUS" in r && r["DATA_STATUS"] == Str(status)
    && "CONFIDENCE" in r && r["CONFIDENCE"] == Str("High")
    && "LAST_UPDATED" in r && r["LAST_UPDATED"] == now
  }

  /** The cursor's update writes the tracking fields and nothing else. */
  lemma TrackedWritesTracking(r: map<string, Value>, timestamp: string, status: string, now: Value)
    ensures TrackingWritten(Tracked(r, TrackingValues(timestamp, status), "LAST_UPDATED", now), timestamp, status, now)
    ensures forall f :: f in r && f !in TrackingFields ==>
      f in Tracked(r, TrackingValues(timestamp, status), "LAST_UPDATED", now) &&
      Tracked(r, TrackingValues(timestamp, status), "LAST_UPDATED", now)[f] == r[f]
  {
  }

  /** No name of the specs starts with 'T', as every TMK candidate does. */
  predicate NoNameStartsWithT(specs: seq<FieldSpec>) {
    forall k :: 0 <= k < |specs| ==> |specs[k].name| > 0 && specs[k].name[0] != 'T'
  }

  lemma NoTNames(a: seq<FieldSpec>, b: seq<FieldSpec>)
    requires NoNameStartsWithT(a) && NoNameStartsWithT(b)
    ensures NoNameStartsWithT(a + b)
  {
    forall k | 0 <= k < |a + b|
      ensures |(a + b)[k].name| > 0 && (a + b)[k].name[0] != 'T'
    {
      if k >= |a| {
        assert (a + b)[k] == b[k - |a|];
      }
    }
  }

  lemma TrackingNamesNoT()
    ensures NoNameStartsWithT(TrackingSpecs)
  {
  }

  lemma SiteNamesNoT()
    ensures NoNameStartsWithT(SiteSpecs)
  {
  }

  lemma RegulatoryNamesNoT()
    ensures NoNameStartsWithT(RegulatorySpecs)
  {
  }

  lemma MatrixNamesNoT()
    ensures NoNameStartsWithT(MatrixSpecs)
  {
  }

  /** The tracking fields come first among the framework fields, and no
      framework field is a TMK candidate. */
  lemma MpatFieldNames()
    ensures MpatFields[0].name == "JOIN_LOG" && MpatFields[1].name == "DATA_STATUS"
    ensures MpatFields[2].name == "CONFIDENCE" && MpatFields[3].name == "LAST_UPDATED"
    ensures forall c :: c in TmkCandidates ==> c !in Names(MpatFields)
  {
    TrackingNamesNoT();
    SiteNamesNoT();
    RegulatoryNamesNoT();
    MatrixNamesNoT();
    NoTNames(TrackingSpecs, SiteSpecs);
    NoTNames(TrackingSpecs + SiteSpecs, RegulatorySpecs);
    NoTNames(TrackingSpecs + SiteSpecs + RegulatorySpecs, MatrixSpecs);
    forall c | c in TmkCandidates
      ensures c !in Names(MpatFields)
    {
      assert |c| > 0 && c[0] == 'T';
    }
  }

  /** Step 4: choose the TMK field on each side and join. The status says
      both wells were joined exactly when both sides have a TMK field and
      JoinField does not raise; the join then appends the domestic fields
      `joinFields` with each record's matched values, and otherwise the
      foundation is unchanged. */
  method JoinDomesticWells(foundation: Table, domesticFields: seq<string>, joinFields: seq<string>,
                           matched: nat -> map<string, Value>, joinSucceeds: bool)
      returns (status: string)
    requires foundation.Valid() && forall f :: f in joinFields ==> f !in foundation.fields
    modifies foundation
    ensures foundation.Valid()
    ensures status == WellsStatus(FirstPresent(TmkCandidates, old(foundation.fields)),
                                  FirstPresent(TmkCandidates, domesticFields), joinSucceeds)
    ensures status != "Both wells joined" ==> foundation.fields == old(foundation.fields) && foundation.rows == old(foundation.rows)
    ensures status == "Both wells joined" ==> foundation.fields == old(foundation.fields) + joinFields
    ensures |foundation.rows| == |old(foundation.rows)|
    ensures status == "Both wells joined" ==> forall i :: 0 <= i < |foundation.rows| ==>
      foundation.rows[i] == JoinedRow(old(foundation.rows[i]), joinFields, matched(i))
  {
    var foundationTmk, domesticTmk := FindTmkFields(TmkCandidates, foundation.fields, domesticFields);
    status := "Municipal only";
    if foundationTmk.Some? && domesticTmk.Some? {
      var ok := foundation.JoinField(joinFields, matched, joinSucceeds);
      if ok {
        status := "Both wells joined";
      }
    }
  }

  /** The tracking specs have four different names. */
  lemma TrackingAddedNames(addSucceeds: FieldSpec -> bool)
    ensures forall k :: 0 <= k < 4 ==> MpatFields[k] == TrackingSpecs[k]
    ensures forall k :: 0 <= k < 4 ==>
      (TrackingSpecs[k].name in AddedNames(TrackingSpecs, addSucceeds) <==> addSucceeds(AddFieldArguments(TrackingSpecs[k])))
  {
    AddedNamesDistinct(TrackingSpecs, addSucceeds);
  }

  /** No site, regulatory or matrix field has a tracking field's name. */
  lemma OtherNamesNotTracking()
    ensures forall k :: 0 <= k < 4 ==> TrackingSpecs[k].name !in Names(SiteSpecs) + Names(RegulatorySpecs) + Names(MatrixSpecs)
  {
  }

  /** A tracking field is among the added fields exactly when its own
      AddField call succeeded: no other framework field has its name. */
  lemma TrackingAdded(addSucceeds: FieldSpec -> bool)
    ensures forall k :: 0 <= k < 4 ==>
      (MpatFields[k].name in AddedNames(MpatFields, addSucceeds) <==> addSucceeds(AddFieldArguments(MpatFields[k])))
  {
    TrackingAddedNames(addSucceeds);
    OtherNamesNotTracking();
    var ts, ss, rs := TrackingSpecs, TrackingSpecs + SiteSpecs, TrackingSpecs + SiteSpecs + RegulatorySpecs;
    AddedNamesAppend(ts, SiteSpecs, addSucceeds);
    AddedNamesAppend(ss, RegulatorySpecs, addSucceeds);
    AddedNamesAppend(rs, MatrixSpecs, addSucceeds);
    forall k | 0 <= k < 4
      ensures MpatFields[k].name in AddedNames(MpatFields, addSucceeds) <==> addSucceeds(AddFieldArguments(MpatFields[k]))
    {
      var f := ts[k].name;
      assert f !in Names(SiteSpecs) + Names(RegulatorySpecs) + Names(MatrixSpecs);
      assert f !in AddedNames(SiteSpecs, addSucceeds) && f !in AddedNames(RegulatorySpecs, addSucceeds)
        && f !in AddedNames(MatrixSpecs, addSucceeds);
    }
  }

  /** Step 5: the tracking cursor. It raises when a tracking field is
      missing; otherwise every record carries the log, the status, the
      confidence and its own time, and its other fields are as before. */
  method WriteTracking(foundation: Table, timestamp: string, status: string, clock: nat -> Value)
      returns (updateCount: Option<nat>)
    requires foundation.Valid()
    modifies foundation
    ensures foundation.Valid()
    ensures foundation.fields == old(foundation.fields)
    ensures updateCount.Some? <==> forall f :: f in TrackingFields ==> f in foundation.fields
    ensures |foundation.rows| == |old(foundation.rows)|
    ensures updateCount.Some? ==> updateCount.value == |foundation.rows|
    ensures updateCount.Some? ==> forall i :: 0 <= i < |foundation.rows| ==>
      TrackingWritten(foundation.rows[i], timestamp, status, clock(i))
    ensures forall i, f :: 0 <= i < |foundation.rows| && f in old(foundation.rows[i]) && f !in TrackingFields ==>
      f in foundation.rows[i] && foundation.rows[i][f] == old(foundation.rows[i][f])
  {
    var values := TrackingValues(timestamp, status);
    assert values.Keys == {"JOIN_LOG", "DATA_STATUS", "CONFIDENCE"};
    updateCount := InitializeTracking(foundation, values, "LAST_UPDATED", clock);
    if updateCount.Some? {
      forall i | 0 <= i < |foundation.rows|
        ensures TrackingWritten(foundation.rows[i], timestamp, status, clock(i))
        ensures forall f :: f in old(foundation.rows[i]) && f !in TrackingFields ==>
          f in foundation.rows[i] && foundation.rows[i][f] == old(foundation.rows[i][f])
      {
        TrackedWritesTracking(old(foundation.rows[i]), timestamp, status, clock(i));
      }
    }
  }

  /** The tracking cursor finds all its fields exactly when the first four
      framework fields are there. */
  lemma TrackingPresent(fields: seq<string>)
    ensures (forall f :: f in TrackingFields ==> f in fields) <==> forall k :: 0 <= k < 4 ==> MpatFields[k].name in fields
  {
    MpatFieldNames();
  }

  /** The foundation as written is a shapefile. Every field it holds (the
      copied ones, the added ones cut to ten characters, the joined ones)
      has a name of at most ten characters, and AddField stores DATA_STATUS
      as DATA_STATU and LAST_UPDATED as LAST_UPDAT. So whatever AddField
      and JoinField do, the tracking cursor does not find its fields and
      the run stops there, where AcademicSteps, whose table keeps names
      whole, finishes. */
  lemma ShapefileTrackingMissing(fields: seq<string>, addSucceeds: FieldSpec -> bool)
    requires forall f :: f in fields ==> |f| <= ShapefileNameLimit
    ensures addSucceeds(AddFieldArguments(MpatFields[1])) ==> "DATA_STATU" in ShapefileAddedNames(MpatFields, addSucceeds)
    ensures addSucceeds(AddFieldArguments(MpatFields[3])) ==> "LAST_UPDAT" in ShapefileAddedNames(MpatFields, addSucceeds)
    ensures !(forall f :: f in TrackingFields ==> f in fields)
    ensures !(forall k :: 0 <= k < 4 ==> MpatFields[k].name in fields)
  {
    MpatFieldNames();
    assert ShapefileFieldName(MpatFields[1].name) == "DATA_STATU";
    assert ShapefileFieldName(MpatFields[3].name) == "LAST_UPDAT";
    assert |"DATA_STATUS"| > ShapefileNameLimit;
  }

  /** Steps 3 and 4 on the foundation copy: add the MPAT fields and join
      the domestic wells. The join is decided on the foundation's fields as
      they were copied, since none of the added fields is a TMK candidate.
      A tracking field is there afterwards exactly when it was on the copy
      or its AddField call succeeded. */
  method AddAndJoin(foundation: Table, domesticFields: seq<string>, addSucceeds: FieldSpec -> bool,
                    joinFields: seq<string>, matched: nat -> map<string, Value>, joinSucceeds: bool)
      returns (fieldsAdded: nat, status: string)
    requires foundation.Valid()
    requires forall f :: f in joinFields ==> f !in foundation.fields && f !in Names(MpatFields)
    modifies foundation
    ensures foundation.Valid()
    ensures fieldsAdded == SuccessCount(MpatFields, addSucceeds) <= |MpatFields|
    ensures status == WellsStatus(FirstPresent(TmkCandidates, old(foundation.fields)),
                                  FirstPresent(TmkCandidates, domesticFields), joinSucceeds)
    ensures forall f :: f in foundation.fields <==>
      f in old(foundation.fields) || f in AddedNames(MpatFields, addSucceeds) || (status == "Both wells joined" && f in joinFields)
    ensures forall k :: 0 <= k < 4 ==> (MpatFields[k].name in foundation.fields <==>
      MpatFields[k].name in old(foundation.fields) || addSucceeds(AddFieldArguments(MpatFields[k])))
    ensures |foundation.rows| == |old(foundation.rows)|
    ensures forall i, f :: 0 <= i < |foundation.rows| && f in old(foundation.fields) ==>
      f in foundation.rows[i] && foundation.rows[i][f] == old(foundation.rows[i][f])
    ensures status == "Both wells joined" ==> forall i, f :: 0 <= i < |foundation.rows| && f in joinFields ==>
      f in foundation.rows[i] && foundation.rows[i][f] == (if f in matched(i) then matched(i)[f] else Null)
  {
    var copied := foundation.fields;
    fieldsAdded := AddFields(foundation, MpatFields, addSucceeds);
    MpatFieldNames();
    FirstPresentUnaffected(TmkCandidates, copied, foundation.fields, Names(MpatFields));
    ghost var added := foundation.rows;
    status := JoinDomesticWells(foundation, domesticFields, joinFields, matched, joinSucceeds);
    TrackingAdded(addSucceeds);
    assert forall k :: 0 <= k < 4 ==> Names(MpatFields)[k] == MpatFields[k].name;
    if status == "Both wells joined" {
      forall i, f | 0 <= i < |foundation.rows| && f in joinFields
        ensures f in foundation.rows[i] && foundation.rows[i][f] == (if f in matched(i) then matched(i)[f] else Null)
      {
        assert f in JoinedRow(added[i], joinFields, matched(i));
      }
    }
  }

  /** Steps 3 to 5: add the MPAT fields, join the domestic wells, and write
      the tracking fields. Writing the tracking fields raises, and nothing
      catches it, exactly when one of them was neither on the copy nor
      added. The fields afterwards are the copied ones, the added ones and,
      after a join, the joined ones. */
  method AcademicSteps(foundation: Table, domesticFields: seq<string>, addSucceeds: FieldSpec -> bool,
                       joinFields: seq<string>, matched: nat -> map<string, Value>, joinSucceeds: bool,
                       timestamp: string, clock: nat -> Value)
      returns (end: ScriptEnd, fieldsAdded: nat, status: string, updateCount: Option<nat>)
    requires foundation.Valid()
    requires forall f :: f in joinFields ==> f !in foundation.fields && f !in Names(MpatFields)
    modifies foundation
    ensures foundation.Valid()
    ensures end != Exited
    ensures fieldsAdded == SuccessCount(MpatFields, addSucceeds) <= |MpatFields|
    ensures status == WellsStatus(FirstPresent(TmkCandidates, old(foundation.fields)),
                                  FirstPresent(TmkCandidates, domesticFields), joinSucceeds)
    ensures end == Finished <==> updateCount.Some?
    ensures end == Finished <==> forall k :: 0 <= k < 4 ==>
      MpatFields[k].name in old(foundation.fields) || addSucceeds(AddFieldArguments(MpatFields[k]))
    ensures forall f :: f in foundation.fields <==>
      f in old(foundation.fields) || f in AddedNames(MpatFields, addSucceeds) || (status == "Both wells joined" && f in joinFields)
    ensures |foundation.rows| == |old(foundation.rows)|
    ensures end == Finished ==> updateCount.value == |foundation.rows|
    ensures end == Finished ==> forall i :: 0 <= i < |foundation.rows| ==>
      TrackingWritten(foundation.rows[i], timestamp, status, clock(i))
    ensures forall i, f :: 0 <= i < |foundation.rows| && f in old(foundation.fields) && f !in TrackingFields ==>
      f in foundation.rows[i] && foundation.rows[i][f] == old(foundation.rows[i][f])
    ensures status == "Both wells joined" ==> forall i, f :: 0 <= i < |foundation.rows| && f in joinFields ==>
      f in foundation.rows[i] && foundation.rows[i][f] == (if f in matched(i) then matched(i)[f] else Null)
  {
    assert forall f :: f in joinFields ==> f !in TrackingFields by {
      MpatFieldNames();
      assert forall k :: 0 <= k < 4 ==> Names(MpatFields)[k] == MpatFields[k].name;
    }
    fieldsAdded, status := AddAndJoin(foundation, domesticFields, addSucceeds, joinFields, matched, joinSucceeds);
    TrackingPresent(foundation.fields);
    updateCount := WriteTracking(foundation, timestamp, status, clock);
    end := if updateCount.Some? then Finished else Crashed;
  }

  /** The whole script. It exits before touching the foundation when a
      wells source is missing; otherwise the temporary copies are added to
      the geodatabase and, when the run reaches its end, deleted again. */
  method RunCleanSlate(existing: set<string>, gdb: set<string>, foundation: Table, domesticFields: seq<string>,
                       addSucceeds: FieldSpec -> bool, joinFields: seq<string>, matched: nat -> map<string, Value>,
                       joinSucceeds: bool, timestamp: string, clock: nat -> Value)
      returns (end: ScriptEnd, available: map<string, string>, gdbAfter: set<string>, cleaned: nat,
               fieldsAdded: nat, status: string, updateCount: Option<nat>)
    requires foundation.Valid()
    requires forall f :: f in joinFields ==> f !in foundation.fields && f !in Names(MpatFields)
    modifies foundation
    ensures foundation.Valid()
    ensures forall k :: 0 <= k < |DataSources| ==>
      (DataSources[k].0 in available <==> DataSources[k].1 in existing)
    ensures cleaned == |gdb * NameSet(OldFoundations)|
    ensures end == Exited <==> !WellsAvailable(available)
    ensures end == Exited ==> gdbAfter == gdb - NameSet(OldFoundations)
    ensures end == Exited ==> foundation.fields == old(foundation.fields) && foundation.rows == old(foundation.rows)
    ensures end == Crashed ==> gdbAfter == gdb - NameSet(OldFoundations) + {MunicipalBase, DomesticJoin}
    ensures end == Finished ==> gdbAfter == gdb - NameSet(OldFoundations) - {MunicipalBase, DomesticJoin}
    ensures end != Exited ==> fieldsAdded == SuccessCount(MpatFields, addSucceeds)
    ensures end != Exited ==> status == WellsStatus(FirstPresent(TmkCandidates, old(foundation.fields)),
                                                    FirstPresent(TmkCandidates, domesticFields), joinSucceeds)
    ensures end == Finished <==> updateCount.Some?
    ensures end == Finished ==> forall i :: 0 <= i < |foundation.rows| ==>
      TrackingWritten(foundation.rows[i], timestamp, status, clock(i))
  {
    available := TakeInventory(existing);
    gdbAfter, cleaned := CleanOldFoundations(gdb, OldFoundations);
    DeletedCount(gdb, OldFoundations);
    fieldsAdded, status, updateCount := 0, "", None;
    if !WellsAvailable(available) {
      return Exited, available, gdbAfter, cleaned, fieldsAdded, status, updateCount;
    }
    gdbAfter := gdbAfter + {MunicipalBase, DomesticJoin};
    end, fieldsAdded, status, updateCount :=
      AcademicSteps(foundation, domesticFields, addSucceeds, joinFields, matched, joinSucceeds, timestamp, clock);
    if end == Finished {
      gdbAfter := gdbAfter - {MunicipalBase, DomesticJoin};
    }
  }
}
