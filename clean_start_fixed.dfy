/** The second version of the clean-start script. It runs the same steps on
    the same data sources and fields as the clean-slate script, but when a
    wells source is missing its `else` branch only reports the problem and
    the script carries on: the name of the foundation shapefile was never
    bound, so every AddField call raises a NameError that the loop catches
    (nothing is added), and listing the foundation's fields then raises a
    NameError that nothing catches.

    The run as written is `RunAsWritten`; the intended behaviour, stopping
    before step 3, is the clean-slate script's `RunCleanSlate`. */
module CleanStartFixed {
  import opened Values
  import opened FeatureTable
  import opened MpatFoundation
  import opened CleanSlateStart

  /** The script as written. With both wells sources present it ends as the
      clean-slate script does; without them no field is added, nothing is
      written and the run crashes instead of stopping. */
  method RunAsWritten(existing: set<string>, gdb: set<string>, foundation: Table, domesticFields: seq<string>,
                      addSucceeds: FieldSpec -> bool, joinFields: seq<string>, matched: nat -> map<string, Value>,
                      joinSucceeds: bool, timestamp: string, clock: nat -> Value)
      returns (end: ScriptEnd, available: map<string, string>, gdbAfter: set<string>, cleaned: nat,
               fieldsAdded: nat, status: string, updateCount: Option<nat>)
    requires foundation.Valid()
    requires forall f :: f in joinFields ==> f !in foundation.fields && f !in Names(MpatFields)
    modifies foundation
    ensures foundation.Valid()
    ensures forall k :: 0 <= k < |DataSources| ==>
      (DataSources[k].0 in available <==> DataSources[k].1 in existing)
    ensures cleaned == |gdb * NameSet(OldFoundations)|
    ensures end != Exited
    ensures !WellsAvailable(available) ==> end == Crashed && fieldsAdded == 0 && updateCount.None?
    ensures !WellsAvailable(available) ==> gdbAfter == gdb - NameSet(OldFoundations)
    ensures !WellsAvailable(available) ==>
      foundation.fields == old(foundation.fields) && foundation.rows == old(foundation.rows)
    ensures WellsAvailable(available) && end == Crashed ==>
      gdbAfter == gdb - NameSet(OldFoundations) + {MunicipalBase, DomesticJoin}
    ensures end == Finished ==> gdbAfter == gdb - NameSet(OldFoundations) - {MunicipalBase, DomesticJoin}
    ensures WellsAvailable(available) ==> fieldsAdded == SuccessCount(MpatFields, addSucceeds)
    ensures WellsAvailable(available) ==> status == WellsStatus(FirstPresent(TmkCandidates, old(foundation.fields)),
                                                                FirstPresent(TmkCandidates, domesticFields), joinSucceeds)
    ensures end == Finished <==> updateCount.Some?
    ensures end == Finished ==> forall i :: 0 <= i < |foundation.rows| ==>
      TrackingWritten(foundation.rows[i], timestamp, status, clock(i))
  {
    available := TakeInventory(existing);
    gdbAfter, cleaned := CleanOldFoundations(gdb, OldFoundations);
    DeletedCount(gdb, OldFoundations);
    status, updateCount := "", None;
    if !WellsAvailable(available) {
      // Each AddField names the unbound shapefile and raises; the loop
      // catches it and counts nothing. The foundation was never copied.
      var raises: FieldSpec -> bool := _ => false;
      SuccessCountNone(MpatFields, raises);
      fieldsAdded := AddFields(foundation, MpatFields, raises);
      return Crashed, available, gdbAfter, cleaned, fieldsAdded, status, updateCount;
    }
    gdbAfter := gdbAfter + {MunicipalBase, DomesticJoin};
    end, fieldsAdded, status, updateCount :=
      AcademicSteps(foundation, domesticFields, addSucceeds, joinFields, matched, joinSucceeds, timestamp, clock);
    if end == Finished {
      gdbAfter := gdbAfter - {MunicipalBase, DomesticJoin};
    }
  }
}
