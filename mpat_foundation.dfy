/** The steps the MPAT foundation scripts share: removing old foundations
    from the geodatabase, adding the framework fields one AddField call at a
    time, choosing each side's TMK field for the wells join, and the update
    cursor that initialises the tracking fields of every record.

    The geodatabase is the set of names `arcpy.Exists` reports; the outcome
    of each AddField call, which is not visible here, is a parameter. */
module MpatFoundation {
  import opened Values
  import opened FeatureTable

  /** The names in a list, as a set. */
  function NameSet(names: seq<string>): (r: set<string>)
    ensures forall n :: n in r <==> n in names
    decreases |names|
  {
    if names == [] then {} else NameSet(names[..|names| - 1]) + {names[|names| - 1]}
  }

  /** `for old_name in old_foundations: if arcpy.Exists(old_name): Delete`,
      counting the deletions. Afterwards no old name remains, and the count
      is the number of deletions made, which `DeletedCount` shows is the
      number of distinct old names that existed. */
  method CleanOldFoundations(gdb: set<string>, oldNames: seq<string>) returns (remaining: set<string>, cleaned: nat)
    ensures remaining == gdb - NameSet(oldNames)
    ensures cleaned == Deleted(gdb, oldNames)
    ensures cleaned <= |oldNames|
  {
    remaining, cleaned := gdb, 0;
    for k := 0 to |oldNames|
      invariant remaining == gdb - NameSet(oldNames[..k])
      invariant cleaned == Deleted(gdb, oldNames[..k])
    {
      var oldName := oldNames[k];
      CleanStep(gdb, oldNames, k);
      if oldName in remaining {
        remaining := remaining - {oldName};
        cleaned := cleaned + 1;
      }
    }
    assert oldNames[..|oldNames|] == oldNames;
    DeletedCount(gdb, oldNames);
  }

  /** The number of deletions the loop makes over `names`: a name is deleted
      when it exists and no earlier entry of the list deleted it. */
  ghost function Deleted(gdb: set<string>, names: seq<string>): nat
    decreases |names|
  {
    if names == [] then 0
    else
      var init, last := names[..|names| - 1], names[|names| - 1];
      Deleted(gdb, init) + (if last in gdb - NameSet(init) then 1 else 0)
  }

  /** One deletion step: the name joins the names handled so far, and the
      name is deleted exactly when it still exists. */
  lemma CleanStep(gdb: set<string>, names: seq<string>, k: nat)
    requires k < |names|
    ensures NameSet(names[..k + 1]) == NameSet(names[..k]) + {names[k]}
    ensures Deleted(gdb, names[..k + 1]) ==
      Deleted(gdb, names[..k]) + (if names[k] in gdb - NameSet(names[..k]) then 1 else 0)
    ensures names[k] in gdb - NameSet(names[..k]) ==>
      gdb - NameSet(names[..k + 1]) == (gdb - NameSet(names[..k])) - {names[k]}
    ensures names[k] !in gdb - NameSet(names[..k]) ==>
      gdb - NameSet(names[..k + 1]) == gdb - NameSet(names[..k])
  {
    assert names[..k + 1][..k] == names[..k];
  }

  /** The deletions are the old names that existed, each counted once, so
      there are no more of them than the list has entries. */
  lemma {:induction false} DeletedCount(gdb: set<string>, names: seq<string>)
    ensures Deleted(gdb, names) == |gdb * NameSet(names)|
    ensures |gdb * NameSet(names)| <= |names|
    decreases |names|
  {
    if names != [] {
      var init, last := names[..|names| - 1], names[|names| - 1];
      DeletedCount(gdb, init);
      if last in gdb - NameSet(init) {
        assert gdb * NameSet(names) == gdb * NameSet(init) + {last};
      } else {
        assert gdb * NameSet(names) == gdb * NameSet(init);
      }
    }
  }

  /** How a foundation script ends: `exit()` called, an exception nothing
      catches, or the last statement reached. */
  datatype ScriptEnd = Exited | Crashed | Finished

  /** A framework field: name, type, length (or None) and alias. */
  datatype FieldSpec = FieldSpec(name: string, fieldType: string, length: Option<int>, alias: string)

  /** The arguments AddField is called with: `field_length` is passed only
      when the spec's length is truthy (not None and not 0). */
  function AddFieldArguments(spec: FieldSpec): (r: FieldSpec)
    ensures r.name == spec.name && r.fieldType == spec.fieldType && r.alias == spec.alias
    ensures r.length.Some? <==> spec.length.Some? && spec.length.value != 0
    ensures r.length.Some? ==> r.length == spec.length
  {
    if spec.length.Some? && spec.length.value != 0 then spec else spec.(length := None)
  }

  /** The names of the specs, in order. */
  function Names(specs: seq<FieldSpec>): (r: seq<string>)
    ensures |r| == |specs|
    ensures forall k :: 0 <= k < |specs| ==> r[k] == specs[k].name
  {
    seq(|specs|, k requires 0 <= k < |specs| => specs[k].name)
  }

  /** Number of specs whose AddField call succeeds. */
  function SuccessCount(specs: seq<FieldSpec>, addSucceeds: FieldSpec -> bool): (n: nat)
    ensures n <= |specs|
    decreases |specs|
  {
    if specs == [] then 0
    else SuccessCount(specs[..|specs| - 1], addSucceeds)
         + (if addSucceeds(AddFieldArguments(specs[|specs| - 1])) then 1 else 0)
  }

  /** The names of the specs whose AddField call succeeds: each of them
      is one of the specs' names. */
  function AddedNames(specs: seq<FieldSpec>, addSucceeds: FieldSpec -> bool): (r: set<string>)
    ensures forall f :: f in r ==> f in Names(specs)
    ensures forall k :: 0 <= k < |specs| && addSucceeds(AddFieldArguments(specs[k])) ==> specs[k].name in r
    decreases |specs|
  {
    if specs == [] then {}
    else
      var init, last := specs[..|specs| - 1], specs[|specs| - 1];
      assert forall k :: 0 <= k < |init| ==> Names(init)[k] == Names(specs)[k];
      AddedNames(init, addSucceeds) + (if addSucceeds(AddFieldArguments(last)) then {last.name} else {})
  }

  /** The names added by two lists of specs in turn are those added by
      each. */
  lemma {:induction false} AddedNamesAppend(a: seq<FieldSpec>, b: seq<FieldSpec>, addSucceeds: FieldSpec -> bool)
    ensures AddedNames(a + b, addSucceeds) == AddedNames(a, addSucceeds) + AddedNames(b, addSucceeds)
    decreases |b|
  {
    if b == [] {
      assert a + b == a;
    } else {
      var init, last := b[..|b| - 1], b[|b| - 1];
      var added := if addSucceeds(AddFieldArguments(last)) then {last.name} else {};
      AddedNamesAppend(a, init, addSucceeds);
      assert (a + b)[..|a + b| - 1] == a + init;
      assert (a + b)[|a + b| - 1] == last;
      assert AddedNames(a + b, addSucceeds) == AddedNames(a + init, addSucceeds) + added;
      assert AddedNames(b, addSucceeds) == AddedNames(init, addSucceeds) + added;
    }
  }

  /** A shapefile keeps its attributes in a dBASE table, whose field names
      hold at most ten characters. */
  const ShapefileNameLimit := 10

  /** The name a shapefile stores for a field added as `name`: the name
      itself when it fits, otherwise its first ten characters. */
  function ShapefileFieldName(name: string): (r: string)
    ensures |r| <= ShapefileNameLimit
    ensures r <= name
    ensures r == name <==> |name| <= ShapefileNameLimit
  {
    if |name| <= ShapefileNameLimit then name else name[..ShapefileNameLimit]
  }

  /** The names the AddField loop leaves on a shapefile. */
  function ShapefileAddedNames(specs: seq<FieldSpec>, addSucceeds: FieldSpec -> bool): (r: set<string>)
    ensures forall f :: f in r ==> |f| <= ShapefileNameLimit
    ensures forall k :: 0 <= k < |specs| && addSucceeds(AddFieldArguments(specs[k])) ==>
      ShapefileFieldName(specs[k].name) in r
  {
    set n | n in AddedNames(specs, addSucceeds) :: ShapefileFieldName(n)
  }

  /** With distinct names, a spec's name is added exactly when its own
      AddField call succeeds. */
  lemma {:induction false} AddedNamesDistinct(specs: seq<FieldSpec>, addSucceeds: FieldSpec -> bool)
    requires forall j, k :: 0 <= j < k < |specs| ==> specs[j].name != specs[k].name
    ensures forall k :: 0 <= k < |specs| ==>
      (specs[k].name in AddedNames(specs, addSucceeds) <==> addSucceeds(AddFieldArguments(specs[k])))
    decreases |specs|
  {
    if specs != [] {
      var init, last := specs[..|specs| - 1], specs[|specs| - 1];
      AddedNamesDistinct(init, addSucceeds);
      forall k | 0 <= k < |init|
        ensures specs[k].name in AddedNames(specs, addSucceeds) <==> addSucceeds(AddFieldArguments(specs[k]))
      {
        assert init[k] == specs[k];
      }
      assert last.name !in Names(init);
    }
  }

  /** The AddField loop with its `fields_added` counter, which counts the
      calls that did not raise. Every field whose call succeeded exists
      afterwards, existing fields and their values stay, and no row is added
      or removed. */
  method AddFields(t: Table, specs: seq<FieldSpec>, addSucceeds: FieldSpec -> bool) returns (fieldsAdded: nat)
    requires t.Valid()
    modifies t
    ensures t.Valid()
    ensures fieldsAdded == SuccessCount(specs, addSucceeds) <= |specs|
    ensures forall k :: 0 <= k < |specs| && addSucceeds(AddFieldArguments(specs[k])) ==> specs[k].name in t.fields
    ensures forall f :: f in old(t.fields) ==> f in t.fields
    ensures forall f :: f in t.fields ==> f in old(t.fields) || f in Names(specs)
    ensures forall f :: f in t.fields <==> f in old(t.fields) || f in AddedNames(specs, addSucceeds)
    ensures fieldsAdded == 0 ==> t.fields == old(t.fields) && t.rows == old(t.rows)
    ensures |t.rows| == |old(t.rows)|
    ensures forall i, f :: 0 <= i < |t.rows| && f in old(t.fields) ==> f in t.rows[i] && t.rows[i][f] == old(t.rows[i][f])
  {
    fieldsAdded := 0;
    for k := 0 to |specs|
      invariant t.Valid()
      invariant fieldsAdded == SuccessCount(specs[..k], addSucceeds)
      invariant forall f :: f in t.fields <==> f in old(t.fields) || f in AddedNames(specs[..k], addSucceeds)
      invariant fieldsAdded == 0 ==> t.fields == old(t.fields) && t.rows == old(t.rows)
      invariant |t.rows| == |old(t.rows)|
      invariant forall i, f :: 0 <= i < |t.rows| && f in old(t.fields) ==> f in t.rows[i] && t.rows[i][f] == old(t.rows[i][f])
    {
      var args := AddFieldArguments(specs[k]);
      assert specs[..k + 1][..k] == specs[..k];
      var ok := t.AddField(args.name, addSucceeds(args));
      if ok {
        fieldsAdded := fieldsAdded + 1;
      }
    }
    assert specs[..|specs|] == specs;
  }

  /** When every AddField call raises, nothing is counted. */
  lemma {:induction false} SuccessCountNone(specs: seq<FieldSpec>, addSucceeds: FieldSpec -> bool)
    requires forall s :: !addSucceeds(s)
    ensures SuccessCount(specs, addSucceeds) == 0
    decreases |specs|
  {
    if specs != [] {
      SuccessCountNone(specs[..|specs| - 1], addSucceeds);
    }
  }

  /** Adding fields none of which is a candidate leaves the candidate search
      over the field list unchanged. */
  lemma {:induction false} FirstPresentUnaffected(candidates: seq<string>, before: seq<string>, after: seq<string>, added: seq<string>)
    requires forall f :: f in before ==> f in after
    requires forall f :: f in after ==> f in before || f in added
    requires forall c :: c in candidates ==> c !in added
    ensures FirstPresent(candidates, after) == FirstPresent(candidates, before)
    decreases |candidates|
  {
    if candidates != [] {
      assert candidates[0] in candidates;
      FirstPresentUnaffected(candidates[1..], before, after, added);
    }
  }

  /** The TMK loop with two flags: one pass over the candidates that keeps,
      for each side, the first candidate among that side's fields. */
  method FindTmkFields(candidates: seq<string>, foundationFields: seq<string>, domesticFields: seq<string>)
      returns (foundationTmk: Option<string>, domesticTmk: Option<string>)
    requires forall k :: 0 <= k < |candidates| ==> candidates[k] != ""
    ensures foundationTmk == FirstPresent(candidates, foundationFields)
    ensures domesticTmk == FirstPresent(candidates, domesticFields)
  {
    foundationTmk, domesticTmk := None, None;
    for k := 0 to |candidates|
      invariant foundationTmk == FirstPresent(candidates[..k], foundationFields)
      invariant domesticTmk == FirstPresent(candidates[..k], domesticFields)
    {
      var candidate := candidates[k];
      assert candidates[..k + 1] == candidates[..k] + [candidate];
      FirstPresentAppend(candidates[..k], candidate, foundationFields);
      FirstPresentAppend(candidates[..k], candidate, domesticFields);
      if candidate in foundationFields && foundationTmk.None? {
        foundationTmk := Some(candidate);
      }
      if candidate in domesticFields && domesticTmk.None? {
        domesticTmk := Some(candidate);
      }
    }
    assert candidates[..|candidates|] == candidates;
  }

  /** Row `r` after the tracking cursor: the constant values written, and the
      clock field set to the time read for that row. */
  function Tracked(r: map<string, Value>, values: map<string, Value>, clockField: string, now: Value): map<string, Value> {
    (r + values)[clockField := now]
  }

  /** An update cursor over the tracking fields that writes `values` into
      every record and the current time (`clock(i)` for the i-th record)
      into `clockField`, counting the records. Opening the cursor raises
      when a field is missing; then nothing is written and there is no
      count. */
  method InitializeTracking(t: Table, values: map<string, Value>, clockField: string, clock: nat -> Value)
      returns (updateCount: Option<nat>)
    requires t.Valid()
    modifies t
    ensures t.Valid()
    ensures t.fields == old(t.fields)
    ensures updateCount.None? <==> !(clockField in t.fields && forall f :: f in values ==> f in t.fields)
    ensures updateCount.None? ==> t.rows == old(t.rows)
    ensures updateCount.Some? ==> updateCount.value == |t.rows| == |old(t.rows)|
    ensures updateCount.Some? ==>
      forall i :: 0 <= i < |t.rows| ==> t.rows[i] == Tracked(old(t.rows[i]), values, clockField, clock(i))
  {
    if !(clockField in t.fields && forall f :: f in values ==> f in t.fields) {
      return None;
    }
    var rows := t.rows;
    var updated: seq<map<string, Value>> := [];
    var count := 0;
    while count < |rows|
      invariant 0 <= count <= |rows|
      invariant |updated| == count
      invariant forall i :: 0 <= i < count ==> updated[i] == Tracked(rows[i], values, clockField, clock(i))
    {
      updated := updated + [Tracked(rows[count], values, clockField, clock(count))];
      count := count + 1;
    }
    assert forall i :: 0 <= i < |updated| ==> updated[i].Keys == rows[i].Keys;
    t.rows := updated;
    updateCount := Some(count);
  }
}
