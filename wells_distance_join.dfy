/** The wells join that starts the MPAT table: finding each wells dataset's
    TMK field and its distance fields, renaming distance fields to the
    standard names, stamping every record with the processing date, and the
    order in which the steps run and stop. */
module WellsDistanceJoin {
  import opened Values
  import opened Strings
  import opened FeatureTable
  import CommonFunctions

  const TmkCandidates := ["TMK", "TMK9", "TMK_txt", "tmk", "tmk9"]

  // ---------------------------------------------------------------------
  // Step 2: verify the data structure
  // ---------------------------------------------------------------------

  /** The search loop with `break`: the first candidate in the field list. */
  method FindTmkField(fields: seq<string>) returns (tmk: Option<string>)
    ensures tmk == FirstPresent(TmkCandidates, fields)
    ensures tmk.Some? ==> tmk.value in fields && tmk.value in TmkCandidates
  {
    tmk := None;
    var k := 0;
    while k < |TmkCandidates|
      invariant 0 <= k <= |TmkCandidates|
      invariant tmk.None? ==> FirstPresent(TmkCandidates[k..], fields) == FirstPresent(TmkCandidates, fields)
      invariant tmk.Some? ==> tmk == FirstPresent(TmkCandidates, fields) && tmk.value in fields && tmk.value in TmkCandidates
      decreases if tmk.None? then |TmkCandidates| - k else 0
    {
      var candidate := TmkCandidates[k];
      if candidate in fields {
        tmk := Some(candidate);
        break;
      }
      assert TmkCandidates[k..][1..] == TmkCandidates[k + 1..];
      k := k + 1;
    }
    if tmk.None? {
      assert TmkCandidates[k..] == [];
    }
  }

  /** A field is a distance field when its lower-case name contains "dist"
      or "near". */
  predicate IsDistanceField(f: string) {
    Contains(Lower(f), "dist") || Contains(Lower(f), "near")
  }

  /** The distance fields, in field order. */
  function DistanceFields(fields: seq<string>): seq<string>
    decreases |fields|
  {
    if fields == [] then []
    else (if IsDistanceField(fields[0]) then [fields[0]] else []) + DistanceFields(fields[1..])
  }

  lemma {:induction false} DistanceFieldsExactly(fields: seq<string>)
    ensures forall f :: f in DistanceFields(fields) <==> f in fields && IsDistanceField(f)
    ensures |DistanceFields(fields)| <= |fields|
    decreases |fields|
  {
    if fields != [] {
      DistanceFieldsExactly(fields[1..]);
      assert fields == [fields[0]] + fields[1..];
    }
  }

  /** The generated near-table field names are distance fields. */
  lemma NearFieldsAreDistanceFields()
    ensures IsDistanceField("NEAR_DIST") && IsDistanceField("Muni_Dist") && !IsDistanceField("TMK")
  {
    assert Lower("NEAR_DIST")[..4] == "near";
    assert Lower("Muni_Dist")[5..][..4] == "dist";
    assert Lower("Muni_Dist")[1..][1..][1..][1..][1..] == Lower("Muni_Dist")[5..];
  }

  datatype Verification = Verification(success: bool, muniTmk: Option<string>, domesticTmk: Option<string>,
                                       muniDistanceFields: seq<string>, domesticDistanceFields: seq<string>)

  /** `verify_data_structure` over the two field lists. It fails, with no
      TMK fields, when either dataset has no candidate; otherwise it reports
      both TMK fields and both lists of distance fields. */
  method VerifyDataStructure(muniFields: seq<string>, domesticFields: seq<string>) returns (r: Verification)
    ensures r.success <==> FirstPresent(TmkCandidates, muniFields).Some? && FirstPresent(TmkCandidates, domesticFields).Some?
    ensures !r.success ==> r.muniTmk.None? && r.domesticTmk.None?
    ensures r.success ==> r.muniTmk == FirstPresent(TmkCandidates, muniFields)
                          && r.domesticTmk == FirstPresent(TmkCandidates, domesticFields)
    ensures r.success ==> r.muniDistanceFields == DistanceFields(muniFields)
                          && r.domesticDistanceFields == DistanceFields(domesticFields)
  {
    var muniTmk := FindTmkField(muniFields);
    var domesticTmk := FindTmkField(domesticFields);
    if muniTmk.None? || domesticTmk.None? {
      return Verification(false, None, None, [], []);
    }
    r := Verification(true, muniTmk, domesticTmk, DistanceFields(muniFields), DistanceFields(domesticFields));
  }

  // ---------------------------------------------------------------------
  // Step 4: standard field names
  // ---------------------------------------------------------------------

  const MunicipalDistance := "Dist_Municipal_Wells_ft"
  const DomesticDistance := "Dist_Domestic_Wells_ft"

  /** The rename mapping, in the dictionary's insertion order. */
  const RenameMapping := [
    ("NEAR_DIST", MunicipalDistance),
    ("Distance", MunicipalDistance),
    ("Muni_Dist", MunicipalDistance),
    ("NEAR_DIST_1", DomesticDistance),
    ("Distance_1", DomesticDistance),
    ("Domestic_Dist", DomesticDistance)]

  const RenameSources := ["NEAR_DIST", "Distance", "Muni_Dist", "NEAR_DIST_1", "Distance_1", "Domestic_Dist"]

  /** No name is mapped twice, and the sources are the mapping's keys in
      order. */
  lemma RenameMappingKeys()
    ensures forall i, j :: 0 <= i < j < |RenameSources| ==> RenameSources[i] != RenameSources[j]
    ensures |RenameMapping| == |RenameSources|
    ensures forall k :: 0 <= k < |RenameMapping| ==> RenameMapping[k].0 == RenameSources[k]
  {
  }

  const MunicipalSources := ["NEAR_DIST", "Distance", "Muni_Dist"]
  const DomesticSources := ["NEAR_DIST_1", "Distance_1", "Domestic_Dist"]

  /** Each name of `group` mapped to `target`, in order. */
  function Pairs(group: seq<string>, target: string): (r: seq<(string, string)>)
    ensures |r| == |group|
    ensures forall k :: 0 <= k < |group| ==> r[k] == (group[k], target)
  {
    seq(|group|, k requires 0 <= k < |group| => (group[k], target))
  }

  /** The mapping sends three names to each standard name. */
  lemma RenameMappingGroups()
    ensures RenameMapping == Pairs(MunicipalSources, MunicipalDistance) + Pairs(DomesticSources, DomesticDistance)
  {
  }

  /** What the rename loop has done so far: the field list, the rows and
      `renamed_count`. */
  datatype RenameState = RenameState(fields: seq<string>, rows: seq<map<string, Value>>, count: nat)

  /** A successful rename of `from` to `to`, counted. */
  ghost function Moved(st: RenameState, from: string, to: string): (r: RenameState)
    requires WellFormed(st.fields, st.rows) && from in st.fields && (to == from || to !in st.fields)
    ensures WellFormed(r.fields, r.rows)
  {
    RenameKeepsTable(st.fields, st.rows, from, to);
    RenameState(ReplaceEach(st.fields, from, to), RenameInRows(st.rows, from, to), st.count + 1)
  }

  /** One pass of the loop for `from -> to`: a name among the listed
      fields is renamed, and counted, when AlterField goes through, which
      takes a call that does not raise, `from` still a field and `to` not
      another field. */
  ghost function RenameStep(st: RenameState, from: string, to: string, listed: seq<string>, succeeds: bool): (r: RenameState)
    requires WellFormed(st.fields, st.rows)
    ensures WellFormed(r.fields, r.rows)
  {
    if from in listed && succeeds && from in st.fields && (to == from || to !in st.fields) then Moved(st, from, to)
    else st
  }

  /** The loop over `mapping` in order, from `start`, with the names listed
      before the loop deciding which renames are tried. */
  ghost function Renames(mapping: seq<(string, string)>, listed: seq<string>, alterSucceeds: string -> bool,
                         start: RenameState): (r: RenameState)
    requires WellFormed(start.fields, start.rows)
    ensures WellFormed(r.fields, r.rows)
    decreases |mapping|
  {
    if mapping == [] then start
    else
      var (from, to) := mapping[|mapping| - 1];
      RenameStep(Renames(mapping[..|mapping| - 1], listed, alterSucceeds, start), from, to, listed, alterSucceeds(from))
  }

  /** Running two mappings one after the other is running their
      concatenation. */
  lemma {:induction false} RenamesAppend(a: seq<(string, string)>, b: seq<(string, string)>, listed: seq<string>,
                                         alterSucceeds: string -> bool, start: RenameState)
    requires WellFormed(start.fields, start.rows)
    ensures Renames(a + b, listed, alterSucceeds, start) ==
      Renames(b, listed, alterSucceeds, Renames(a, listed, alterSucceeds, start))
    decreases |b|
  {
    if b == [] {
      assert a + b == a;
    } else {
      RenamesAppend(a, b[..|b| - 1], listed, alterSucceeds, start);
      assert (a + b)[..|a + b| - 1] == a + b[..|b| - 1];
      assert (a + b)[|a + b| - 1] == b[|b| - 1];
    }
  }

  /** The first name of `group` that was listed and whose AlterField call
      goes through. */
  function FirstRenamed(group: seq<string>, listed: seq<string>, alterSucceeds: string -> bool): (r: Option<string>)
    ensures r.None? <==> forall k :: 0 <= k < |group| ==> !(group[k] in listed && alterSucceeds(group[k]))
    ensures r.Some? ==> r.value in group && r.value in listed && alterSucceeds(r.value)
    decreases |group|
  {
    if group == [] then None
    else
      var init, last := group[..|group| - 1], group[|group| - 1];
      assert forall k :: 0 <= k < |init| ==> init[k] == group[k];
      if FirstRenamed(init, listed, alterSucceeds).Some? then FirstRenamed(init, listed, alterSucceeds)
      else if last in listed && alterSucceeds(last) then Some(last)
      else None
  }

  /** Names sharing one target, as the loop leaves them: while the target
      is free, the first listed name whose rename goes through takes it, and
      every later rename fails because the target is then taken. When the
      target is already a field nothing is renamed. */
  ghost function TakeStandard(st: RenameState, group: seq<string>, target: string, listed: seq<string>,
                              alterSucceeds: string -> bool): (r: RenameState)
    requires WellFormed(st.fields, st.rows)
    requires forall g :: g in group && g in listed ==> g in st.fields
    ensures WellFormed(r.fields, r.rows)
  {
    var first := FirstRenamed(group, listed, alterSucceeds);
    if target !in st.fields && first.Some? then Moved(st, first.value, target) else st
  }

  /** What one group's renames do: the target becomes a field exactly when
      it was one or some listed name of the group is renamed without error,
      the count rises by one when the target is created, the new column
      holds the renamed name's values, and every field outside the group
      and other than the target keeps its presence and its values. */
  lemma TakeStandardFacts(st: RenameState, group: seq<string>, target: string, listed: seq<string>,
                          alterSucceeds: string -> bool)
    requires WellFormed(st.fields, st.rows) && target !in group
    requires forall g :: g in group && g in listed ==> g in st.fields
    ensures var first, r := FirstRenamed(group, listed, alterSucceeds), TakeStandard(st, group, target, listed, alterSucceeds);
      && |r.rows| == |st.rows|
      && r.count == st.count + (if target !in st.fields && first.Some? then 1 else 0)
      && (target in r.fields <==> target in st.fields || first.Some?)
      && (forall f :: f != target && f !in group ==> (f in r.fields <==> f in st.fields))
      && (target !in st.fields && first.Some? ==>
            forall i :: 0 <= i < |st.rows| ==> target in r.rows[i] && first.value in st.rows[i] && r.rows[i][target] == st.rows[i][first.value])
      && (forall i, f :: 0 <= i < |st.rows| && f in st.fields && f != target && f !in group ==>
            f in r.rows[i] && r.rows[i][f] == st.rows[i][f])
  {
    var first := FirstRenamed(group, listed, alterSucceeds);
    if target !in st.fields && first.Some? {
      RenameKeepsTable(st.fields, st.rows, first.value, target);
    }
  }

  /** The loop over one group's pairs ends as TakeStandard says. */
  lemma {:induction false} GroupRename(group: seq<string>, target: string, listed: seq<string>,
                                       alterSucceeds: string -> bool, st: RenameState)
    requires WellFormed(st.fields, st.rows) && target !in group
    requires forall g :: g in group ==> (g in st.fields <==> g in listed)
    ensures Renames(Pairs(group, target), listed, alterSucceeds, st) == TakeStandard(st, group, target, listed, alterSucceeds)
    decreases |group|
  {
    if group != [] {
      var init, last := group[..|group| - 1], group[|group| - 1];
      assert Pairs(group, target)[..|group| - 1] == Pairs(init, target);
      assert forall g :: g in init ==> g in group;
      GroupRename(init, target, listed, alterSucceeds, st);
      var first := FirstRenamed(init, listed, alterSucceeds);
      if target !in st.fields && first.Some? {
        assert target in Moved(st, first.value, target).fields;
      }
    }
  }

  /** The standard names after the loop, group by group: the municipal
      group first, then the domestic one on what it leaves. */
  ghost function CleanupOutcome(fields: seq<string>, rows: seq<map<string, Value>>, alterSucceeds: string -> bool): (r: RenameState)
    requires WellFormed(fields, rows)
    ensures WellFormed(r.fields, r.rows)
  {
    var st := RenameState(fields, rows, 0);
    TakeStandardFacts(st, MunicipalSources, MunicipalDistance, fields, alterSucceeds);
    var mid := TakeStandard(st, MunicipalSources, MunicipalDistance, fields, alterSucceeds);
    assert forall g :: g in DomesticSources ==> g != MunicipalDistance && g !in MunicipalSources;
    TakeStandard(mid, DomesticSources, DomesticDistance, fields, alterSucceeds)
  }

  /** The loop's outcome is the group-by-group one. */
  lemma RenamesByGroup(fields: seq<string>, rows: seq<map<string, Value>>, alterSucceeds: string -> bool)
    requires WellFormed(fields, rows)
    ensures Renames(RenameMapping, fields, alterSucceeds, RenameState(fields, rows, 0)) == CleanupOutcome(fields, rows, alterSucceeds)
  {
    var st := RenameState(fields, rows, 0);
    RenameMappingGroups();
    RenamesAppend(Pairs(MunicipalSources, MunicipalDistance), Pairs(DomesticSources, DomesticDistance), fields, alterSucceeds, st);
    GroupRename(MunicipalSources, MunicipalDistance, fields, alterSucceeds, st);
    TakeStandardFacts(st, MunicipalSources, MunicipalDistance, fields, alterSucceeds);
    var mid := Renames(Pairs(MunicipalSources, MunicipalDistance), fields, alterSucceeds, st);
    assert forall g :: g in DomesticSources ==> g != MunicipalDistance && g !in MunicipalSources;
    GroupRename(DomesticSources, DomesticDistance, fields, alterSucceeds, mid);
  }

  /** What the first `k` passes of the loop keep: every row, every field
      that is not a source name with its values, every later source name
      that was listed, and a count of at most one per listed source. */
  lemma {:induction false} RenamesPrefix(k: nat, listed: seq<string>, alterSucceeds: string -> bool, start: RenameState)
    requires k <= |RenameMapping| && WellFormed(start.fields, start.rows)
    ensures var r := Renames(RenameMapping[..k], listed, alterSucceeds, start);
      && |r.rows| == |start.rows|
      && r.count <= start.count + |CommonFunctions.KeepPresent(RenameSources[..k], listed)|
      && (forall j :: k <= j < |RenameSources| && RenameSources[j] in start.fields ==> RenameSources[j] in r.fields)
      && (forall f :: f in start.fields && f !in RenameSources ==> f in r.fields)
      && (forall i, f :: 0 <= i < |r.rows| && f in start.fields && f !in RenameSources ==>
            f in r.rows[i] && r.rows[i][f] == start.rows[i][f])
  {
    RenameMappingKeys();
    if k > 0 {
      RenamesPrefix(k - 1, listed, alterSucceeds, start);
      CommonFunctions.KeepPresentStep(RenameSources, k - 1, listed);
      assert RenameMapping[..k][..k - 1] == RenameMapping[..k - 1];
      var prev := Renames(RenameMapping[..k - 1], listed, alterSucceeds, start);
      var from, to := RenameMapping[k - 1].0, RenameMapping[k - 1].1;
      if from in listed && alterSucceeds(from) && from in prev.fields && (to == from || to !in prev.fields) {
        RenameKeepsTable(prev.fields, prev.rows, from, to);
      }
    }
  }

  /** The pass for the `k`-th pair extends the first `k` passes, and its
      name, when listed, is still a field for it to rename. */
  lemma RenamesNext(k: nat, listed: seq<string>, alterSucceeds: string -> bool, start: RenameState)
    requires k < |RenameMapping| && WellFormed(start.fields, start.rows) && listed == start.fields
    ensures var prev := Renames(RenameMapping[..k], listed, alterSucceeds, start);
      && (RenameMapping[k].0 in listed ==> RenameMapping[k].0 in prev.fields)
      && Renames(RenameMapping[..k + 1], listed, alterSucceeds, start) ==
           RenameStep(prev, RenameMapping[k].0, RenameMapping[k].1, listed, alterSucceeds(RenameMapping[k].0))
  {
    RenameMappingKeys();
    RenamesPrefix(k, listed, alterSucceeds, start);
    assert RenameMapping[..k + 1][..k] == RenameMapping[..k];
  }

  /** After the loop the municipal distance name is a field exactly when
      it was one already or some municipal name was listed and renamed
      without error, and likewise the domestic one; each standard column
      that the loop creates holds, row by row, the values of the name it
      was renamed from; `renamed_count` is the number of standard names so
      created. */
  lemma {:induction false} CleanupStandardNames(fields: seq<string>, rows: seq<map<string, Value>>, alterSucceeds: string -> bool)
    requires WellFormed(fields, rows)
    ensures var r, muni, dom := CleanupOutcome(fields, rows, alterSucceeds),
                FirstRenamed(MunicipalSources, fields, alterSucceeds), FirstRenamed(DomesticSources, fields, alterSucceeds);
      && (MunicipalDistance in r.fields <==> MunicipalDistance in fields || muni.Some?)
      && (DomesticDistance in r.fields <==> DomesticDistance in fields || dom.Some?)
      && r.count == (if MunicipalDistance !in fields && muni.Some? then 1 else 0)
                  + (if DomesticDistance !in fields && dom.Some? then 1 else 0)
      && |r.rows| == |rows|
      && (MunicipalDistance !in fields && muni.Some? ==>
            forall i :: 0 <= i < |rows| ==> MunicipalDistance in r.rows[i] && muni.value in rows[i] && r.rows[i][MunicipalDistance] == rows[i][muni.value])
      && (DomesticDistance !in fields && dom.Some? ==>
            forall i :: 0 <= i < |rows| ==> DomesticDistance in r.rows[i] && dom.value in rows[i] && r.rows[i][DomesticDistance] == rows[i][dom.value])
  {
    var st := RenameState(fields, rows, 0);
    TakeStandardFacts(st, MunicipalSources, MunicipalDistance, fields, alterSucceeds);
    var mid := TakeStandard(st, MunicipalSources, MunicipalDistance, fields, alterSucceeds);
    assert forall g :: g in DomesticSources ==> g != MunicipalDistance && g !in MunicipalSources;
    assert DomesticDistance != MunicipalDistance && DomesticDistance !in MunicipalSources && MunicipalDistance !in DomesticSources;
    TakeStandardFacts(mid, DomesticSources, DomesticDistance, fields, alterSucceeds);
  }

  /** One pass of the rename loop for `from -> to`: when `from` was listed
      before the loop AlterField is called (its outcome is `succeeds`), and
      a rename that goes through is counted. */
  method RenamePass(t: Table, from: string, to: string, listed: seq<string>, succeeds: bool, count: nat)
    returns (newCount: nat)
    requires t.Valid() && (from in listed ==> from in t.fields)
    modifies t
    ensures t.Valid()
    ensures RenameState(t.fields, t.rows, newCount) ==
      RenameStep(RenameState(old(t.fields), old(t.rows), count), from, to, listed, succeeds)
  {
    ghost var before := RenameState(t.fields, t.rows, count);
    newCount := count;
    if from in listed {
      var ok := t.RenameField(from, to, succeeds);
      if ok {
        newCount := count + 1;
        assert RenameState(t.fields, t.rows, newCount) == Moved(before, from, to);
      }
    }
  }

  /** `cleanup_field_names`: each mapped name that was a field before any
      rename is renamed by AlterField (its outcome per name is given by
      `alterSucceeds`) and counted when that succeeds. The outcome is the
      group-by-group one of CleanupOutcome; at most one rename per mapped
      name present is counted, and every field the mapping does not name
      keeps its name and its values. */
  method CleanupFieldNames(t: Table, alterSucceeds: string -> bool) returns (renamedCount: nat)
    requires t.Valid()
    modifies t
    ensures t.Valid()
    ensures renamedCount <= |CommonFunctions.KeepPresent(RenameSources, old(t.fields))|
    ensures |t.rows| == |old(t.rows)|
    ensures forall f :: f in old(t.fields) && f !in RenameSources ==> f in t.fields
    ensures forall i, f :: 0 <= i < |t.rows| && f in old(t.fields) && f !in RenameSources ==>
      f in t.rows[i] && t.rows[i][f] == old(t.rows[i][f])
    ensures RenameState(t.fields, t.rows, renamedCount) == CleanupOutcome(old(t.fields), old(t.rows), alterSucceeds)
  {
    var fields := t.fields;
    ghost var start := RenameState(fields, t.rows, 0);
    renamedCount := 0;
    RenameMappingKeys();
    for k := 0 to |RenameMapping|
      invariant t.Valid()
      invariant RenameState(t.fields, t.rows, renamedCount) == Renames(RenameMapping[..k], fields, alterSucceeds, start)
    {
      RenamesNext(k, fields, alterSucceeds, start);
      renamedCount := RenamePass(t, RenameMapping[k].0, RenameMapping[k].1, fields, alterSucceeds(RenameMapping[k].0), renamedCount);
    }
    assert RenameSources[..|RenameMapping|] == RenameSources;
    assert RenameMapping[..|RenameMapping|] == RenameMapping;
    RenamesPrefix(|RenameMapping|, fields, alterSucceeds, start);
    RenamesByGroup(fields, old(t.rows), alterSucceeds);
  }

  // ---------------------------------------------------------------------
  // Step 5: processing metadata
  // ---------------------------------------------------------------------

  const ProcessDate := "Process_Date"

  /** `add_metadata`: Process_Date is added only when absent (a failing
      AddField ends the step with False and no change), then every record
      gets the timestamp. */
  method AddMetadata(t: Table, timestamp: string, addSucceeds: bool) returns (ok: bool)
    requires t.Valid()
    modifies t
    ensures t.Valid()
    ensures ok <==> ProcessDate in old(t.fields) || addSucceeds
    ensures !ok ==> t.fields == old(t.fields) && t.rows == old(t.rows)
    ensures ok ==> t.fields == (if ProcessDate in old(t.fields) then old(t.fields) else old(t.fields) + [ProcessDate])
    ensures ok ==> |t.rows| == |old(t.rows)|
    ensures ok ==> forall i :: 0 <= i < |t.rows| ==> t.rows[i] == old(t.rows[i])[ProcessDate := Str(timestamp)]
  {
    if ProcessDate !in t.fields {
      var added := t.AddField(ProcessDate, addSucceeds);
      if !added {
        return false;
      }
    }
    var _ := t.FillField(ProcessDate, Str(timestamp));
    ok := true;
  }

  // ---------------------------------------------------------------------
  // The steps of `main`
  // ---------------------------------------------------------------------

  datatype Step = Import | Verify | Join | Cleanup | Metadata

  /** `main`: the steps run in order; a failed import, verification or join
      stops the run, a failed cleanup or metadata step does not. The
      verification step's outcome is computed from the two field lists; the
      others are given. */
  method RunWellsJoin(importOk: bool, muniFields: seq<string>, domesticFields: seq<string>,
                      joinOk: bool, cleanupOk: bool, metadataOk: bool)
      returns (ran: seq<Step>, completed: bool)
    ensures |ran| >= 1 && ran[0] == Import
    ensures Verify in ran <==> importOk
    ensures Join in ran <==> importOk && FirstPresent(TmkCandidates, muniFields).Some?
                             && FirstPresent(TmkCandidates, domesticFields).Some?
    ensures completed <==> Join in ran && joinOk
    ensures Cleanup in ran <==> completed
    ensures Metadata in ran <==> completed
  {
    ran := [Import];
    completed := false;
    if !importOk {
      return;
    }
    ran := ran + [Verify];
    var verification := VerifyDataStructure(muniFields, domesticFields);
    if !verification.success {
      return;
    }
    ran := ran + [Join];
    if !joinOk {
      return;
    }
    ran := ran + [Cleanup, Metadata];
    completed := true;
  }
}
