/** The soil and technology rules the workflow attributes to Hawaii
    Administrative Rules Title 11 Chapter 62: the tail of the seepage-pit
    compatibility check, the per-row flags and LIMITING_FACTORS text of the
    soil processing pass, the disposal-area table, and the count of records
    whose stored classes are valid.

    The slope, percolation and drainage classifiers, the Ksat conversion,
    the septic-tank and aerobic-treatment-unit checks, the start of the
    seepage-pit check, the design flow per bedroom and the table of valid
    classes are not part of this model; they are parameters. */
module HarStandards {
  import opened Values
  import opened Strings
  import opened FeatureTable
  import CommonFunctions

  const PercFast := "<1 min/inch"
  const PercGood := "1-10 min/inch"
  const PercSlow := "10-60 min/inch"
  const PercVerySlow := ">60 min/inch"

  const TooFast := "Percolation too fast for seepage pits"
  const TooSlow := "Percolation too slow for seepage pits"
  const UnknownRate := "Unknown percolation rate"
  const PoorDrainage := "Poor drainage"
  const UnknownDrainage := "Unknown drainage"

  /** What a compatibility check returns: the verdict and the limiting
      factors found, in the order found. */
  datatype Check = Check(compatible: bool, limits: seq<string>)

  // ---------------------------------------------------------------------
  // Seepage-pit check
  // ---------------------------------------------------------------------

  /** The percolation and drainage tests that end the seepage-pit check,
      applied to the verdict and factors the earlier tests produced. */
  function SeepagePitTail(head: Check, percClass: string, drainageClass: string): Check {
    var percLimit :=
      if percClass == PercGood then []
      else if percClass == PercFast then [TooFast]
      else if percClass in [PercVerySlow, PercSlow] then [TooSlow]
      else [UnknownRate];
    var drainageLimit :=
      if drainageClass in ["Good", "Moderate"] then []
      else if drainageClass == "Poor" then [PoorDrainage]
      else [UnknownDrainage];
    Check(head.compatible && percClass == PercGood && drainageClass in ["Good", "Moderate"],
          head.limits + percLimit + drainageLimit)
  }

  /** The tail as the source writes it: `compatible` is cleared and a
      factor appended by each failing test. */
  method CheckSeepagePitTail(head: Check, percClass: string, drainageClass: string) returns (r: Check)
    ensures r == SeepagePitTail(head, percClass, drainageClass)
  {
    var compatible := head.compatible;
    var limitingFactors := head.limits;
    if percClass != PercGood {
      compatible := false;
      if percClass == PercFast {
        limitingFactors := limitingFactors + [TooFast];
      } else if percClass in [PercVerySlow, PercSlow] {
        limitingFactors := limitingFactors + [TooSlow];
      } else {
        limitingFactors := limitingFactors + [UnknownRate];
      }
    }
    if drainageClass !in ["Good", "Moderate"] {
      compatible := false;
      if drainageClass == "Poor" {
        limitingFactors := limitingFactors + [PoorDrainage];
      } else {
        limitingFactors := limitingFactors + [UnknownDrainage];
      }
    }
    r := Check(compatible, limitingFactors);
  }

  /** A seepage pit stays compatible only with percolation of 1-10 min/inch
      and good or moderate drainage; each failing test appends exactly one
      factor, after the earlier ones, naming why it failed. */
  lemma SeepagePitTailFactors(head: Check, percClass: string, drainageClass: string)
    ensures var r := SeepagePitTail(head, percClass, drainageClass);
      && (r.compatible <==> head.compatible && percClass == PercGood && drainageClass in {"Good", "Moderate"})
      && |r.limits| == |head.limits| + (if percClass == PercGood then 0 else 1)
                                      + (if drainageClass in {"Good", "Moderate"} then 0 else 1)
      && r.limits[..|head.limits|] == head.limits
      && (percClass == PercFast ==> r.limits[|head.limits|] == TooFast)
      && (percClass in {PercSlow, PercVerySlow} ==> r.limits[|head.limits|] == TooSlow)
      && (percClass !in {PercFast, PercGood, PercSlow, PercVerySlow} ==> r.limits[|head.limits|] == UnknownRate)
      && (drainageClass == "Poor" ==> r.limits[|r.limits| - 1] == PoorDrainage)
      && (drainageClass !in {"Good", "Moderate", "Poor"} ==> r.limits[|r.limits| - 1] == UnknownDrainage)
  {
  }

  // ---------------------------------------------------------------------
  // LIMITING_FACTORS and the per-row flags
  // ---------------------------------------------------------------------

  /** `list(set(xs))` with each distinct factor once. Python leaves the order
      of a set unspecified; this model keeps first occurrences in order. */
  function Distinct(xs: seq<string>): (r: seq<string>)
    decreases |xs|
  {
    if xs == [] then []
    else
      var rest := Distinct(xs[..|xs| - 1]);
      if xs[|xs| - 1] in rest then rest else rest + [xs[|xs| - 1]]
  }

  /** The distinct factors are exactly the factors, each once. */
  lemma {:induction false} DistinctSpec(xs: seq<string>)
    ensures forall x :: x in Distinct(xs) <==> x in xs
    ensures forall i, j :: 0 <= i < j < |Distinct(xs)| ==> Distinct(xs)[i] != Distinct(xs)[j]
    ensures |Distinct(xs)| <= |xs|
    decreases |xs|
  {
    if xs != [] {
      var init := xs[..|xs| - 1];
      DistinctSpec(init);
      assert xs == init + [xs[|xs| - 1]];
    }
  }

  /** The LIMITING_FACTORS text: "Suitable" when no check found a factor,
      else the distinct factors joined with "; ". */
  function LimitingFactorsText(septic: seq<string>, atu: seq<string>, seepage: seq<string>): string {
    var allLimits := Distinct(septic + atu + seepage);
    if allLimits != [] then Join("; ", allLimits) else "Suitable"
  }

  /** A join of two or more parts holds the separator right after the first part. */
  lemma JoinSeparatorAt(sep: string, parts: seq<string>)
    requires |parts| >= 2 && sep != []
    ensures |parts[0]| < |Join(sep, parts)| && Join(sep, parts)[|parts[0]|] == sep[0]
  {
  }

  /** The text is "Suitable" exactly when all three checks found nothing,
      provided no factor is itself "Suitable"; with two or more distinct
      factors the text holds the separator. */
  lemma {:induction false} LimitingFactorsSuitable(septic: seq<string>, atu: seq<string>, seepage: seq<string>)
    requires forall x :: x in septic + atu + seepage ==> x != "Suitable"
    ensures LimitingFactorsText(septic, atu, seepage) == "Suitable" <==> septic == atu == seepage == []
  {
    var all := septic + atu + seepage;
    var d := Distinct(all);
    DistinctSpec(all);
    if septic == atu == seepage == [] {
      assert all == [];
    } else {
      assert |all| > 0 && all[0] in all;
      assert d != [];
      if |d| == 1 {
        assert Join("; ", d) == d[0];
        assert d[0] in d;
      } else {
        JoinSeparatorAt("; ", d);
      }
    }
  }

  /** `1 if ok else 0`. */
  function Flag(ok: bool): int {
    if ok then 1 else 0
  }

  /** A soil polygon's record in the processed layer. */
  datatype SoilRow = SoilRow(
    slopeR: Option<real>,
    ksatR: Option<real>,
    drainagecl: Option<string>,
    harSlopeClass: Option<string>,
    harPercClass: Option<string>,
    harDrainageClass: Option<string>,
    percRateEst: Option<real>,
    matrixSepticOk: Option<int>,
    matrixAtuOk: Option<int>,
    matrixSeepagePitOk: Option<int>,
    limitingFactors: Option<string>)

  /** The helpers the processing pass calls whose bodies are not part of
      this model. `seepagePitHead` is the seepage-pit check up to its
      percolation test. */
  datatype Rules = Rules(
    classifySlope: Option<real> -> string,
    ksatToPercolationRate: Option<real> -> Option<real>,
    classifyPercolation: Option<real> -> string,
    classifyDrainage: Option<string> -> string,
    checkSeptic: (string, string, string) -> Check,
    checkAtu: (string, string, string) -> Check,
    seepagePitHead: (string, string, string) -> Check)

  /** The seepage-pit check as a whole. */
  function CheckSeepagePit(rules: Rules, slope: string, perc: string, drainage: string): Check {
    SeepagePitTail(rules.seepagePitHead(slope, perc, drainage), perc, drainage)
  }

  /** What the update cursor writes into one row. */
  function ProcessRow(row: SoilRow, rules: Rules): SoilRow {
    var slopeClass := rules.classifySlope(row.slopeR);
    var percRate := rules.ksatToPercolationRate(row.ksatR);
    var percClass := rules.classifyPercolation(percRate);
    var drainageClass := rules.classifyDrainage(row.drainagecl);
    var septic := rules.checkSeptic(slopeClass, percClass, drainageClass);
    var atu := rules.checkAtu(slopeClass, percClass, drainageClass);
    var seepage := CheckSeepagePit(rules, slopeClass, percClass, drainageClass);
    row.(harSlopeClass := Some(slopeClass),
         harPercClass := Some(percClass),
         harDrainageClass := Some(drainageClass),
         percRateEst := percRate,
         matrixSepticOk := Some(Flag(septic.compatible)),
         matrixAtuOk := Some(Flag(atu.compatible)),
         matrixSeepagePitOk := Some(Flag(seepage.compatible)),
         limitingFactors := Some(LimitingFactorsText(septic.limits, atu.limits, seepage.limits)))
  }

  /** Each flag is 1 exactly when its check found the technology compatible
      and 0 otherwise; in particular a seepage-pit flag of 1 means the stored percolation
      class is 1-10 min/inch and the stored drainage good or moderate. The
      input fields are kept. */
  lemma ProcessRowFlags(row: SoilRow, rules: Rules)
    ensures var r := ProcessRow(row, rules);
      && r.matrixSepticOk.Some? && r.matrixAtuOk.Some? && r.matrixSeepagePitOk.Some?
      && r.matrixSepticOk.value in {0, 1} && r.matrixAtuOk.value in {0, 1} && r.matrixSeepagePitOk.value in {0, 1}
      && (r.matrixSepticOk == Some(1) <==> rules.checkSeptic(r.harSlopeClass.value, r.harPercClass.value, r.harDrainageClass.value).compatible)
      && (r.matrixAtuOk == Some(1) <==> rules.checkAtu(r.harSlopeClass.value, r.harPercClass.value, r.harDrainageClass.value).compatible)
      && (r.matrixSeepagePitOk == Some(1) <==> CheckSeepagePit(rules, r.harSlopeClass.value, r.harPercClass.value, r.harDrainageClass.value).compatible)
      && (r.matrixSeepagePitOk == Some(1) ==> r.harPercClass == Some(PercGood) && r.harDrainageClass.value in {"Good", "Moderate"})
      && r.slopeR == row.slopeR && r.ksatR == row.ksatR && r.drainagecl == row.drainagecl
  {
    var r := ProcessRow(row, rules);
    SeepagePitTailFactors(rules.seepagePitHead(r.harSlopeClass.value, r.harPercClass.value, r.harDrainageClass.value),
                          r.harPercClass.value, r.harDrainageClass.value);
  }

  /** The update cursor of `process_soil_har_classifications`, returning
      `processed_count`. */
  method ProcessSoilHarClassifications(rows: array<SoilRow>, rules: Rules) returns (processedCount: nat)
    modifies rows
    ensures processedCount == rows.Length
    ensures forall i :: 0 <= i < rows.Length ==> rows[i] == ProcessRow(old(rows[i]), rules)
  {
    processedCount := 0;
    ghost var before := rows[..];
    for i := 0 to rows.Length
      invariant processedCount == i
      invariant forall j :: 0 <= j < i ==> rows[j] == ProcessRow(before[j], rules)
      invariant forall j :: i <= j < rows.Length ==> rows[j] == before[j]
    {
      var row := rows[i];
      var processed := ProcessRow(row, rules);
      rows[i] := processed;
      processedCount := processedCount + 1;
    }
  }

  // ---------------------------------------------------------------------
  // Disposal area
  // ---------------------------------------------------------------------

  /** The area factor per percolation class; a class with no factor, or not
      in the table, gives none. */
  function AreaFactor(percClass: string): Option<int> {
    if percClass == PercFast then Some(70)
    else if percClass == PercGood then Some(85)
    else if percClass == PercSlow then Some(125)
    else None
  }

  datatype DisposalRequirement = DisposalRequirement(
    bedrooms: int,
    designFlowGpd: int,
    percolationClass: string,
    disposalAreaSqft: real,
    areaFactor: int)

  /** `calculate_disposal_area_requirements`, given the design flow per
      bedroom and the percolation classifier. */
  function DisposalAreaRequirements(numBedrooms: Option<int>, percRate: Option<real>,
                                    gallonsPerBedroom: int, classifyPercolation: Option<real> -> string)
    : Option<DisposalRequirement>
  {
    if numBedrooms.None? || numBedrooms.value <= 0 then None
    else
      var baseFlow := numBedrooms.value * gallonsPerBedroom;
      var percClass := classifyPercolation(percRate);
      var factor := AreaFactor(percClass);
      if factor.None? then None
      else
        Some(DisposalRequirement(numBedrooms.value, baseFlow, percClass,
                                 (baseFlow as real / 100.0) * factor.value as real, factor.value))
  }

  /** There is no requirement for a missing, zero or negative bedroom count,
      or for percolation slower than 60 min/inch or of an unknown class;
      otherwise the area is the design flow in hundreds of gallons times the
      factor 70, 85 or 125, and the result echoes its inputs. */
  lemma DisposalAreaCases(numBedrooms: Option<int>, percRate: Option<real>,
                          gpd: int, classify: Option<real> -> string)
    ensures var r := DisposalAreaRequirements(numBedrooms, percRate, gpd, classify);
      && (r.Some? <==> numBedrooms.Some? && numBedrooms.value > 0
                       && classify(percRate) in {PercFast, PercGood, PercSlow})
      && (r.Some? ==>
            && r.value.bedrooms == numBedrooms.value
            && r.value.designFlowGpd == numBedrooms.value * gpd
            && r.value.percolationClass == classify(percRate)
            && r.value.areaFactor == (if classify(percRate) == PercFast then 70
                                      else if classify(percRate) == PercGood then 85 else 125)
            && r.value.disposalAreaSqft * 100.0 == (numBedrooms.value * gpd * r.value.areaFactor) as real)
  {
  }

  /** With a non-negative design flow per bedroom, a larger house never needs
      a smaller disposal area. */
  lemma DisposalAreaMonotone(b1: int, b2: int, percRate: Option<real>, gpd: int, classify: Option<real> -> string)
    requires 0 < b1 <= b2 && gpd >= 0
    requires DisposalAreaRequirements(Some(b1), percRate, gpd, classify).Some?
    ensures DisposalAreaRequirements(Some(b2), percRate, gpd, classify).Some?
    ensures DisposalAreaRequirements(Some(b1), percRate, gpd, classify).value.disposalAreaSqft
         <= DisposalAreaRequirements(Some(b2), percRate, gpd, classify).value.disposalAreaSqft
  {
    var f := AreaFactor(classify(percRate)).value;
    assert b1 * gpd <= b2 * gpd by {
      assert (b2 - b1) * gpd >= 0;
    }
    assert (b1 * gpd) as real / 100.0 <= (b2 * gpd) as real / 100.0;
  }

  /** The percolation classes from fastest to slowest. */
  function PercolationRank(percClass: string): int {
    if percClass == PercFast then 0 else if percClass == PercGood then 1 else 2
  }

  /** With a non-negative design flow per bedroom, for the same house a
      slower percolation class never needs a smaller disposal area. */
  lemma DisposalAreaSlowerPercolation(b: int, p1: Option<real>, p2: Option<real>, gpd: int, classify: Option<real> -> string)
    requires b > 0 && gpd >= 0
    requires DisposalAreaRequirements(Some(b), p1, gpd, classify).Some?
    requires DisposalAreaRequirements(Some(b), p2, gpd, classify).Some?
    requires PercolationRank(classify(p1)) <= PercolationRank(classify(p2))
    ensures DisposalAreaRequirements(Some(b), p1, gpd, classify).value.disposalAreaSqft
         <= DisposalAreaRequirements(Some(b), p2, gpd, classify).value.disposalAreaSqft
  {
    var base := (b * gpd) as real / 100.0;
    var f1, f2 := AreaFactor(classify(p1)).value, AreaFactor(classify(p2)).value;
    assert f1 <= f2;
    assert base >= 0.0 by {
      assert b * gpd >= 0;
    }
    assert base * f1 as real <= base * f2 as real;
  }

  // ---------------------------------------------------------------------
  // Compliance validation
  // ---------------------------------------------------------------------

  const RequiredFields := [CommonFunctions.HarSlopeField, CommonFunctions.HarPercField, CommonFunctions.HarDrainageField]

  /** The valid classes of each kind, `VALID_CLASSIFICATIONS`. */
  datatype ValidClasses = ValidClasses(slope: seq<string>, percolation: seq<string>, drainage: seq<string>)

  /** A record is valid when all three stored classes are valid. */
  predicate RecordValid(row: map<string, Value>, valid: ValidClasses)
    requires forall f :: f in RequiredFields ==> f in row
  {
    && CommonFunctions.AllowedValue(row[CommonFunctions.HarSlopeField], valid.slope)
    && CommonFunctions.AllowedValue(row[CommonFunctions.HarPercField], valid.percolation)
    && CommonFunctions.AllowedValue(row[CommonFunctions.HarDrainageField], valid.drainage)
  }

  function ValidCount(rows: seq<map<string, Value>>, valid: ValidClasses): (n: nat)
    requires forall i, f :: 0 <= i < |rows| && f in RequiredFields ==> f in rows[i]
    ensures n <= |rows|
    decreases |rows|
  {
    if rows == [] then 0
    else ValidCount(rows[..|rows| - 1], valid) + (if RecordValid(rows[|rows| - 1], valid) then 1 else 0)
  }

  /** All records are valid exactly when the valid count is the record count. */
  lemma {:induction false} ValidCountAll(rows: seq<map<string, Value>>, valid: ValidClasses)
    requires forall i, f :: 0 <= i < |rows| && f in RequiredFields ==> f in rows[i]
    ensures ValidCount(rows, valid) == |rows| <==> forall i :: 0 <= i < |rows| ==> RecordValid(rows[i], valid)
    decreases |rows|
  {
    if rows != [] {
      var init := rows[..|rows| - 1];
      ValidCountAll(init, valid);
      assert forall i :: 0 <= i < |init| ==> init[i] == rows[i];
    }
  }

  /** Counting one more record adds one exactly when that record is valid. */
  lemma ValidCountStep(rows: seq<map<string, Value>>, valid: ValidClasses, i: nat)
    requires i < |rows|
    requires forall k, f :: 0 <= k < |rows| && f in RequiredFields ==> f in rows[k]
    ensures ValidCount(rows[..i + 1], valid) ==
      ValidCount(rows[..i], valid) + (if RecordValid(rows[i], valid) then 1 else 0)
  {
    assert rows[..i + 1][..i] == rows[..i];
  }

  datatype ComplianceReport =
    | MissingFields(missing: seq<string>)
    | Counted(validRecords: nat, invalidRecords: nat)

  /** `validate_har_compliance`: the missing required fields when there are
      any, else the numbers of valid and invalid records. */
  method ValidateHarCompliance(fields: seq<string>, rows: seq<map<string, Value>>, valid: ValidClasses)
      returns (r: ComplianceReport)
    requires WellFormed(fields, rows)
    ensures r.MissingFields? <==> exists f :: f in RequiredFields && f !in fields
    ensures r.MissingFields? ==> r.missing == CommonFunctions.KeepAbsent(RequiredFields, fields)
    ensures r.Counted? ==> r.validRecords + r.invalidRecords == |rows|
    ensures r.Counted? ==> r.validRecords == ValidCount(rows, valid)
  {
    var missingFields := CommonFunctions.KeepAbsent(RequiredFields, fields);
    if missingFields != [] {
      assert missingFields[0] in RequiredFields && missingFields[0] !in fields by {
        CommonFunctions.FiltersPartition(RequiredFields, fields);
        assert missingFields[0] in missingFields;
      }
      return MissingFields(missingFields);
    }
    assert forall f :: f in RequiredFields ==> f in fields by {
      CommonFunctions.FiltersPartition(RequiredFields, fields);
    }
    assert forall k, f :: 0 <= k < |rows| && f in RequiredFields ==> f in rows[k] by {
      forall k, f | 0 <= k < |rows| && f in RequiredFields
        ensures f in rows[k]
      {
        assert rows[k].Keys == set g | g in fields;
      }
    }
    var validRecords, invalidRecords, totalRecords := 0, 0, 0;
    for i := 0 to |rows|
      invariant validRecords == ValidCount(rows[..i], valid)
      invariant validRecords + invalidRecords == totalRecords == i
    {
      ValidCountStep(rows, valid, i);
      totalRecords := totalRecords + 1;
      if RecordValid(rows[i], valid) {
        validRecords := validRecords + 1;
      } else {
        invalidRecords := invalidRecords + 1;
      }
    }
    assert rows[..|rows|] == rows;
    r := Counted(validRecords, invalidRecords);
  }
}
