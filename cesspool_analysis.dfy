/** The statewide cesspool prioritisation workflow: joining bedroom counts to
    tax-map-key (TMK) parcels, selecting residential parcels, the wastewater
    sizing rules the workflow attributes to Hawaii Administrative Rules
    Title 11 Chapter 62, the priority score, the island decoded from the TMK,
    and the summaries by island, bedrooms and priority.

    A parcel row holds the attribute fields the workflow reads and writes;
    NULL fields are `None`. The field-calculator expressions become functions,
    and every pass over the feature class updates an array of rows in place. */
module CesspoolAnalysis {
  import opened Values
  import opened Tally

  const GallonsPerBedroomPerDay := 200
  const MinSepticTankSize := 1000
  const MinBedroomsResidential := 1
  const MaxBedrooms := 20
  /** 0.1 acre, in hundredths of an acre. */
  const MinLotSizeHundredthsAcre := 10

  const SmallLot := "<10k sf"
  const MediumLot := "10k-21k sf"
  const LargeLot := ">21k sf"

  datatype Parcel = Parcel(
    tmk: Value,
    bedrooms: Option<int>,
    /** ACRES in hundredths of an acre */
    acres: Option<int>,
    dailyFlow: Option<int>,
    septicSize: Option<int>,
    /** LOT_SIZE_SF in whole square feet */
    lotSizeSf: int,
    lotSizeCat: Option<string>,
    cesspoolReplacement: Option<string>,
    priority: Option<int>,
    island: Option<string>)

  // ---------------------------------------------------------------------
  // Alternative join: dict(zip(TMK, BED_ROOMS)) and the update cursor
  // ---------------------------------------------------------------------

  /** `dict(zip(tmks, bedrooms))` over the CSV rows: a later row with the
      same TMK overwrites an earlier one. */
  function BedroomLookup(csv: seq<(Value, Option<int>)>): map<Value, Option<int>>
    decreases |csv|
  {
    if csv == [] then map[]
    else BedroomLookup(csv[..|csv| - 1])[csv[|csv| - 1].0 := csv[|csv| - 1].1]
  }

  /** The lookup's keys are the CSV's TMKs, and each key holds the bedroom
      count of the last CSV row with that TMK. */
  lemma {:induction false} BedroomLookupLastWins(csv: seq<(Value, Option<int>)>, i: nat)
    requires i < |csv|
    requires forall j :: i < j < |csv| ==> csv[j].0 != csv[i].0
    ensures csv[i].0 in BedroomLookup(csv)
    ensures BedroomLookup(csv)[csv[i].0] == csv[i].1
    decreases |csv|
  {
    if i < |csv| - 1 {
      BedroomLookupLastWins(csv[..|csv| - 1], i);
    }
  }

  /** Only the CSV's TMKs are keys. */
  lemma {:induction false} BedroomLookupKeys(csv: seq<(Value, Option<int>)>, tmk: Value)
    ensures tmk in BedroomLookup(csv) <==> exists j :: 0 <= j < |csv| && csv[j].0 == tmk
    decreases |csv|
  {
    if csv != [] {
      var init := csv[..|csv| - 1];
      BedroomLookupKeys(init, tmk);
      if j :| 0 <= j < |init| && init[j].0 == tmk {
        assert csv[j].0 == tmk;
      }
      if j :| 0 <= j < |csv| && csv[j].0 == tmk {
        if j < |init| {
          assert init[j].0 == tmk;
        }
      }
    }
  }

  /** What the update cursor does to one row. */
  function JoinRow(p: Parcel, lookup: map<Value, Option<int>>): Parcel {
    if p.tmk in lookup then p.(bedrooms := lookup[p.tmk]) else p
  }

  /** The alternative join: each row whose TMK is a lookup key gets that
      key's bedroom count; every other row is left as it was. */
  method JoinBedroomDataAlternative(rows: array<Parcel>, csv: seq<(Value, Option<int>)>)
    modifies rows
    ensures forall i :: 0 <= i < rows.Length ==> rows[i] == JoinRow(old(rows[i]), BedroomLookup(csv))
  {
    var lookup := BedroomLookup(csv);
    for i := 0 to rows.Length
      invariant forall j :: 0 <= j < i ==> rows[j] == JoinRow(old(rows[j]), lookup)
      invariant forall j :: i <= j < rows.Length ==> rows[j] == old(rows[j])
    {
      var row := rows[i];
      if row.tmk in lookup {
        rows[i] := row.(bedrooms := lookup[row.tmk]);
      }
    }
  }

  /** A joined row differs from the original at most in its bedroom count,
      and only when its TMK is in the CSV; then the count is that of the last
      CSV row with the TMK. */
  lemma JoinRowEffect(p: Parcel, csv: seq<(Value, Option<int>)>, i: nat)
    requires i < |csv| && csv[i].0 == p.tmk
    requires forall j :: i < j < |csv| ==> csv[j].0 != p.tmk
    ensures JoinRow(p, BedroomLookup(csv)) == p.(bedrooms := csv[i].1)
  {
    BedroomLookupLastWins(csv, i);
  }

  lemma JoinRowUnmatched(p: Parcel, csv: seq<(Value, Option<int>)>)
    requires forall j :: 0 <= j < |csv| ==> csv[j].0 != p.tmk
    ensures JoinRow(p, BedroomLookup(csv)) == p
  {
    BedroomLookupKeys(csv, p.tmk);
  }

  // ---------------------------------------------------------------------
  // Residential filter
  // ---------------------------------------------------------------------

  /** The where clause `BED_ROOMS >= 1 AND BED_ROOMS <= 20 AND (ACRES >= 0.1
      OR ACRES IS NULL)` under SQL NULL semantics: a NULL bedroom count never
      satisfies a comparison. */
  predicate IsResidential(p: Parcel) {
    && p.bedrooms.Some?
    && MinBedroomsResidential <= p.bedrooms.value <= MaxBedrooms
    && (p.acres.None? || p.acres.value >= MinLotSizeHundredthsAcre)
  }

  /** The selection copied to the residential feature class, in row order. */
  function SelectResidential(rows: seq<Parcel>): (r: seq<Parcel>)
    ensures |r| <= |rows|
    decreases |rows|
  {
    if rows == [] then []
    else (if IsResidential(rows[0]) then [rows[0]] else []) + SelectResidential(rows[1..])
  }

  /** The selection keeps exactly the residential rows, each as often as it
      occurs in the input. */
  lemma {:induction false} SelectResidentialKeepsExactly(rows: seq<Parcel>)
    ensures forall p ::
              multiset(SelectResidential(rows))[p] == (if IsResidential(p) then multiset(rows)[p] else 0)
    decreases |rows|
  {
    if rows != [] {
      SelectResidentialKeepsExactly(rows[1..]);
      assert rows == [rows[0]] + rows[1..];
      assert multiset(rows) == multiset{rows[0]} + multiset(rows[1..]);
    }
  }

  /** Every selected row has a bedroom count between 1 and 20. */
  lemma SelectedHaveBedrooms(rows: seq<Parcel>, p: Parcel)
    requires p in SelectResidential(rows)
    ensures p.bedrooms.Some? && 1 <= p.bedrooms.value <= 20
  {
    SelectResidentialKeepsExactly(rows);
    assert multiset(SelectResidential(rows))[p] > 0;
  }

  // ---------------------------------------------------------------------
  // Wastewater flow and septic tank size
  // ---------------------------------------------------------------------

  /** The field calculator `!BED_ROOMS! * 200`. */
  function DailyFlow(bedrooms: int): int {
    bedrooms * GallonsPerBedroomPerDay
  }

  /** DAILY_FLOW_GAL for every row; the residential selection guarantees
      that no bedroom count is NULL. */
  method CalculateWastewaterFlows(rows: array<Parcel>)
    requires forall i :: 0 <= i < rows.Length ==> rows[i].bedrooms.Some?
    modifies rows
    ensures forall i :: 0 <= i < rows.Length ==>
      rows[i] == old(rows[i]).(dailyFlow := Some(DailyFlow(old(rows[i]).bedrooms.value)))
  {
    forall i | 0 <= i < rows.Length {
      rows[i] := rows[i].(dailyFlow := Some(DailyFlow(rows[i].bedrooms.value)));
    }
  }

  /** Python's `int(x)` for `x == n / d`: truncation toward zero. */
  function TruncDiv(n: int, d: int): int
    requires d > 0
  {
    if n >= 0 then n / d else -((-n) / d)
  }

  /** `row[0] if row[0] else default` for an integer field. */
  function OrDefault(v: Option<int>, default: int): int {
    if v.Some? && v.value != 0 then v.value else default
  }

  /** The septic tank size the update cursor writes: 1000 gallons up to four
      bedrooms, 1250 for five, otherwise `int(1000 + (Q - 800) * 1.25)`
      for the design flow Q, written in quarters so that it is exact. */
  function SepticSize(bedrooms: Option<int>, flow: Option<int>): int {
    var b := OrDefault(bedrooms, 0);
    var q := OrDefault(flow, 0);
    if b <= 4 then MinSepticTankSize
    else if b == 5 then 1250
    else TruncDiv(4 * 1000 + (q - 800) * 5, 4)
  }

  /** The three sizing branches, for a flow of 200 gallons per bedroom:
      1000 for up to four bedrooms (NULL counts as none), 1250 for five, and
      250 gallons per bedroom from six on, which is at least 1500. */
  lemma SepticSizeTable(b: int)
    ensures b <= 4 ==> SepticSize(Some(b), Some(DailyFlow(b))) == 1000
    ensures SepticSize(None, None) == 1000
    ensures b == 5 ==> SepticSize(Some(b), Some(DailyFlow(b))) == 1250
    ensures b >= 6 ==> SepticSize(Some(b), Some(DailyFlow(b))) == 250 * b >= 1500
  {
    if b >= 6 {
      assert 4 * 1000 + (DailyFlow(b) - 800) * 5 == 1000 * b;
    }
  }

  /** With the flow the workflow computes, a larger house never gets a
      smaller tank. */
  lemma SepticSizeMonotone(b1: int, b2: int)
    requires b1 <= b2
    ensures SepticSize(Some(b1), Some(DailyFlow(b1))) <= SepticSize(Some(b2), Some(DailyFlow(b2)))
  {
    SepticSizeTable(b1);
    SepticSizeTable(b2);
  }

  /** The update cursor over BED_ROOMS, DAILY_FLOW_GAL and SEPTIC_SIZE_GAL. */
  method CalculateSepticTankSizes(rows: array<Parcel>)
    modifies rows
    ensures forall i :: 0 <= i < rows.Length ==>
      rows[i] == old(rows[i]).(septicSize := Some(SepticSize(old(rows[i]).bedrooms, old(rows[i]).dailyFlow)))
  {
    for i := 0 to rows.Length
      invariant forall j :: 0 <= j < i ==>
        rows[j] == old(rows[j]).(septicSize := Some(SepticSize(old(rows[j]).bedrooms, old(rows[j]).dailyFlow)))
      invariant forall j :: i <= j < rows.Length ==> rows[j] == old(rows[j])
    {
      var row := rows[i];
      rows[i] := row.(septicSize := Some(SepticSize(row.bedrooms, row.dailyFlow)));
    }
  }

  // ---------------------------------------------------------------------
  // Lot size category and priority score
  // ---------------------------------------------------------------------

  /** `categorize_lot_size` from the field-calculator code block. */
  function LotSizeCategory(lotSf: int): string {
    if lotSf < 10000 then SmallLot
    else if lotSf <= 21000 then MediumLot
    else LargeLot
  }

  /** Every lot size falls in exactly one band, and the bands are the
      intervals below 10000, from 10000 to 21000, and above 21000. */
  lemma LotSizeCategoryBands(lotSf: int)
    ensures LotSizeCategory(lotSf) in {SmallLot, MediumLot, LargeLot}
    ensures LotSizeCategory(lotSf) == SmallLot <==> lotSf < 10000
    ensures LotSizeCategory(lotSf) == MediumLot <==> 10000 <= lotSf <= 21000
    ensures LotSizeCategory(lotSf) == LargeLot <==> lotSf > 21000
  {
  }

  /** LOT_SIZE_CAT and CESSPOOL_REPLACEMENT for every row. */
  method CalculateLotCharacteristics(rows: array<Parcel>)
    modifies rows
    ensures forall i :: 0 <= i < rows.Length ==>
      rows[i] == old(rows[i]).(lotSizeCat := Some(LotSizeCategory(old(rows[i]).lotSizeSf)),
                               cesspoolReplacement := Some("YES"))
  {
    forall i | 0 <= i < rows.Length {
      rows[i] := rows[i].(lotSizeCat := Some(LotSizeCategory(rows[i].lotSizeSf)),
                          cesspoolReplacement := Some("YES"));
    }
  }

  function BedroomPoints(bedrooms: int): int {
    if bedrooms >= 6 then 3
    else if bedrooms >= 4 then 2
    else if bedrooms >= 2 then 1
    else 0
  }

  function LotPoints(lotSf: int): int {
    if lotSf < 10000 then 2
    else if lotSf <= 21000 then 1
    else 0
  }

  /** `calculate_priority(bedrooms, lot_sf)`: base score 5, bedroom and lot
      points, capped at 10. */
  function Priority(bedrooms: int, lotSf: int): int {
    var score := 5 + BedroomPoints(bedrooms) + LotPoints(lotSf);
    if score < 10 then score else 10
  }

  /** The expression's argument: a NULL or zero bedroom count is scored as 1. */
  function PriorityOf(bedrooms: Option<int>, lotSf: int): int {
    Priority(OrDefault(bedrooms, 1), lotSf)
  }

  /** The score lies in 5..10 and the cap at 10 never changes it: the
      uncapped sum is already at most 5 + 3 + 2. */
  lemma PriorityRange(bedrooms: int, lotSf: int)
    ensures 5 <= Priority(bedrooms, lotSf) <= 10
    ensures Priority(bedrooms, lotSf) == 5 + BedroomPoints(bedrooms) + LotPoints(lotSf)
  {
  }

  /** More bedrooms never lower the score, a larger lot never raises it, and
      a missing or zero bedroom count scores like one bedroom. */
  lemma PriorityMonotone(b1: int, b2: int, l1: int, l2: int)
    requires b1 <= b2 && l1 >= l2
    ensures Priority(b1, l1) <= Priority(b2, l2)
    ensures PriorityOf(None, l1) == PriorityOf(Some(0), l1) == Priority(1, l1)
  {
  }

  /** PRIORITY_SCORE for every row. */
  method CalculatePriorityScores(rows: array<Parcel>)
    modifies rows
    ensures forall i :: 0 <= i < rows.Length ==>
      rows[i] == old(rows[i]).(priority := Some(PriorityOf(old(rows[i]).bedrooms, old(rows[i]).lotSizeSf)))
  {
    forall i | 0 <= i < rows.Length {
      rows[i] := rows[i].(priority := Some(PriorityOf(rows[i].bedrooms, rows[i].lotSizeSf)));
    }
  }

  // ---------------------------------------------------------------------
  // Island from the TMK
  // ---------------------------------------------------------------------

  function IslandOfDigit(c: char): string {
    if c == '1' then "Hawaii"
    else if c == '2' then "Maui"
    else if c == '3' then "Honolulu"
    else if c == '4' then "Kauai"
    else "Unknown"
  }

  /** `get_island(tmk)`: the first character of `str(tmk)` names the island
      when the TMK is truthy. */
  function Island(tmk: Value): string {
    if Truthy(tmk) then IslandOfDigit(Display(tmk)[0]) else "Unknown"
  }

  /** A text TMK is decoded by its first character; a NULL or empty TMK, or
      a first character other than 1-4, gives "Unknown". */
  lemma IslandOfText(s: string)
    ensures s == "" ==> Island(Str(s)) == "Unknown"
    ensures s != "" ==> Island(Str(s)) == IslandOfDigit(s[0])
    ensures Island(Null) == "Unknown"
    ensures Island(Str(s)) != "Unknown" <==> s != "" && s[0] in {'1', '2', '3', '4'}
  {
  }

  /** A numeric TMK is decoded by its leading decimal digit; zero and
      negative numbers (whose text starts with '-') give "Unknown". */
  lemma IslandOfNumber(n: int)
    ensures n > 0 ==> Island(Int(n)) == IslandOfDigit(DigitChar(LeadingDigit(n)))
    ensures n <= 0 ==> Island(Int(n)) == "Unknown"
  {
    if n > 0 {
      NatToStringHead(n);
    }
  }

  /** ISLAND for every row. */
  method CalculateIslands(rows: array<Parcel>)
    modifies rows
    ensures forall i :: 0 <= i < rows.Length ==>
      rows[i] == old(rows[i]).(island := Some(Island(old(rows[i]).tmk)))
  {
    forall i | 0 <= i < rows.Length {
      rows[i] := rows[i].(island := Some(Island(rows[i].tmk)));
    }
  }

  // ---------------------------------------------------------------------
  // Summaries
  // ---------------------------------------------------------------------

  /** The ISLAND values the search cursor reads, in row order. */
  function IslandKeys(rows: seq<Parcel>): seq<Option<string>> {
    seq(|rows|, i requires 0 <= i < |rows| => rows[i].island)
  }

  /** The bedroom key of each row: NULL and 0 are tallied under 0. */
  function BedroomKeys(rows: seq<Parcel>): seq<int> {
    seq(|rows|, i requires 0 <= i < |rows| => OrDefault(rows[i].bedrooms, 0))
  }

  /** The priority key of each row: NULL and 0 are tallied under 5. */
  function PriorityKeys(rows: seq<Parcel>): seq<int> {
    seq(|rows|, i requires 0 <= i < |rows| => OrDefault(rows[i].priority, 5))
  }

  /** `summarize_by_island`'s counting loop. */
  method SummarizeByIsland(rows: seq<Parcel>) returns (counts: map<Option<string>, nat>)
    ensures counts == Counts(IslandKeys(rows))
    ensures SumValues(counts) == |rows|
  {
    var keys := IslandKeys(rows);
    counts := map[];
    for i := 0 to |rows|
      invariant counts == Counts(keys[..i])
    {
      var island := rows[i].island;
      CountsStep(keys, i);
      counts := counts[island := (if island in counts then counts[island] else 0) + 1];
    }
    assert keys[..|rows|] == keys;
    CountsSum(keys);
  }

  /** `summarize_by_bedrooms`'s counting loop. */
  method SummarizeByBedrooms(rows: seq<Parcel>) returns (counts: map<int, nat>)
    ensures counts == Counts(BedroomKeys(rows))
    ensures SumValues(counts) == |rows|
  {
    var keys := BedroomKeys(rows);
    counts := map[];
    for i := 0 to |rows|
      invariant counts == Counts(keys[..i])
    {
      var bedrooms := OrDefault(rows[i].bedrooms, 0);
      CountsStep(keys, i);
      counts := counts[bedrooms := (if bedrooms in counts then counts[bedrooms] else 0) + 1];
    }
    assert keys[..|rows|] == keys;
    CountsSum(keys);
  }

  /** `summarize_by_priority`'s counting loop, with its row counter. */
  method SummarizeByPriority(rows: seq<Parcel>) returns (counts: map<int, nat>, count: nat)
    ensures counts == Counts(PriorityKeys(rows))
    ensures SumValues(counts) == count == |rows|
  {
    var keys := PriorityKeys(rows);
    counts, count := map[], 0;
    for i := 0 to |rows|
      invariant counts == Counts(keys[..i])
      invariant count == i
    {
      var priority := OrDefault(rows[i].priority, 5);
      CountsStep(keys, i);
      counts := counts[priority := (if priority in counts then counts[priority] else 0) + 1];
      count := count + 1;
    }
    assert keys[..|rows|] == keys;
    CountsSum(keys);
  }

  /** A row with a NULL bedroom count is tallied under 0, and one with a
      NULL priority under 5. */
  lemma SummaryDefaults(rows: seq<Parcel>, i: nat)
    requires i < |rows|
    ensures rows[i].bedrooms.None? ==> BedroomKeys(rows)[i] == 0 && 0 in Counts(BedroomKeys(rows))
    ensures rows[i].priority.None? ==> PriorityKeys(rows)[i] == 5 && 5 in Counts(PriorityKeys(rows))
  {
    CountsAreOccurrences(BedroomKeys(rows));
    CountsAreOccurrences(PriorityKeys(rows));
  }

  // ---------------------------------------------------------------------
  // CSV export columns
  // ---------------------------------------------------------------------

  const SystemFields := ["OBJECTID", "Shape", "Shape_Length", "Shape_Area"]

  /** The exported columns: every field except the four geometry and
      identifier fields, in field order. */
  function ExportFieldNames(fields: seq<string>): (r: seq<string>)
    decreases |fields|
  {
    if fields == [] then []
    else (if fields[0] in SystemFields then [] else [fields[0]]) + ExportFieldNames(fields[1..])
  }

  lemma {:induction false} ExportFieldNamesExactly(fields: seq<string>)
    ensures forall f :: f in ExportFieldNames(fields) <==> f in fields && f !in SystemFields
    ensures |ExportFieldNames(fields)| <= |fields|
    decreases |fields|
  {
    if fields != [] {
      ExportFieldNamesExactly(fields[1..]);
      assert fields == [fields[0]] + fields[1..];
    }
  }
}
