/** The per-county reprojection script: for every feature class named
    `Parcels_<County>` whose county has a State Plane zone, reproject it to
    that zone as `<name>_proj` unless it is already there.

    The feature class list is a parameter, and so is each one's current
    WKID as `Describe` reports it. */
module ReprojectParcelsByCounty {
  import opened Values
  import opened Strings

  const ParcelsPrefix := "Parcels_"

  /** The Hawaii State Plane zone of each county. */
  const CountyWkid: map<string, int> := map["Hawaii" := 102661, "Maui" := 102642, "Honolulu" := 102662, "Kauai" := 102643]

  /** The county in a feature class name: the second `_`-separated token. */
  function CountyOf(fc: string): string
    requires StartsWith(fc, ParcelsPrefix)
  {
    ParcelsNameSplits(fc);
    Split(fc, '_')[1]
  }

  /** A name with the prefix has at least two `_`-separated tokens, the
      first being `Parcels`. */
  lemma ParcelsNameSplits(fc: string)
    requires StartsWith(fc, ParcelsPrefix)
    ensures |Split(fc, '_')| >= 2 && Split(fc, '_')[0] == "Parcels"
  {
    assert fc == "Parcels" + ['_'] + fc[|ParcelsPrefix|..];
    SplitFirstToken("Parcels", '_', fc[|ParcelsPrefix|..]);
  }

  /** A name made of the prefix, a county without `_` and anything after a
      further `_` parses back to that county. */
  lemma {:induction false} CountyOfParses(county: string, rest: string)
    requires '_' !in county
    ensures StartsWith(ParcelsPrefix + county + rest, ParcelsPrefix)
    ensures rest == [] || rest[0] == '_' ==> CountyOf(ParcelsPrefix + county + rest) == county
  {
    var fc := ParcelsPrefix + county + rest;
    assert fc[..|ParcelsPrefix|] == ParcelsPrefix;
    assert fc == "Parcels" + ['_'] + (county + rest);
    SplitFirstToken("Parcels", '_', county + rest);
    if rest == [] {
      assert county + rest == county;
      SplitNoSeparator(county, '_');
    } else if rest[0] == '_' {
      assert county + rest == county + ['_'] + rest[1..];
      SplitFirstToken(county, '_', rest[1..]);
    }
  }

  /** What the loop does with one feature class. */
  datatype Decision =
    | NotParcels
    | UnknownCounty(county: string)
    | AlreadyProjected(wkid: int)
    | Reproject(wkid: int, output: string)

  function Decide(fc: string, currentWkid: int): Decision {
    if !StartsWith(fc, ParcelsPrefix) then NotParcels
    else if CountyOf(fc) !in CountyWkid then UnknownCounty(CountyOf(fc))
    else if currentWkid == CountyWkid[CountyOf(fc)] then AlreadyProjected(currentWkid)
    else Reproject(CountyWkid[CountyOf(fc)], fc + "_proj")
  }

  /** A feature class is reprojected exactly when it follows the naming
      convention, its county has a zone, and it is not in that zone yet;
      the output is its name with `_proj` appended. */
  lemma DecideSpec(fc: string, currentWkid: int)
    ensures Decide(fc, currentWkid).Reproject? <==>
      StartsWith(fc, ParcelsPrefix) && CountyOf(fc) in CountyWkid && currentWkid != CountyWkid[CountyOf(fc)]
    ensures Decide(fc, currentWkid).Reproject? ==>
      Decide(fc, currentWkid).output == fc + "_proj" && Decide(fc, currentWkid).wkid in CountyWkid.Values
  {
  }

  /** A projected output of a run is skipped by the next run: it still
      names its county, and it is already in that county's zone. */
  lemma OutputSkippedNextTime(county: string)
    requires county in CountyWkid && '_' !in county
    ensures Decide(ParcelsPrefix + county + "_proj", CountyWkid[county]).AlreadyProjected?
  {
    CountyOfParses(county, "_proj");
  }

  /** A requested reprojection: input, output name and target WKID. */
  datatype Projection = Projection(input: string, output: string, wkid: int)

  /** The reprojections a run asks for, in list order. */
  function Planned(fcs: seq<string>, currentWkid: string -> int): seq<Projection>
    decreases |fcs|
  {
    if fcs == [] then []
    else
      var fc := fcs[|fcs| - 1];
      var d := Decide(fc, currentWkid(fc));
      Planned(fcs[..|fcs| - 1], currentWkid) + (if d.Reproject? then [Projection(fc, d.output, d.wkid)] else [])
  }

  /** Every planned reprojection comes from a listed feature class that
      the decision says to reproject. */
  lemma {:induction false} PlannedFromList(fcs: seq<string>, currentWkid: string -> int)
    ensures forall p :: p in Planned(fcs, currentWkid) ==>
      p.input in fcs && Decide(p.input, currentWkid(p.input)) == Reproject(p.wkid, p.output)
    decreases |fcs|
  {
    if fcs != [] {
      PlannedFromList(fcs[..|fcs| - 1], currentWkid);
    }
  }

  /** The loop over the feature classes with its `continue` skips. */
  method ReprojectByCounty(fcs: seq<string>, currentWkid: string -> int) returns (projections: seq<Projection>)
    ensures projections == Planned(fcs, currentWkid)
    ensures |projections| <= |fcs|
  {
    projections := [];
    for k := 0 to |fcs|
      invariant projections == Planned(fcs[..k], currentWkid)
      invariant |projections| <= k
    {
      assert fcs[..k + 1][..k] == fcs[..k];
      var fc := fcs[k];
      if !StartsWith(fc, ParcelsPrefix) {
        continue;
      }
      var county := CountyOf(fc);
      if county !in CountyWkid {
        continue;
      }
      var wkid := CountyWkid[county];
      if currentWkid(fc) == wkid {
        continue;
      }
      projections := projections + [Projection(fc, fc + "_proj", wkid)];
    }
    assert fcs[..|fcs|] == fcs;
  }
}
