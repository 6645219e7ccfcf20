/** The read-only projection checker: it lists the same candidate
    shapefiles as the fixing checker, reads each `.prj`, and counts the
    files that are ready and those that need reprojecting, without changing
    anything. A `.prj` that is missing or cannot be read is counted in
    neither. */
module ProjectionCheckRobust {
  import opened Values
  import opened Strings
  import opened CheckProjections

  /** This checker's label for a text that needs reprojecting: WGS 1984 is
      looked for before State Plane. */
  function RobustLabel(text: string): Label {
    if Contains(text, "GEOGCS") && !Contains(text, "PROJCS") then Geographic
    else if Contains(text, "WGS_1984") then Wgs84
    else if Contains(text, "State_Plane") then HawaiiStatePlane
    else OtherProjection
  }

  /** The two checkers label a text differently exactly when it is projected
      (or not geographic) and names both State Plane and WGS 1984: then
      this one says WGS84 and the fixing checker says State Plane. */
  lemma LabelsDisagree(text: string)
    ensures RobustLabel(text) != ProjectionLabel(text) <==>
      !(Contains(text, "GEOGCS") && !Contains(text, "PROJCS")) && Contains(text, "WGS_1984") && Contains(text, "State_Plane")
    ensures RobustLabel(text) != ProjectionLabel(text) ==>
      RobustLabel(text) == Wgs84 && ProjectionLabel(text) == HawaiiStatePlane
  {
  }

  /** How this checker classes one shapefile. */
  datatype Finding = IsReady | NeedsFix | NotCounted

  function Classify(shapefile: string, prj: map<string, Option<string>>): Finding
  {
    var prjPath := CompanionAsWritten(shapefile, ".prj");
    if prjPath !in prj || prj[prjPath].None? then NotCounted
    else if Contains(prj[prjPath].value, HarnMarker) then IsReady
    else NeedsFix
  }

  /** How many of the shapefiles are classed `f`. */
  function CountFinding(shapefiles: seq<string>, prj: map<string, Option<string>>, f: Finding): nat
    decreases |shapefiles|
  {
    if shapefiles == [] then 0
    else CountFinding(shapefiles[..|shapefiles| - 1], prj, f)
         + (if Classify(shapefiles[|shapefiles| - 1], prj) == f then 1 else 0)
  }

  /** Each shapefile is classed once, so the ready and needs-fix counts
      together never exceed the candidates, and fall short of them by the
      files whose `.prj` is missing or unreadable. */
  lemma {:induction false} CountFindingTotal(shapefiles: seq<string>, prj: map<string, Option<string>>)
    ensures CountFinding(shapefiles, prj, IsReady) + CountFinding(shapefiles, prj, NeedsFix)
            + CountFinding(shapefiles, prj, NotCounted) == |shapefiles|
    decreases |shapefiles|
  {
    if shapefiles != [] {
      CountFindingTotal(shapefiles[..|shapefiles| - 1], prj);
    }
  }

  /** A file the read-only checker finds ready is one the fixing checker
      counts as ready, and one it says needs fixing is reprojected or an
      error there. */
  lemma CheckersAgreeOnReady(shapefile: string, prj: map<string, Option<string>>, fixSucceeds: string -> bool)
    ensures Classify(shapefile, prj) == IsReady <==> Status(shapefile, prj, fixSucceeds) == Counted
    ensures Classify(shapefile, prj) == NotCounted ==> Status(shapefile, prj, fixSucceeds) == Failed
  {
  }

  /** The result of one run. */
  datatype Summary = Summary(ready: nat, needsFix: nat, showFixSteps: bool)

  /** `check_projections_simple`: nothing is counted when the data folder
      is missing or holds no candidate; otherwise the counters are as
      classed above, and the fix instructions are shown exactly when some
      file needs reprojecting. */
  method CheckProjectionsSimple(dataExists: bool, walk: seq<(string, string)>, prj: map<string, Option<string>>)
      returns (shapefiles: seq<string>, summary: Option<Summary>)
    ensures shapefiles == (if dataExists then Candidates(walk) else [])
    ensures summary.None? <==> shapefiles == []
    ensures summary.Some? ==> CandidatesAreShapefiles(shapefiles)
    ensures summary.Some? ==> summary.value.ready == CountFinding(shapefiles, prj, IsReady)
    ensures summary.Some? ==> summary.value.needsFix == CountFinding(shapefiles, prj, NeedsFix)
    ensures summary.Some? ==> summary.value.ready + summary.value.needsFix <= |shapefiles|
    ensures summary.Some? ==> (summary.value.showFixSteps <==> summary.value.needsFix > 0)
  {
    if !dataExists {
      return [], None;
    }
    shapefiles := FindShapefiles(walk);
    if shapefiles == [] {
      return shapefiles, None;
    }
    CandidatesAreShapefilesLemma(walk);
    var ready, needsFix := 0, 0;
    for k := 0 to |shapefiles|
      invariant ready == CountFinding(shapefiles[..k], prj, IsReady)
      invariant needsFix == CountFinding(shapefiles[..k], prj, NeedsFix)
    {
      assert shapefiles[..k + 1][..k] == shapefiles[..k];
      var prjPath := CompanionAsWritten(shapefiles[k], ".prj");
      if prjPath in prj {
        if prj[prjPath].Some? {
          if Contains(prj[prjPath].value, HarnMarker) {
            ready := ready + 1;
          } else {
            needsFix := needsFix + 1;
          }
        }
      }
    }
    assert shapefiles[..|shapefiles|] == shapefiles;
    CountFindingTotal(shapefiles, prj);
    summary := Some(Summary(ready, needsFix, needsFix > 0));
  }
}
