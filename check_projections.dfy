/** The projection checker that fixes what it finds: it lists the
    shapefiles under the downloads folder (skipping backups), reads each
    one's `.prj` text, counts those already in NAD 1983 HARN UTM Zone 4N,
    and reprojects the others, keeping the original under a backup name.

    A folder walk is the list of (folder, file name) pairs `os.walk`
    yields; the `.prj` files are a map from path to their text, `None` for
    a file that cannot be read; whether the Project and Rename calls go
    through is a parameter. */
module CheckProjections {
  import opened Values
  import opened Strings

  /** The projection name that marks a dataset as ready. */
  const HarnMarker := "NAD_1983_HARN_UTM_Zone_4N"

  /** A shapefile worth checking: a `.shp` that is not a backup. */
  predicate IsCandidate(file: string) {
    EndsWith(file, ".shp") && !EndsWith(file, "_original.shp")
  }

  /** The candidate paths of a walk, in walk order. */
  function Candidates(walk: seq<(string, string)>): seq<string>
    decreases |walk|
  {
    if walk == [] then []
    else
      var (root, file) := walk[|walk| - 1];
      Candidates(walk[..|walk| - 1]) + (if IsCandidate(file) then [PathJoin(root, file)] else [])
  }

  /** Every candidate path is joined from some walked file that passes the
      filter. */
  lemma {:induction false} CandidatesSound(walk: seq<(string, string)>)
    ensures forall p :: p in Candidates(walk) ==>
      exists k :: 0 <= k < |walk| && IsCandidate(walk[k].1) && p == PathJoin(walk[k].0, walk[k].1)
    decreases |walk|
  {
    if walk != [] {
      var init, last := walk[..|walk| - 1], walk[|walk| - 1];
      CandidatesSound(init);
      assert Candidates(walk) == Candidates(init) + (if IsCandidate(last.1) then [PathJoin(last.0, last.1)] else []);
      forall p | p in Candidates(walk)
        ensures exists k :: 0 <= k < |walk| && IsCandidate(walk[k].1) && p == PathJoin(walk[k].0, walk[k].1)
      {
        if p in Candidates(init) {
          var k :| 0 <= k < |init| && IsCandidate(init[k].1) && p == PathJoin(init[k].0, init[k].1);
          assert walk[k] == init[k];
        } else {
          assert walk[|walk| - 1] == last;
        }
      }
    }
  }

  /** Every walked file that passes the filter gives a candidate path. */
  lemma {:induction false} CandidatesComplete(walk: seq<(string, string)>)
    ensures forall k :: 0 <= k < |walk| && IsCandidate(walk[k].1) ==> PathJoin(walk[k].0, walk[k].1) in Candidates(walk)
    decreases |walk|
  {
    if walk != [] {
      var init, last := walk[..|walk| - 1], walk[|walk| - 1];
      CandidatesComplete(init);
      assert Candidates(walk) == Candidates(init) + (if IsCandidate(last.1) then [PathJoin(last.0, last.1)] else []);
      forall k | 0 <= k < |walk| - 1 && IsCandidate(walk[k].1)
        ensures PathJoin(walk[k].0, walk[k].1) in Candidates(walk)
      {
        assert walk[k] == init[k];
      }
    }
  }

  /** A path is a candidate exactly when some walked file passing the
      filter joins to it. */
  lemma CandidatesExactly(walk: seq<(string, string)>)
    ensures forall p :: p in Candidates(walk) <==>
      exists k :: 0 <= k < |walk| && IsCandidate(walk[k].1) && p == PathJoin(walk[k].0, walk[k].1)
  {
    CandidatesSound(walk);
    CandidatesComplete(walk);
  }

  /** Every candidate path ends in `.shp`. */
  lemma {:induction false} CandidatesAreShapefilesLemma(walk: seq<(string, string)>)
    ensures CandidatesAreShapefiles(Candidates(walk))
    decreases |walk|
  {
    if walk != [] {
      var init := walk[..|walk| - 1];
      CandidatesAreShapefilesLemma(init);
      var (root, file) := walk[|walk| - 1];
      if IsCandidate(file) {
        var p := PathJoin(root, file);
        assert EndsWith(p, file) && EndsWith(file, ".shp");
        assert p[|p| - 4..] == file[|file| - 4..];
      }
    }
  }

  /** The loop collecting the candidate paths. */
  method FindShapefiles(walk: seq<(string, string)>) returns (shapefiles: seq<string>)
    ensures shapefiles == Candidates(walk)
  {
    shapefiles := [];
    for k := 0 to |walk|
      invariant shapefiles == Candidates(walk[..k])
    {
      assert walk[..k + 1][..k] == walk[..k];
      var (root, file) := walk[k];
      if EndsWith(file, ".shp") && !EndsWith(file, "_original.shp") {
        shapefiles := shapefiles + [PathJoin(root, file)];
      }
    }
    assert walk[..|walk|] == walk;
  }

  /** The companion path as the script derives it: every `.shp` in the
      whole path is replaced, folders included. */
  function CompanionAsWritten(shapefile: string, suffix: string): string {
    ReplaceAll(shapefile, ".shp", suffix)
  }

  /** The companion path as intended: only the trailing `.shp` extension is
      replaced. */
  function Companion(shapefile: string, suffix: string): (r: string)
    requires EndsWith(shapefile, ".shp")
    ensures EndsWith(r, suffix)
    ensures StartsWith(r, shapefile[..|shapefile| - 4])
    ensures |r| == |shapefile| - 4 + |suffix|
  {
    shapefile[..|shapefile| - 4] + suffix
  }

  /** The `.prj`, backup and temporary paths the script builds for a
      shapefile differ from each other and from the shapefile: the
      backup and temporary names are longer than the shapefile and than
      each other by 9 and 12 characters per replaced `.shp`, and the `.prj`
      path swaps `.shp` for text of the same length. */
  lemma CompanionsDistinct(shapefile: string)
    requires EndsWith(shapefile, ".shp")
    ensures CompanionAsWritten(shapefile, ".prj") != shapefile
    ensures CompanionAsWritten(shapefile, "_original.shp") != shapefile
    ensures CompanionAsWritten(shapefile, "_reprojected.shp") != shapefile
    ensures CompanionAsWritten(shapefile, "_original.shp") != CompanionAsWritten(shapefile, "_reprojected.shp")
    ensures CompanionAsWritten(shapefile, ".prj") != CompanionAsWritten(shapefile, "_original.shp")
    ensures CompanionAsWritten(shapefile, ".prj") != CompanionAsWritten(shapefile, "_reprojected.shp")
  {
    EndsWithContains(shapefile, ".shp");
    ContainsOccurs(shapefile, ".shp");
    ReplaceAllChanges(shapefile, ".shp", ".prj");
    var n := Occurrences(shapefile, ".shp");
    ReplaceAllLength(shapefile, ".shp", ".prj");
    ReplaceAllLength(shapefile, ".shp", "_original.shp");
    ReplaceAllLength(shapefile, ".shp", "_reprojected.shp");
    assert |CompanionAsWritten(shapefile, ".prj")| == |shapefile|;
    assert |CompanionAsWritten(shapefile, "_original.shp")| == |shapefile| + n * 9;
    assert |CompanionAsWritten(shapefile, "_reprojected.shp")| == |shapefile| + n * 12;
  }

  /** Where the path has no other `.shp`, the script's replacement is the
      intended one. */
  lemma CompanionAgrees(stem: string, suffix: string)
    requires !Contains(stem + ".sh", ".shp")
    ensures CompanionAsWritten(stem + ".shp", suffix) == Companion(stem + ".shp", suffix)
  {
    assert ".shp"[..3] == ".sh";
    ReplaceFirstOccurrence(stem, ".shp", suffix, []);
    assert stem + ".shp" + [] == stem + ".shp";
    assert (stem + ".shp")[..|stem|] == stem;
  }

  /** A shapefile inside a folder whose name ends in `.shp`, as a
      download unpacked into `gis_downloads\soils.shp` would be (the
      repository's `tmk_state.shp` folder has that form too): the script looks for
      the `.prj` inside a folder named `.prj` that does not exist, while the
      file it wants sits next to the shapefile. */
  lemma CompanionInShpFolder(folder: string, stem: string, suffix: string)
    requires !Contains(folder + ".sh", ".shp") && !Contains("\\" + stem + ".sh", ".shp")
    ensures CompanionAsWritten(folder + ".shp\\" + stem + ".shp", suffix) == folder + suffix + "\\" + stem + suffix
    ensures Companion(folder + ".shp\\" + stem + ".shp", suffix) == folder + ".shp\\" + stem + suffix
  {
    var pat := ".shp";
    var file := "\\" + stem;
    var path := folder + ".shp\\" + stem + ".shp";
    assert CompanionAsWritten(path, suffix) == folder + suffix + (file + suffix) by {
      assert pat[..|pat| - 1] == ".sh";
      assert path == folder + pat + (file + pat);
      ReplaceFirstOccurrence(folder, pat, suffix, file + pat);
      ReplaceOnlyOccurrence(file, pat, suffix);
    }
    assert path[..|path| - 4] == folder + ".shp\\" + stem;
  }

  /** What the `.prj` text says about the current projection, by the first
      test that holds. */
  datatype Label = Geographic | HawaiiStatePlane | Wgs84 | OtherProjection

  function ProjectionLabel(text: string): Label {
    if Contains(text, "GEOGCS") && !Contains(text, "PROJCS") then Geographic
    else if Contains(text, "State_Plane") then HawaiiStatePlane
    else if Contains(text, "WGS_1984") then Wgs84
    else OtherProjection
  }

  /** Geographic only without a PROJCS; a projected State Plane text that
      also names WGS 1984 is labelled State Plane. */
  lemma ProjectionLabelOrder(text: string)
    ensures ProjectionLabel(text) == Geographic <==> Contains(text, "GEOGCS") && !Contains(text, "PROJCS")
    ensures Contains(text, "PROJCS") && Contains(text, "State_Plane") ==> ProjectionLabel(text) == HawaiiStatePlane
    ensures ProjectionLabel(text) == Wgs84 ==> Contains(text, "WGS_1984") && !Contains(text, "State_Plane")
  {
  }

  /** The outcome of `check_and_fix_projection`. */
  datatype FixResult =
    | NoProjectionFile
    | Unreadable
    | AlreadyCorrect
    | Fixed(current: Label, backup: string)
    | FixFailed(current: Label)

  /** Ready to use afterwards: the function's True. */
  predicate Ready(r: FixResult) {
    r.AlreadyCorrect? || r.Fixed?
  }

  function CheckAndFixProjection(shapefile: string, prj: map<string, Option<string>>, fixSucceeds: bool): FixResult
  {
    var prjPath := CompanionAsWritten(shapefile, ".prj");
    if prjPath !in prj then NoProjectionFile
    else if prj[prjPath].None? then Unreadable
    else
      var text := prj[prjPath].value;
      if Contains(text, HarnMarker) then AlreadyCorrect
      else if fixSucceeds then Fixed(ProjectionLabel(text), CompanionAsWritten(shapefile, "_original.shp"))
      else FixFailed(ProjectionLabel(text))
  }

  /** A shapefile is ready afterwards exactly when its `.prj` can be read
      and either names the target projection or the reprojection goes
      through; the original is then kept beside it under the backup name. */
  lemma CheckAndFixReady(shapefile: string, prj: map<string, Option<string>>, fixSucceeds: bool)
    ensures Ready(CheckAndFixProjection(shapefile, prj, fixSucceeds)) <==>
      var p := CompanionAsWritten(shapefile, ".prj");
      p in prj && prj[p].Some? && (Contains(prj[p].value, HarnMarker) || fixSucceeds)
    ensures EndsWith(shapefile, ".shp") && CheckAndFixProjection(shapefile, prj, fixSucceeds).Fixed? ==>
      CheckAndFixProjection(shapefile, prj, fixSucceeds).backup != shapefile
  {
    if EndsWith(shapefile, ".shp") {
      CompanionsDistinct(shapefile);
    }
  }

  /** A shapefile `<folder>.shp\<stem>.shp` whose `.prj` sits beside it:
      the script looks for `<folder>.prj\<stem>.prj` instead and reports
      that there is no projection file, while the intended path finds it.
      (No `p` in the names keeps `.shp` out of them.) */
  lemma ShpFolderPrjMissed(folder: string, stem: string, text: string)
    requires 'p' !in folder && 'p' !in stem
    ensures var shapefile := folder + ".shp\\" + stem + ".shp";
      var beside := folder + ".shp\\" + stem + ".prj";
      && CheckAndFixProjection(shapefile, map[beside := Some(text)], true) == NoProjectionFile
      && Companion(shapefile, ".prj") == beside
  {
    assert 'p' !in folder + ".sh" && 'p' !in "\\" + stem + ".sh";
    MissingCharNotContained(folder + ".sh", ".shp");
    MissingCharNotContained("\\" + stem + ".sh", ".shp");
    CompanionInShpFolder(folder, stem, ".prj");
    var looked, beside := folder + ".prj" + "\\" + stem + ".prj", folder + ".shp\\" + stem + ".prj";
    assert looked[|folder| + 1] != beside[|folder| + 1];
  }

  /** How the scan counts one shapefile. */
  datatype ScanStatus = Counted | Reprojected | Failed

  function Status(shapefile: string, prj: map<string, Option<string>>, fixSucceeds: string -> bool): ScanStatus
  {
    var prjPath := CompanionAsWritten(shapefile, ".prj");
    if prjPath !in prj || prj[prjPath].None? then Failed
    else if Contains(prj[prjPath].value, HarnMarker) then Counted
    else if Ready(CheckAndFixProjection(shapefile, prj, fixSucceeds(shapefile))) then Reprojected
    else Failed
  }

  /** How many of the shapefiles the scan counts with status `st`. */
  function CountStatus(shapefiles: seq<string>, prj: map<string, Option<string>>, fixSucceeds: string -> bool,
                       st: ScanStatus): nat
    decreases |shapefiles|
  {
    if shapefiles == [] then 0
    else
      var init := shapefiles[..|shapefiles| - 1];
      CountStatus(init, prj, fixSucceeds, st)
        + (if Status(shapefiles[|shapefiles| - 1], prj, fixSucceeds) == st then 1 else 0)
  }

  /** Every shapefile is counted once. */
  lemma {:induction false} CountStatusTotal(shapefiles: seq<string>, prj: map<string, Option<string>>, fixSucceeds: string -> bool)
    ensures CountStatus(shapefiles, prj, fixSucceeds, Counted) + CountStatus(shapefiles, prj, fixSucceeds, Reprojected)
            + CountStatus(shapefiles, prj, fixSucceeds, Failed) == |shapefiles|
    decreases |shapefiles|
  {
    if shapefiles != [] {
      CountStatusTotal(shapefiles[..|shapefiles| - 1], prj, fixSucceeds);
    }
  }

  /** The scan's counters. */
  datatype ScanCounts = ScanCounts(ready: nat, fixed: nat, errors: nat)

  predicate CandidatesAreShapefiles(shapefiles: seq<string>) {
    forall k :: 0 <= k < |shapefiles| ==> EndsWith(shapefiles[k], ".shp")
  }

  /** The counting loop over the candidates: a `.prj` that is missing or
      cannot be read is an error, one naming the target projection is
      ready, and the rest are fixed or errors as the reprojection goes. */
  method CountProjections(shapefiles: seq<string>, prj: map<string, Option<string>>, fixSucceeds: string -> bool)
      returns (counts: ScanCounts)
    ensures counts.ready + counts.fixed + counts.errors == |shapefiles|
    ensures counts == ScanCounts(CountStatus(shapefiles, prj, fixSucceeds, Counted),
                                 CountStatus(shapefiles, prj, fixSucceeds, Reprojected),
                                 CountStatus(shapefiles, prj, fixSucceeds, Failed))
  {
    var ready, fixed, errors := 0, 0, 0;
    for k := 0 to |shapefiles|
      invariant ready == CountStatus(shapefiles[..k], prj, fixSucceeds, Counted)
      invariant fixed == CountStatus(shapefiles[..k], prj, fixSucceeds, Reprojected)
      invariant errors == CountStatus(shapefiles[..k], prj, fixSucceeds, Failed)
    {
      assert shapefiles[..k + 1][..k] == shapefiles[..k];
      var shapefile := shapefiles[k];
      var prjPath := CompanionAsWritten(shapefile, ".prj");
      if prjPath !in prj || prj[prjPath].None? {
        errors := errors + 1;
      } else if Contains(prj[prjPath].value, HarnMarker) {
        ready := ready + 1;
      } else if Ready(CheckAndFixProjection(shapefile, prj, fixSucceeds(shapefile))) {
        fixed := fixed + 1;
      } else {
        errors := errors + 1;
      }
    }
    assert shapefiles[..|shapefiles|] == shapefiles;
    CountStatusTotal(shapefiles, prj, fixSucceeds);
    counts := ScanCounts(ready, fixed, errors);
  }

  /** `scan_gis_folders`: nothing is counted when the downloads folder is
      missing or holds no candidate. Otherwise ready, fixed and error
      counts cover every candidate once. */
  method ScanGisFolders(baseExists: bool, walk: seq<(string, string)>, prj: map<string, Option<string>>,
                        fixSucceeds: string -> bool)
      returns (shapefiles: seq<string>, counts: Option<ScanCounts>)
    ensures shapefiles == (if baseExists then Candidates(walk) else [])
    ensures counts.None? <==> shapefiles == []
    ensures counts.Some? ==> counts.value.ready + counts.value.fixed + counts.value.errors == |shapefiles|
    ensures counts.Some? ==> CandidatesAreShapefiles(shapefiles)
    ensures counts.Some? ==>
      counts.value == ScanCounts(CountStatus(shapefiles, prj, fixSucceeds, Counted),
                                 CountStatus(shapefiles, prj, fixSucceeds, Reprojected),
                                 CountStatus(shapefiles, prj, fixSucceeds, Failed))
  {
    if !baseExists {
      return [], None;
    }
    shapefiles := FindShapefiles(walk);
    if shapefiles == [] {
      return shapefiles, None;
    }
    CandidatesAreShapefilesLemma(walk);
    var c := CountProjections(shapefiles, prj, fixSucceeds);
    counts := Some(c);
  }
}
