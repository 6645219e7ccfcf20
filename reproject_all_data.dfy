/** The batch standardisation script: every file under the raw downloads
    folder with a selected extension is reprojected (or copied, when it is
    already there) to NAD 83 HARN UTM Zone 4N, EPSG 26904, into the same
    relative place under the standardised folder; the outputs are then
    checked.

    A folder walk is the list of (folder, file name) pairs `os.walk`
    yields, each folder being the top folder or below it. What a dataset's
    spatial reference is, and whether a tool call goes through, are
    parameters. */
module ReprojectAllData {
  import opened Values
  import opened Strings

  /** NAD 83 HARN UTM Zone 4N. */
  const TargetEpsg := 26904

  const DefaultExtensions: seq<string> := [".shp", ".gdb"]
  const RawDataFolder := "data\\state_gis_downloads\\_raw"
  const StandardizedFolder := "data\\state_gis_downloads\\_standardized"

  /** Position of the last '.' in `s`, or -1. */
  function LastDot(s: string): (r: int)
    ensures -1 <= r < |s|
    ensures r >= 0 ==> s[r] == '.' && forall k :: r < k < |s| ==> s[k] != '.'
    ensures r == -1 ==> forall k :: 0 <= k < |s| ==> s[k] != '.'
    decreases |s|
  {
    if s == [] then -1
    else if s[|s| - 1] == '.' then |s| - 1
    else LastDot(s[..|s| - 1])
  }

  predicate AllDots(s: string) {
    forall k :: 0 <= k < |s| ==> s[k] == '.'
  }

  /** `os.path.splitext(file)[1]` for a file name: from the last dot on,
      unless nothing but dots comes before that dot. */
  function Extension(file: string): (r: string)
    ensures r == [] || (r[0] == '.' && EndsWith(file, r) && '.' !in r[1..])
    ensures r == [] <==> LastDot(file) < 0 || AllDots(file[..LastDot(file)])
  {
    var i := LastDot(file);
    if i < 0 || AllDots(file[..i]) then "" else file[i..]
  }

  /** A file is processed when its lower-cased extension is one of the
      extensions, compared as given. */
  predicate Selected(file: string, extensions: seq<string>) {
    Lower(Extension(file)) in extensions
  }

  predicate HasUpper(s: string) {
    exists k :: 0 <= k < |s| && 'A' <= s[k] <= 'Z'
  }

  /** The extension list is not lower-cased: an entry with an upper-case
      letter never matches, so `.SHP` files are picked up by `.shp` and by
      nothing else. */
  lemma UpperCaseExtensionNeverMatches(file: string, extensions: seq<string>)
    requires forall k :: 0 <= k < |extensions| ==> HasUpper(extensions[k])
    ensures !Selected(file, extensions)
  {
  }

  /** `os.path.relpath(root, top)` for a folder of the walk. */
  predicate InWalk(root: string, top: string) {
    root == top || StartsWith(root, top + "\\")
  }

  function RelPath(root: string, top: string): string
    requires InWalk(root, top)
  {
    if root == top then "." else root[|top| + 1..]
  }

  /** Joining the top folder with the relative path gives the folder back,
      for every folder below the top. */
  lemma RelPathRoundTrip(root: string, top: string)
    requires InWalk(root, top) && root != top
    requires top != [] && top[|top| - 1] !in {'\\', '/'}
    ensures PathJoin(top, RelPath(root, top)) == root
  {
    assert root[..|top| + 1] == top + "\\";
    assert root == root[..|top| + 1] + root[|top| + 1..];
  }

  /** The output path of a walked file: the output folder, the file's
      relative folder, and its name. */
  function OutputPath(output: string, top: string, root: string, file: string): (r: string)
    requires InWalk(root, top)
    ensures StartsWith(r, output) && EndsWith(r, file)
  {
    var outputRoot := PathJoin(output, RelPath(root, top));
    assert StartsWith(outputRoot, output);
    var r := PathJoin(outputRoot, file);
    assert r[..|output|] == outputRoot[..|output|];
    r
  }

  /** A reprojection job: input path and output path. */
  datatype Job = Job(input: string, output: string)

  predicate WalkUnder(walk: seq<(string, string)>, top: string) {
    forall k :: 0 <= k < |walk| ==> InWalk(walk[k].0, top)
  }

  /** The job for one walked file. */
  function JobOf(input: string, output: string, root: string, file: string): Job
    requires InWalk(root, input)
  {
    Job(PathJoin(root, file), OutputPath(output, input, root, file))
  }

  /** The jobs of a walk, in walk order. */
  function Jobs(input: string, output: string, walk: seq<(string, string)>, extensions: seq<string>): seq<Job>
    requires WalkUnder(walk, input)
    decreases |walk|
  {
    if walk == [] then []
    else
      var last := walk[|walk| - 1];
      Jobs(input, output, walk[..|walk| - 1], extensions)
        + (if Selected(last.1, extensions) then [JobOf(input, output, last.0, last.1)] else [])
  }

  /** Every job comes from a selected walked file, so there are no more
      jobs than files. */
  lemma {:induction false} JobsFromSelected(input: string, output: string, walk: seq<(string, string)>, extensions: seq<string>)
    requires WalkUnder(walk, input)
    ensures forall j :: j in Jobs(input, output, walk, extensions) ==>
      exists k :: 0 <= k < |walk| && Selected(walk[k].1, extensions) && j == JobOf(input, output, walk[k].0, walk[k].1)
    ensures |Jobs(input, output, walk, extensions)| <= |walk|
    decreases |walk|
  {
    if walk != [] {
      var init := walk[..|walk| - 1];
      JobsFromSelected(input, output, init, extensions);
      forall j | j in Jobs(input, output, walk, extensions)
        ensures exists k :: 0 <= k < |walk| && Selected(walk[k].1, extensions) && j == JobOf(input, output, walk[k].0, walk[k].1)
      {
        if j in Jobs(input, output, init, extensions) {
          var k :| 0 <= k < |init| && Selected(init[k].1, extensions) && j == JobOf(input, output, init[k].0, init[k].1);
          assert walk[k] == init[k];
        }
      }
    }
  }

  /** Each job's output sits under the output folder with the input's file
      name, in the input's folder relative to the top. */
  lemma JobMirrors(input: string, output: string, root: string, file: string)
    requires InWalk(root, input)
    ensures StartsWith(JobOf(input, output, root, file).output, output)
    ensures EndsWith(JobOf(input, output, root, file).output, file)
    ensures EndsWith(JobOf(input, output, root, file).input, file)
    ensures JobOf(input, output, root, file).output == PathJoin(PathJoin(output, RelPath(root, input)), file)
  {
  }

  /** What `reproject_to_hcpt_standard` does with a dataset. */
  datatype Action = CopyAsIs | ProjectToTarget

  datatype Reprojection = Reprojection(action: Option<Action>, ok: bool)

  /** `sourceCode` is the input's factory code (None when Describe raises),
      `toolSucceeds` whether Copy or Project goes through, `outputCode` the
      output's factory code (None when Describe raises). */
  function ReprojectToHcpt(sourceCode: Option<int>, toolSucceeds: bool, outputCode: Option<int>): Reprojection {
    if sourceCode.None? then Reprojection(None, false)
    else
      var action := if sourceCode.value == TargetEpsg then CopyAsIs else ProjectToTarget;
      Reprojection(Some(action), toolSucceeds && outputCode == Some(TargetEpsg))
  }

  /** A dataset already in the target system is copied and anything else
      projected; the result is True exactly when the tool went through and
      the output is in the target system. */
  lemma ReprojectToHcptSpec(sourceCode: Option<int>, toolSucceeds: bool, outputCode: Option<int>)
    ensures ReprojectToHcpt(sourceCode, toolSucceeds, outputCode).ok <==>
      sourceCode.Some? && toolSucceeds && outputCode == Some(TargetEpsg)
    ensures sourceCode.Some? ==>
      (ReprojectToHcpt(sourceCode, toolSucceeds, outputCode).action == Some(CopyAsIs) <==> sourceCode.value == TargetEpsg)
  {
  }

  /** How many jobs succeed. */
  function Successes(jobs: seq<Job>, reproject: Job -> bool): (n: nat)
    ensures n <= |jobs|
    decreases |jobs|
  {
    if jobs == [] then 0
    else Successes(jobs[..|jobs| - 1], reproject) + (if reproject(jobs[|jobs| - 1]) then 1 else 0)
  }

  lemma JobsStep(input: string, output: string, walk: seq<(string, string)>, extensions: seq<string>, k: nat)
    requires WalkUnder(walk, input) && k < |walk|
    ensures WalkUnder(walk[..k], input) && WalkUnder(walk[..k + 1], input)
    ensures Jobs(input, output, walk[..k + 1], extensions) == Jobs(input, output, walk[..k], extensions)
      + (if Selected(walk[k].1, extensions) then [JobOf(input, output, walk[k].0, walk[k].1)] else [])
  {
    assert walk[..k + 1][..k] == walk[..k];
  }

  lemma SuccessesStep(jobs: seq<Job>, job: Job, reproject: Job -> bool)
    ensures Successes(jobs + [job], reproject) == Successes(jobs, reproject) + (if reproject(job) then 1 else 0)
  {
    assert (jobs + [job])[..|jobs|] == jobs;
  }

  /** `batch_reproject_folder`, with the default extensions when none are
      given; `reproject` is the outcome of `reproject_to_hcpt_standard` on
      a job. Every selected file is one success or one error. */
  method BatchReprojectFolder(input: string, output: string, walk: seq<(string, string)>,
                              fileExtensions: Option<seq<string>>, reproject: Job -> bool)
      returns (jobs: seq<Job>, successCount: nat, errorCount: nat)
    requires WalkUnder(walk, input)
    ensures jobs == Jobs(input, output, walk, if fileExtensions.None? then DefaultExtensions else fileExtensions.value)
    ensures successCount == Successes(jobs, reproject)
    ensures successCount + errorCount == |jobs| <= |walk|
  {
    var extensions := if fileExtensions.None? then DefaultExtensions else fileExtensions.value;
    jobs, successCount, errorCount := [], 0, 0;
    for k := 0 to |walk|
      invariant jobs == Jobs(input, output, walk[..k], extensions)
      invariant successCount == Successes(jobs, reproject)
      invariant successCount + errorCount == |jobs|
    {
      JobsStep(input, output, walk, extensions, k);
      var root, file := walk[k].0, walk[k].1;
      if Lower(Extension(file)) in extensions {
        var job := JobOf(input, output, root, file);
        SuccessesStep(jobs, job, reproject);
        jobs := jobs + [job];
        if reproject(job) {
          successCount := successCount + 1;
        } else {
          errorCount := errorCount + 1;
        }
      }
    }
    assert walk[..|walk|] == walk;
    assert |jobs| <= |walk| by {
      JobsFromSelected(input, output, walk, extensions);
    }
  }

  /** The shapefile paths of a walk. */
  function ShapefilePaths(walk: seq<(string, string)>): seq<string>
    decreases |walk|
  {
    if walk == [] then []
    else
      var last := walk[|walk| - 1];
      ShapefilePaths(walk[..|walk| - 1]) + (if EndsWith(last.1, ".shp") then [PathJoin(last.0, last.1)] else [])
  }

  /** How many of the paths are in the target system; `describe` gives a
      path's factory code, None when Describe raises. */
  function CorrectCount(paths: seq<string>, describe: string -> Option<int>): (n: nat)
    ensures n <= |paths|
    decreases |paths|
  {
    if paths == [] then 0
    else CorrectCount(paths[..|paths| - 1], describe) + (if describe(paths[|paths| - 1]) == Some(TargetEpsg) then 1 else 0)
  }

  lemma ShapefilePathsStep(walk: seq<(string, string)>, k: nat)
    requires k < |walk|
    ensures ShapefilePaths(walk[..k + 1]) ==
      ShapefilePaths(walk[..k]) + (if EndsWith(walk[k].1, ".shp") then [PathJoin(walk[k].0, walk[k].1)] else [])
  {
    assert walk[..k + 1][..k] == walk[..k];
  }

  lemma CorrectCountStep(paths: seq<string>, path: string, describe: string -> Option<int>)
    ensures CorrectCount(paths + [path], describe) ==
      CorrectCount(paths, describe) + (if describe(path) == Some(TargetEpsg) then 1 else 0)
  {
    assert (paths + [path])[..|paths|] == paths;
  }

  /** `verify_projection_batch`: each shapefile is correct or incorrect,
      and one whose Describe raises counts as incorrect. */
  method VerifyProjectionBatch(walk: seq<(string, string)>, describe: string -> Option<int>)
      returns (correctCount: nat, incorrectCount: nat)
    ensures correctCount == CorrectCount(ShapefilePaths(walk), describe)
    ensures correctCount + incorrectCount == |ShapefilePaths(walk)|
  {
    ghost var paths: seq<string> := [];
    correctCount, incorrectCount := 0, 0;
    for k := 0 to |walk|
      invariant paths == ShapefilePaths(walk[..k])
      invariant correctCount == CorrectCount(paths, describe)
      invariant correctCount + incorrectCount == |paths|
    {
      ShapefilePathsStep(walk, k);
      var root, file := walk[k].0, walk[k].1;
      if EndsWith(file, ".shp") {
        var path := PathJoin(root, file);
        CorrectCountStep(paths, path, describe);
        paths := paths + [path];
        if describe(path) == Some(TargetEpsg) {
          correctCount := correctCount + 1;
        } else {
          incorrectCount := incorrectCount + 1;
        }
      }
    }
    assert walk[..|walk|] == walk;
  }

  /** `main`: nothing happens without the raw folder; the outputs are
      verified only when at least one file was processed. */
  method Standardize(projectRoot: string, rawExists: bool, rawWalk: seq<(string, string)>, reproject: Job -> bool,
                     outputWalk: seq<(string, string)>, describe: string -> Option<int>)
      returns (batch: Option<(nat, nat)>, verified: Option<(nat, nat)>)
    requires WalkUnder(rawWalk, PathJoin(projectRoot, RawDataFolder))
    ensures batch.None? <==> !rawExists
    ensures batch.Some? ==> batch.value.0 == Successes(Jobs(PathJoin(projectRoot, RawDataFolder),
      PathJoin(projectRoot, StandardizedFolder), rawWalk, DefaultExtensions), reproject)
    ensures verified.Some? <==> batch.Some? && batch.value.0 > 0
    ensures verified.Some? ==> verified.value.0 == CorrectCount(ShapefilePaths(outputWalk), describe)
    ensures verified.Some? ==> verified.value.0 + verified.value.1 == |ShapefilePaths(outputWalk)|
  {
    if !rawExists {
      return None, None;
    }
    var jobs, successCount, errorCount := BatchReprojectFolder(PathJoin(projectRoot, RawDataFolder),
      PathJoin(projectRoot, StandardizedFolder), rawWalk, None, reproject);
    batch := Some((successCount, errorCount));
    verified := None;
    if successCount > 0 {
      var correct, incorrect := VerifyProjectionBatch(outputWalk, describe);
      verified := Some((correct, incorrect));
    }
  }
}
