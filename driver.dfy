/**
  The loop both scripts run over their fixed list of CSS paths.

  For each path in list order: a path that does not exist is reported and
  skipped; otherwise the file is read, repaired, and written back and counted
  only when the repaired text differs from what was read. The file system is
  a map from path to content; reading and writing are lookups and updates of
  that map, and the printed report is the list of outcomes per path.
 */
module Driver {

  type FileSystem = map<string, string>

  /** What the loop prints for one path: `File not found`, `Fixed`, or `No changes needed`. */
  datatype Status = NotFound | Fixed | NoChangesNeeded

  /** The state of the loop: the files, `total_fixes`, and the report so far. */
  datatype Outcome = Outcome(files: FileSystem, totalFixes: nat, report: seq<Status>)

  /** The body of the loop for one path. */
  function Step(fix: string -> string, o: Outcome, path: string): (r: Outcome)
    ensures r.files.Keys == o.files.Keys
    ensures |r.report| == |o.report| + 1 && r.report[..|o.report|] == o.report
    ensures r.report[|o.report|] == NotFound <==> path !in o.files
    ensures r.report[|o.report|] == Fixed <==> path in o.files && fix(o.files[path]) != o.files[path]
    ensures r.totalFixes == o.totalFixes + (if r.report[|o.report|] == Fixed then 1 else 0)
    ensures forall q :: q in o.files && q != path ==> r.files[q] == o.files[q]
    ensures path in o.files ==> r.files[path] == fix(o.files[path])
  {
    if path !in o.files then
      Outcome(o.files, o.totalFixes, o.report + [NotFound])
    else
      var original := o.files[path];
      var content := fix(original);
      if content != original then
        Outcome(o.files[path := content], o.totalFixes + 1, o.report + [Fixed])
      else
        Outcome(o.files, o.totalFixes, o.report + [NoChangesNeeded])
  }

  /** The whole loop: the steps for `paths`, in order, starting from `fs` and a zero count. */
  function Process(fix: string -> string, fs: FileSystem, paths: seq<string>): (r: Outcome)
    ensures r.files.Keys == fs.Keys && |r.report| == |paths|
    decreases |paths|
  {
    if paths == [] then Outcome(fs, 0, [])
    else Step(fix, Process(fix, fs, paths[..|paths| - 1]), paths[|paths| - 1])
  }

  /** The number of `Fixed` entries of a report. */
  function CountFixed(report: seq<Status>): (n: nat)
    ensures n <= |report|
  {
    if report == [] then 0
    else CountFixed(report[..|report| - 1]) + (if report[|report| - 1] == Fixed then 1 else 0)
  }

  /** The loop as the scripts write it: read, repair, compare, write, count. */
  method FixFiles(fix: string -> string, fs: FileSystem, paths: seq<string>)
    returns (files: FileSystem, totalFixes: nat, report: seq<Status>)
    ensures Outcome(files, totalFixes, report) == Process(fix, fs, paths)
  {
    files, totalFixes, report := fs, 0, [];
    for i := 0 to |paths|
      invariant Outcome(files, totalFixes, report) == Process(fix, fs, paths[..i])
    {
      ProcessStep(fix, fs, paths, i);
      var path := paths[i];
      if path !in files {
        report := report + [NotFound];
        continue;
      }
      var content := files[path];
      var original := content;
      content := fix(content);
      if content != original {
        files := files[path := content];
        totalFixes := totalFixes + 1;
        report := report + [Fixed];
      } else {
        report := report + [NoChangesNeeded];
      }
    }
    assert paths[..|paths|] == paths;
  }

  /** One more path is one more step of the fold. */
  lemma ProcessStep(fix: string -> string, fs: FileSystem, paths: seq<string>, i: nat)
    requires i < |paths|
    ensures Process(fix, fs, paths[..i + 1]) == Step(fix, Process(fix, fs, paths[..i]), paths[i])
  {
    assert paths[..i + 1][..i] == paths[..i];
  }

  /**
    One report entry per path, the same set of files, and `total_fixes` is
    the number of files reported fixed, so at most the number of paths.
   */
  lemma {:induction false} ProcessCounts(fix: string -> string, fs: FileSystem, paths: seq<string>)
    ensures |Process(fix, fs, paths).report| == |paths|
    ensures Process(fix, fs, paths).files.Keys == fs.Keys
    ensures Process(fix, fs, paths).totalFixes == CountFixed(Process(fix, fs, paths).report)
    ensures Process(fix, fs, paths).totalFixes <= |paths|
    decreases |paths|
  {
    if paths != [] {
      var init := paths[..|paths| - 1];
      ProcessCounts(fix, fs, init);
      var o := Process(fix, fs, init);
      var r := Process(fix, fs, paths);
      assert r.report[..|r.report| - 1] == o.report;
    }
  }

  /** A path is reported missing exactly when it is not a file: the loop never creates or deletes one. */
  lemma {:induction false} ReportNotFound(fix: string -> string, fs: FileSystem, paths: seq<string>, i: nat)
    requires i < |paths|
    ensures |Process(fix, fs, paths).report| == |paths|
    ensures Process(fix, fs, paths).report[i] == NotFound <==> paths[i] !in fs
    decreases |paths|
  {
    var init := paths[..|paths| - 1];
    ProcessCounts(fix, fs, init);
    ProcessCounts(fix, fs, paths);
    if i < |init| {
      ReportNotFound(fix, fs, init, i);
    }
  }

  /** A file whose path is not in the list keeps its content. */
  lemma {:induction false} Untouched(fix: string -> string, fs: FileSystem, paths: seq<string>, q: string)
    requires q in fs && q !in paths
    ensures Process(fix, fs, paths).files.Keys == fs.Keys
    ensures Process(fix, fs, paths).files[q] == fs[q]
    decreases |paths|
  {
    ProcessCounts(fix, fs, paths);
    if paths != [] {
      var init := paths[..|paths| - 1];
      assert forall p :: p in init ==> p in paths;
      Untouched(fix, fs, init, q);
    }
  }

  /** No path occurs twice in the list. */
  predicate Distinct(paths: seq<string>) {
    forall i, j :: 0 <= i < j < |paths| ==> paths[i] != paths[j]
  }

  lemma LastIsNew(paths: seq<string>)
    requires Distinct(paths) && paths != []
    ensures paths[|paths| - 1] !in paths[..|paths| - 1]
  {
    var init := paths[..|paths| - 1];
    forall k | 0 <= k < |init|
      ensures init[k] != paths[|paths| - 1]
    {
      assert init[k] == paths[k];
    }
  }

  /**
    With distinct paths, each existing file ends up holding its repaired
    content, and it is reported fixed exactly when the repair changed it.
   */
  lemma {:induction false} Repaired(fix: string -> string, fs: FileSystem, paths: seq<string>, i: nat)
    requires Distinct(paths) && i < |paths| && paths[i] in fs
    ensures Process(fix, fs, paths).files.Keys == fs.Keys && |Process(fix, fs, paths).report| == |paths|
    ensures Process(fix, fs, paths).files[paths[i]] == fix(fs[paths[i]])
    ensures Process(fix, fs, paths).report[i] == Fixed <==> fix(fs[paths[i]]) != fs[paths[i]]
    decreases |paths|
  {
    var init := paths[..|paths| - 1];
    ProcessCounts(fix, fs, init);
    ProcessCounts(fix, fs, paths);
    if i == |paths| - 1 {
      LastIsNew(paths);
      Untouched(fix, fs, init, paths[i]);
    } else {
      assert init[i] == paths[i];
      assert paths[i] != paths[|paths| - 1];
      Repaired(fix, fs, init, i);
    }
  }

  /** When the repair changes no listed file, nothing is written and nothing is counted. */
  lemma {:induction false} NothingToFix(fix: string -> string, fs: FileSystem, paths: seq<string>)
    requires forall p :: p in paths && p in fs ==> fix(fs[p]) == fs[p]
    ensures Process(fix, fs, paths).files == fs && Process(fix, fs, paths).totalFixes == 0
    decreases |paths|
  {
    if paths != [] {
      var init := paths[..|paths| - 1];
      assert forall p :: p in init ==> p in paths;
      NothingToFix(fix, fs, init);
    }
  }
}
