/**
 * What checking one project and a whole run compute, as functions of the
 * references and of the file system the checker probes. The class in
 * program.dfy performs these steps on its counters; this module says what
 * they amount to.
 */
module Checking {
  import opened Wrappers
  import opened Strings
  import opened Documents

  /**
   * Everything the checker learns from the platform, given as a value:
   * the existing files and directories, the parsed document of a file
   * (`None` when it cannot be read or parsed), and the path functions and
   * directory listings, which are not interpreted.
   */
  datatype FileSystem = FileSystem(
    files: set<string>,                          // File.Exists
    directories: set<string>,                    // Directory.Exists
    load: string -> Option<Element>,             // XDocument.Load
    directoryName: string -> string,             // Path.GetDirectoryName
    combine: (string, string) -> string,         // Path.Combine
    subdirectories: string -> seq<string>,       // Directory.GetDirectories
    projectFiles: string -> seq<string>)         // Directory.EnumerateFiles(d, "*.csproj", AllDirectories)

  /** Why processing stopped: the program ends with an unhandled exception in each case. */
  datatype Failure =
    | Unloadable(path: string)                        // XDocument.Load throws
    | MalformedProject(path: string, element: Element) // a Reference element without Include
    | NotADirectory(path: string)                     // Directory.GetDirectories on a non-directory

  /** A reference is reported missing when it has a hint path and the combined path is not an existing file. */
  predicate IsMissing(r: Reference, dir: string, fs: FileSystem)
    ensures IsMissing(r, dir, fs) ==> r.hintPath.Some?
    ensures r.hintPath.Some? ==> (IsMissing(r, dir, fs) <==> fs.combine(dir, r.hintPath.value) !in fs.files)
  {
    r.hintPath.Some? && fs.combine(dir, r.hintPath.value) !in fs.files
  }

  /** One line of the run's list of invalid references: `"{project}, {head}"`. */
  function Entry(projectName: string, head: string): (e: string)
    ensures |e| == |projectName| + 2 + |head|
    ensures e[..|projectName|] == projectName && e[|projectName|..|projectName| + 2] == ", "
    ensures e[|projectName| + 2..] == head
  {
    projectName + ", " + head
  }

  /** How many of `refs` are missing. */
  function MissingCount(refs: seq<Reference>, dir: string, fs: FileSystem): (n: nat)
    ensures n <= |refs|
  {
    if refs == [] then 0
    else MissingCount(refs[..|refs| - 1], dir, fs) + (if IsMissing(refs[|refs| - 1], dir, fs) then 1 else 0)
  }

  /** The entries added for the missing references of `refs`, in reference order. */
  function MissingEntries(projectName: string, refs: seq<Reference>, dir: string, fs: FileSystem): (entries: seq<string>)
    ensures |entries| == MissingCount(refs, dir, fs)
  {
    if refs == [] then []
    else
      var r := refs[|refs| - 1];
      MissingEntries(projectName, refs[..|refs| - 1], dir, fs) +
        (if IsMissing(r, dir, fs) then [Entry(projectName, IdentityHead(r.identity))] else [])
  }

  lemma {:induction false} MissingAppend(name: string, a: seq<Reference>, b: seq<Reference>, dir: string, fs: FileSystem)
    ensures MissingCount(a + b, dir, fs) == MissingCount(a, dir, fs) + MissingCount(b, dir, fs)
    ensures MissingEntries(name, a + b, dir, fs) == MissingEntries(name, a, dir, fs) + MissingEntries(name, b, dir, fs)
    decreases |b|
  {
    if b == [] {
      assert a + b == a;
    } else {
      var b' := b[..|b| - 1];
      assert (a + b)[..|a + b| - 1] == a + b';
      assert (a + b)[|a + b| - 1] == b[|b| - 1];
      MissingAppend(name, a, b', dir, fs);
    }
  }

  /** The positions of `refs` that hold a missing reference. */
  function MissingPositions(refs: seq<Reference>, dir: string, fs: FileSystem): set<nat>
  {
    set k: nat | k < |refs| && IsMissing(refs[k], dir, fs)
  }

  lemma MissingPositionsStep(refs: seq<Reference>, dir: string, fs: FileSystem)
    requires refs != []
    ensures var n := |refs| - 1;
            MissingPositions(refs, dir, fs) ==
              MissingPositions(refs[..n], dir, fs) + (if IsMissing(refs[n], dir, fs) then {n} else {})
  {
    var n := |refs| - 1;
    forall k: nat | k < n ensures refs[..n][k] == refs[k] { }
  }

  /** The missing references are counted one by one: the count is the number of positions that are missing. */
  lemma {:induction false} MissingCountIsCardinality(refs: seq<Reference>, dir: string, fs: FileSystem)
    ensures MissingCount(refs, dir, fs) == |MissingPositions(refs, dir, fs)|
  {
    if refs != [] {
      var n := |refs| - 1;
      MissingCountIsCardinality(refs[..n], dir, fs);
      MissingPositionsStep(refs, dir, fs);
      assert n !in MissingPositions(refs[..n], dir, fs);
    }
  }

  /**
   * A reference without a hint path is never counted and adds no entry,
   * whatever the file system holds: removing it changes nothing.
   */
  lemma UnhintedNeverCounted(name: string, refs: seq<Reference>, i: nat, dir: string, fs: FileSystem)
    requires i < |refs| && refs[i].hintPath.None?
    ensures MissingCount(refs, dir, fs) == MissingCount(refs[..i] + refs[i + 1..], dir, fs)
    ensures MissingEntries(name, refs, dir, fs) == MissingEntries(name, refs[..i] + refs[i + 1..], dir, fs)
  {
    var p, x, q := refs[..i], [refs[i]], refs[i + 1..];
    assert refs == (p + x) + q;
    UnhintedSingleton(name, refs[i], dir, fs);
    MissingAppend(name, p + x, q, dir, fs);
    MissingAppend(name, p, x, dir, fs);
    MissingAppend(name, p, q, dir, fs);
    assert MissingEntries(name, p, dir, fs) + [] == MissingEntries(name, p, dir, fs);
  }

  lemma UnhintedSingleton(name: string, r: Reference, dir: string, fs: FileSystem)
    requires r.hintPath.None?
    ensures MissingCount([r], dir, fs) == 0 && MissingEntries(name, [r], dir, fs) == []
  {
    assert [r][..0] == [];
  }

  /** References that carry no hint path at all give a count of zero on every file system. */
  lemma {:induction false} NoHintsNoneMissing(refs: seq<Reference>, dir: string, fs: FileSystem)
    requires forall k :: 0 <= k < |refs| ==> refs[k].hintPath.None?
    ensures MissingCount(refs, dir, fs) == 0
  {
    if refs != [] {
      NoHintsNoneMissing(refs[..|refs| - 1], dir, fs);
    }
  }

  /** Every entry names the project and the identity head of a reference that is missing. */
  lemma {:induction false} EntriesNameMissingReferences(name: string, refs: seq<Reference>, dir: string, fs: FileSystem)
    ensures forall e :: e in MissingEntries(name, refs, dir, fs) ==>
              exists k :: 0 <= k < |refs| && IsMissing(refs[k], dir, fs) && e == Entry(name, IdentityHead(refs[k].identity))
  {
    if refs != [] {
      var n := |refs| - 1;
      EntriesNameMissingReferences(name, refs[..n], dir, fs);
      forall e | e in MissingEntries(name, refs, dir, fs)
        ensures exists k :: 0 <= k < |refs| && IsMissing(refs[k], dir, fs) && e == Entry(name, IdentityHead(refs[k].identity))
      {
        if e in MissingEntries(name, refs[..n], dir, fs) {
          var k :| 0 <= k < n && IsMissing(refs[..n][k], dir, fs) && e == Entry(name, IdentityHead(refs[..n][k].identity));
          assert refs[k] == refs[..n][k];
        } else {
          assert IsMissing(refs[n], dir, fs) && e == Entry(name, IdentityHead(refs[n].identity));
        }
      }
    }
  }

  /** What checking one project reports: its name, how many references it has, how many are missing, and the entries. */
  datatype ProjectReport = ProjectReport(projectName: string, processed: nat, invalid: nat, entries: seq<string>)

  /** The report of `CheckIfExists` for the references of a project in directory `dir`. */
  function CheckProject(refs: seq<Reference>, dir: string, fs: FileSystem): (report: ProjectReport)
    ensures report.invalid <= report.processed == |refs|
    ensures |report.entries| == report.invalid
    ensures '\\' !in report.projectName
  {
    var name := ProjectName(dir);
    ProjectReport(name, |refs|, MissingCount(refs, dir, fs), MissingEntries(name, refs, dir, fs))
  }

  /** A project with one hinted reference: no finding when the hinted file exists, one finding naming it otherwise. */
  lemma SingleReferenceScenario(identity: string, hint: string, dir: string, fs: FileSystem)
    requires ',' !in identity
    ensures var report := CheckProject([Reference(identity, Some(hint))], dir, fs);
            if fs.combine(dir, hint) in fs.files then report.invalid == 0 && report.entries == []
            else report.invalid == 1 && report.entries == [Entry(ProjectName(dir), identity)]
  {
    var refs := [Reference(identity, Some(hint))];
    assert refs[..0] == [];
    assert IdentityHead(identity) == identity;
  }

  /**
   * Processing one project file: load it, extract its references, and check
   * them against the directory that holds the file.
   */
  function FileReport(path: string, fs: FileSystem): (r: Result<ProjectReport, Failure>)
    ensures r.Success? ==> r.value.invalid <= r.value.processed && |r.value.entries| == r.value.invalid
    ensures r.Failure? ==> r.error.Unloadable? || r.error.MalformedProject?
    ensures r.Failure? <==> fs.load(path).None? || GetReferences(fs.load(path).value).Failure?
    ensures fs.load(path).None? ==> r == Failure(Unloadable(path))
    ensures fs.load(path).Some? && GetReferences(fs.load(path).value).Failure? ==>
              r == Failure(MalformedProject(path, GetReferences(fs.load(path).value).error.element))
    ensures r.Success? ==> fs.load(path).Some? && GetReferences(fs.load(path).value).Success? &&
                           var refs, dir := GetReferences(fs.load(path).value).value, fs.directoryName(path);
                           r.value == CheckProject(refs, dir, fs)
  {
    match fs.load(path)
    case None => Failure(Unloadable(path))
    case Some(doc) =>
      match GetReferences(doc)
      case Failure(MissingInclude(e)) => Failure(MalformedProject(path, e))
      case Success(refs) => Success(CheckProject(refs, fs.directoryName(path), fs))
  }

  /** How a sequence of files was processed: all of them, or up to the first failure. */
  datatype RunOutcome =
    | Completed(reports: seq<ProjectReport>)
    | Aborted(reports: seq<ProjectReport>, failure: Failure)

  /** The processing of one file, as a function of its path. */
  type Step = string -> Result<ProjectReport, Failure>

  /** `FileReport` on the given file system, as a step. */
  function ProcessOne(fs: FileSystem): Step
  {
    path => FileReport(path, fs)
  }

  /** Processing `files` in order with `step`, stopping at the first one that fails. */
  function RunFiles(files: seq<string>, step: Step): (o: RunOutcome)
    ensures o.Completed? ==> |o.reports| == |files|
    ensures o.Aborted? ==> |o.reports| < |files|
  {
    if files == [] then Completed([])
    else
      match RunFiles(files[..|files| - 1], step)
      case Aborted(rs, f) => Aborted(rs, f)
      case Completed(rs) =>
        match step(files[|files| - 1])
        case Failure(f) => Aborted(rs, f)
        case Success(r) => Completed(rs + [r])
  }

  /**
   * Each report belongs to the file at the same position, and an aborted run
   * stopped at the first file whose processing failed.
   */
  lemma {:induction false} RunFilesReports(files: seq<string>, step: Step)
    ensures var o := RunFiles(files, step);
            (forall k :: 0 <= k < |o.reports| ==> step(files[k]) == Success(o.reports[k])) &&
            (o.Aborted? ==> step(files[|o.reports|]) == Failure(o.failure))
  {
    if files != [] {
      var n := |files| - 1;
      var init := files[..n];
      RunFilesReports(init, step);
      var prior := RunFiles(init, step);
      var o := RunFiles(files, step);
      forall k | 0 <= k < |o.reports|
        ensures step(files[k]) == Success(o.reports[k])
      {
        if k < |prior.reports| {
          assert files[k] == init[k];
        }
      }
      if o.Aborted? && prior.Aborted? {
        assert files[|o.reports|] == init[|o.reports|];
      }
    }
  }

  /** Processing one more file after a completed prefix. */
  lemma RunFilesStep(visited: seq<string>, f: string, step: Step, reports: seq<ProjectReport>)
    requires RunFiles(visited, step) == Completed(reports)
    ensures step(f).Success? ==> RunFiles(visited + [f], step) == Completed(reports + [step(f).value])
    ensures step(f).Failure? ==> RunFiles(visited + [f], step) == Aborted(reports, step(f).error)
  {
    assert (visited + [f])[..|visited|] == visited;
  }

  /** Once a prefix has failed, the files after it are never processed. */
  lemma {:induction false} AbortedStaysAborted(a: seq<string>, b: seq<string>, step: Step)
    requires RunFiles(a, step).Aborted?
    ensures RunFiles(a + b, step) == RunFiles(a, step)
    decreases |b|
  {
    if b == [] {
      assert a + b == a;
    } else {
      var b' := b[..|b| - 1];
      assert (a + b)[..|a + b| - 1] == a + b';
      AbortedStaysAborted(a, b', step);
    }
  }

  /** The run's total: the sum of every project's invalid count. */
  function TotalInvalid(reports: seq<ProjectReport>): (n: nat)
    ensures forall k :: 0 <= k < |reports| ==> reports[k].invalid <= n
    ensures n == 0 <==> forall k :: 0 <= k < |reports| ==> reports[k].invalid == 0
  {
    if reports == [] then 0
    else
      var init := reports[..|reports| - 1];
      assert forall k :: 0 <= k < |init| ==> init[k] == reports[k];
      TotalInvalid(init) + reports[|reports| - 1].invalid
  }

  /** The run's list: every project's entries, in processing order. */
  function AllEntries(reports: seq<ProjectReport>): (es: seq<string>)
    ensures forall e :: e in es <==> exists k :: 0 <= k < |reports| && e in reports[k].entries
  {
    if reports == [] then []
    else
      var init := reports[..|reports| - 1];
      assert forall k :: 0 <= k < |init| ==> init[k] == reports[k];
      AllEntries(init) + reports[|reports| - 1].entries
  }

  /** The run's total is additive over consecutive groups of projects. */
  lemma {:induction false} TotalInvalidAppend(a: seq<ProjectReport>, b: seq<ProjectReport>)
    ensures TotalInvalid(a + b) == TotalInvalid(a) + TotalInvalid(b)
    decreases |b|
  {
    if b == [] {
      assert a + b == a;
    } else {
      var b', x := b[..|b| - 1], b[|b| - 1];
      assert a + b == (a + b') + [x];
      assert b == b' + [x];
      SummaryStep(a + b', x);
      SummaryStep(b', x);
      TotalInvalidAppend(a, b');
    }
  }

  /** The run's list is the concatenation of the lists of consecutive groups of projects. */
  lemma {:induction false} AllEntriesAppend(a: seq<ProjectReport>, b: seq<ProjectReport>)
    ensures AllEntries(a + b) == AllEntries(a) + AllEntries(b)
    decreases |b|
  {
    if b == [] {
      assert a + b == a;
    } else {
      var b', x := b[..|b| - 1], b[|b| - 1];
      assert a + b == (a + b') + [x];
      assert b == b' + [x];
      SummaryStep(a + b', x);
      SummaryStep(b', x);
      AllEntriesAppend(a, b');
    }
  }

  lemma SummaryStep(reports: seq<ProjectReport>, r: ProjectReport)
    ensures TotalInvalid(reports + [r]) == TotalInvalid(reports) + r.invalid
    ensures AllEntries(reports + [r]) == AllEntries(reports) + r.entries
  {
    assert (reports + [r])[..|reports|] == reports;
  }

  /** When every report keeps its own entries and count in step, so does the run: one entry per invalid reference. */
  lemma {:induction false} SummaryInStep(reports: seq<ProjectReport>)
    requires forall k :: 0 <= k < |reports| ==> |reports[k].entries| == reports[k].invalid
    ensures |AllEntries(reports)| == TotalInvalid(reports)
  {
    if reports != [] {
      SummaryInStep(reports[..|reports| - 1]);
    }
  }

  /**
   * The files a directory run visits: for each immediate subdirectory of the
   * root in turn, its project files at any depth. The root itself is never
   * searched, so project files lying directly in it are not visited.
   */
  function Discovered(dirs: seq<string>, fs: FileSystem): (files: seq<string>)
    ensures forall k, f :: 0 <= k < |dirs| && f in fs.projectFiles(dirs[k]) ==> f in files
  {
    if dirs == [] then []
    else
      var init := dirs[..|dirs| - 1];
      assert forall k :: 0 <= k < |init| ==> init[k] == dirs[k];
      Discovered(init, fs) + fs.projectFiles(dirs[|dirs| - 1])
  }

  /** A file is visited exactly when some listed subdirectory's search returns it. */
  lemma {:induction false} DiscoveredMembers(dirs: seq<string>, fs: FileSystem, f: string)
    ensures f in Discovered(dirs, fs) <==> exists k :: 0 <= k < |dirs| && f in fs.projectFiles(dirs[k])
  {
    if dirs != [] {
      var n := |dirs| - 1;
      DiscoveredMembers(dirs[..n], fs, f);
      if f in Discovered(dirs[..n], fs) {
        var k :| 0 <= k < n && f in fs.projectFiles(dirs[..n][k]);
        assert dirs[k] == dirs[..n][k];
      }
      if exists k :: 0 <= k < |dirs| && f in fs.projectFiles(dirs[k]) {
        var k :| 0 <= k < |dirs| && f in fs.projectFiles(dirs[k]);
        if k < n { assert dirs[..n][k] == dirs[k]; }
      }
    }
  }

  lemma {:induction false} DiscoveredAppend(a: seq<string>, b: seq<string>, fs: FileSystem)
    ensures Discovered(a + b, fs) == Discovered(a, fs) + Discovered(b, fs)
    decreases |b|
  {
    if b == [] {
      assert a + b == a;
    } else {
      var b' := b[..|b| - 1];
      assert (a + b)[..|a + b| - 1] == a + b';
      assert (a + b)[|a + b| - 1] == b[|b| - 1];
      DiscoveredAppend(a, b', fs);
    }
  }

  /** The visited files after `i` subdirectories and `j` files of the next one, and the files after those. */
  lemma DiscoveredSplit(dirs: seq<string>, i: nat, j: nat, fs: FileSystem)
    requires i < |dirs| && j < |fs.projectFiles(dirs[i])|
    ensures var files := fs.projectFiles(dirs[i]);
            Discovered(dirs, fs) ==
              (Discovered(dirs[..i], fs) + files[..j] + [files[j]]) + (files[j + 1..] + Discovered(dirs[i + 1..], fs))
  {
    var files := fs.projectFiles(dirs[i]);
    DiscoveredStep(dirs, i, fs);
    DiscoveredAppend(dirs[..i + 1], dirs[i + 1..], fs);
    assert dirs[..i + 1] + dirs[i + 1..] == dirs;
    Regroup(Discovered(dirs[..i], fs), files, j, Discovered(dirs[i + 1..], fs));
  }

  lemma Regroup(before: seq<string>, files: seq<string>, j: nat, after: seq<string>)
    requires j < |files|
    ensures (before + files) + after == (before + files[..j] + [files[j]]) + (files[j + 1..] + after)
  {
    assert files == files[..j] + [files[j]] + files[j + 1..];
  }

  lemma DiscoveredStep(dirs: seq<string>, i: nat, fs: FileSystem)
    requires i < |dirs|
    ensures Discovered(dirs[..i + 1], fs) == Discovered(dirs[..i], fs) + fs.projectFiles(dirs[i])
  {
    assert dirs[..i + 1][..i] == dirs[..i];
  }

  lemma ConcatAssociative(a: seq<string>, b: seq<string>, c: seq<string>)
    ensures (a + b) + c == a + (b + c)
  {
  }

  lemma PrefixStep(done: seq<string>, files: seq<string>, j: nat)
    requires j < |files|
    ensures done + files[..j + 1] == (done + files[..j]) + [files[j]]
  {
    assert files[..j + 1] == files[..j] + [files[j]];
  }

  /** The outcome of a directory run rooted at `root`. */
  function DirectoryRun(root: string, fs: FileSystem): (o: RunOutcome)
    ensures o.Aborted? && o.failure.NotADirectory? <==> root !in fs.directories
    ensures root !in fs.directories ==> o.reports == [] && o.failure.path == root
    ensures o.Completed? ==> |o.reports| == |Discovered(fs.subdirectories(root), fs)|
  {
    if root !in fs.directories then Aborted([], NotADirectory(root))
    else
      var files := Discovered(fs.subdirectories(root), fs);
      RunFilesReports(files, ProcessOne(fs));
      RunFiles(files, ProcessOne(fs))
  }

  /**
   * Two subdirectories holding one project each, with one hinted reference
   * apiece: the first reference's file exists, the second's does not. The run
   * completes, in subdirectory order, with a total of one and a single entry
   * naming the second project and its reference.
   */
  lemma DirectoryScenario(root: string, da: string, db: string, pa: string, pb: string,
                          a: string, ha: string, b: string, hb: string, fs: FileSystem)
    requires ',' !in a && ',' !in b
    requires root in fs.directories && fs.subdirectories(root) == [da, db]
    requires fs.projectFiles(da) == [pa] && fs.projectFiles(db) == [pb]
    requires fs.load(pa) == Some(OneReferenceProject(a, ha)) && fs.load(pb) == Some(OneReferenceProject(b, hb))
    requires fs.combine(fs.directoryName(pa), ha) in fs.files
    requires fs.combine(fs.directoryName(pb), hb) !in fs.files
    ensures var o := DirectoryRun(root, fs);
            o.Completed? && |o.reports| == 2 &&
            o.reports[0].projectName == ProjectName(fs.directoryName(pa)) &&
            o.reports[1].projectName == ProjectName(fs.directoryName(pb)) &&
            TotalInvalid(o.reports) == 1 &&
            AllEntries(o.reports) == [Entry(ProjectName(fs.directoryName(pb)), b)]
  {
    ProjectFileReport(pa, a, ha, fs);
    ProjectFileReport(pb, b, hb, fs);
    var ra, rb := FileReport(pa, fs).value, FileReport(pb, fs).value;
    TwoProjectRun(root, da, db, pa, pb, fs, ra, rb);
    TwoReports(ra, rb);
  }

  /** A root whose two subdirectories hold one project file each, both processed successfully. */
  lemma TwoProjectRun(root: string, da: string, db: string, pa: string, pb: string, fs: FileSystem,
                      ra: ProjectReport, rb: ProjectReport)
    requires root in fs.directories && fs.subdirectories(root) == [da, db]
    requires fs.projectFiles(da) == [pa] && fs.projectFiles(db) == [pb]
    requires FileReport(pa, fs) == Success(ra) && FileReport(pb, fs) == Success(rb)
    ensures DirectoryRun(root, fs) == Completed([ra, rb])
  {
    TwoDirectories(da, db, fs);
    DirectoryRunFiles(root, fs);
    var step := ProcessOne(fs);
    assert step(pa) == Success(ra) && step(pb) == Success(rb);
    TwoFiles(pa, pb, step);
  }

  lemma DirectoryRunFiles(root: string, fs: FileSystem)
    requires root in fs.directories
    ensures DirectoryRun(root, fs) == RunFiles(Discovered(fs.subdirectories(root), fs), ProcessOne(fs))
  {
  }

  /** A file holding a one-reference project checks that reference against the file's directory. */
  lemma ProjectFileReport(path: string, identity: string, hint: string, fs: FileSystem)
    requires fs.load(path) == Some(OneReferenceProject(identity, hint)) && ',' !in identity
    ensures var dir := fs.directoryName(path);
            FileReport(path, fs).Success? &&
            FileReport(path, fs).value.projectName == ProjectName(dir) &&
            if fs.combine(dir, hint) in fs.files then
              FileReport(path, fs).value.invalid == 0 && FileReport(path, fs).value.entries == []
            else
              FileReport(path, fs).value.invalid == 1 &&
              FileReport(path, fs).value.entries == [Entry(ProjectName(dir), identity)]
  {
    OneReferenceProjectReferences(identity, hint);
    SingleReferenceScenario(identity, hint, fs.directoryName(path), fs);
  }

  lemma TwoDirectories(da: string, db: string, fs: FileSystem)
    ensures Discovered([da, db], fs) == fs.projectFiles(da) + fs.projectFiles(db)
  {
    var dirs := [da, db];
    assert dirs[..1] == [da] && [da][..0] == [];
    assert Discovered([da], fs) == fs.projectFiles(da) by {
      assert [] + fs.projectFiles(da) == fs.projectFiles(da);
    }
  }

  lemma TwoFiles(a: string, b: string, step: Step)
    requires step(a).Success? && step(b).Success?
    ensures RunFiles([a, b], step) == Completed([step(a).value, step(b).value])
  {
    assert [a, b][..1] == [a] && [a][..0] == [];
  }

  lemma TwoReports(x: ProjectReport, y: ProjectReport)
    ensures TotalInvalid([x, y]) == x.invalid + y.invalid
    ensures AllEntries([x, y]) == x.entries + y.entries
  {
    SummaryStep([], x);
    assert [] + [x] == [x];
    SummaryStep([x], y);
    assert [x] + [y] == [x, y];
  }

  /** The outcome of single-file mode: a run over that one file. */
  function FileRun(path: string, fs: FileSystem): (o: RunOutcome)
    ensures o.Completed? <==> FileReport(path, fs).Success?
    ensures o.Completed? ==> o.reports == [FileReport(path, fs).value]
    ensures o.Aborted? ==> o.reports == [] && o.failure == FileReport(path, fs).error
  {
    assert [path][..0] == [];
    RunFiles([path], ProcessOne(fs))
  }

  /** Single-file mode in terms of that file's result: the run's totals are the file's own. */
  lemma FileRunOf(path: string, fs: FileSystem, result: Result<ProjectReport, Failure>)
    requires result == FileReport(path, fs)
    ensures result.Success? ==> FileRun(path, fs) == Completed([result.value]) &&
                                TotalInvalid([result.value]) == result.value.invalid &&
                                AllEntries([result.value]) == result.value.entries
    ensures result.Failure? ==> FileRun(path, fs) == Aborted([], result.error)
  {
    if result.Success? {
      SingleReport(result.value);
    }
  }

  lemma SingleReport(x: ProjectReport)
    ensures TotalInvalid([x]) == x.invalid && AllEntries([x]) == x.entries
  {
    SummaryStep([], x);
    assert [] + [x] == [x];
  }

  /**
   * The invocation check: there is an argument, and the first one is an
   * existing file, or an existing directory while directory mode is on.
   */
  predicate Accepts(args: seq<string>, fs: FileSystem, directoryMode: bool)
    ensures Accepts(args, fs, directoryMode) ==> args != []
    ensures args != [] && args[0] in fs.files ==> Accepts(args, fs, directoryMode)
    ensures args != [] && args[0] !in fs.files ==>
              (Accepts(args, fs, directoryMode) <==> directoryMode && args[0] in fs.directories)
  {
    |args| > 0 && (args[0] in fs.files || (args[0] in fs.directories && directoryMode))
  }
}
