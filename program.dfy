/**
 * The checker program: its static fields become the fields of one object,
 * and each of its static operations a method that updates them.
 */
module ReferenceCheck {
  import opened Wrappers
  import opened Strings
  import opened Documents
  import opened Checking

  /** How an invocation ends: with the usage text, or after running over its files. */
  datatype Exit = InvalidInvocation | Ran(outcome: RunOutcome)

  class Program {
    var printReferences: bool            // -l (and -lo): list every reference
    var printAsOneliners: bool           // -lo: list references one per line
    var checkDirectory: bool             // -d: the argument is a directory
    var targetPath: Option<string>       // the accepted argument; null until then
    var totalInvalids: int               // missing references over the whole run
    var invalidProjects: seq<string>     // "{project}, {head}" for each of them

    /** Every missing reference is counted once and listed once. */
    ghost predicate Valid()
      reads this
    {
      totalInvalids == |invalidProjects|
    }

    /** The fields' initial values. */
    constructor ()
      ensures Valid()
      ensures !printReferences && !printAsOneliners && !checkDirectory && targetPath == None
      ensures totalInvalids == 0 && invalidProjects == []
    {
      printReferences, printAsOneliners, checkDirectory := false, false, false;
      targetPath := None;
      totalInvalids, invalidProjects := 0, [];
    }

    /**
     * Reads the flags out of `args` and accepts the first argument when it is
     * an existing file, or an existing directory in directory mode. Flags are
     * only ever switched on, and they stay on even when the argument is
     * refused.
     */
    method ProcessArguments(args: seq<string>, fs: FileSystem) returns (ok: bool)
      modifies this`printReferences, this`printAsOneliners, this`checkDirectory, this`targetPath
      ensures args == [] ==> !ok && unchanged(this)
      ensures args != [] ==> printReferences == (old(printReferences) || "-l" in args || "-lo" in args)
      ensures args != [] ==> printAsOneliners == (old(printAsOneliners) || "-lo" in args)
      ensures args != [] ==> checkDirectory == (old(checkDirectory) || "-d" in args)
      ensures ok == Accepts(args, fs, old(checkDirectory) || "-d" in args)
      ensures targetPath == if ok then Some(args[0]) else old(targetPath)
    {
      if |args| == 0 {
        return false;
      }
      if "-l" in args {
        printReferences := true;
      }
      if "-lo" in args {
        printAsOneliners := true;
        printReferences := true;
      }
      if "-d" in args {
        checkDirectory := true;
      }
      if args[0] in fs.files || (args[0] in fs.directories && checkDirectory) {
        targetPath := Some(args[0]);
      } else {
        return false;
      }
      return true;
    }

    /**
     * Checks the hint path of every reference of the project in directory
     * `path`: a missing file is counted and listed as `"{project}, {head}"`,
     * a reference without a hint path is skipped, and the project's count is
     * added to the run's total.
     */
    method CheckIfExists(references: seq<Reference>, path: string, fs: FileSystem) returns (report: ProjectReport)
      requires Valid()
      modifies this`totalInvalids, this`invalidProjects
      ensures Valid()
      ensures report == CheckProject(references, path, fs)
      ensures totalInvalids == old(totalInvalids) + report.invalid
      ensures invalidProjects == old(invalidProjects) + report.entries
    {
      var invalidCounter := 0;
      var projectName := ProjectName(path);
      var before := invalidProjects;
      var i := 0;
      while i < |references|
        invariant 0 <= i <= |references|
        invariant invalidCounter == MissingCount(references[..i], path, fs)
        invariant invalidProjects == before + MissingEntries(projectName, references[..i], path, fs)
        invariant totalInvalids == old(totalInvalids)
      {
        var reference := references[i];
        if reference.hintPath != None {
          if fs.combine(path, reference.hintPath.value) !in fs.files {
            var invalidProject := IdentityHead(reference.identity);
            invalidProjects := invalidProjects + [Entry(projectName, invalidProject)];
            invalidCounter := invalidCounter + 1;
          }
        }
        assert references[..i + 1][..i] == references[..i];
        i := i + 1;
      }
      assert references[..i] == references;
      totalInvalids := totalInvalids + invalidCounter;
      report := ProjectReport(projectName, |references|, invalidCounter, invalidProjects[|before|..]);
    }

    /**
     * Processes one project file: loads it, extracts its references and
     * checks them against the file's own directory. A file that cannot be
     * loaded or holds a reference without `Include` ends the run before any
     * counter changes.
     */
    method ProcessFile(path: string, fs: FileSystem) returns (result: Result<ProjectReport, Failure>)
      requires Valid()
      modifies this`totalInvalids, this`invalidProjects
      ensures Valid()
      ensures result == FileReport(path, fs)
      ensures result.Success? ==> totalInvalids == old(totalInvalids) + result.value.invalid &&
                                  invalidProjects == old(invalidProjects) + result.value.entries
      ensures result.Failure? ==> totalInvalids == old(totalInvalids) && invalidProjects == old(invalidProjects)
    {
      var doc := fs.load(path);
      if doc.None? {
        return Failure(Unloadable(path));
      }
      var references := GetReferences(doc.value);
      if references.Failure? {
        return Failure(MalformedProject(path, references.error.element));
      }
      var report := CheckIfExists(references.value, fs.directoryName(path), fs);
      result := Success(report);
    }

    /**
     * Processes every project file found under each immediate subdirectory of
     * `path`, in order, adding each project's results to the run's counters;
     * the first file that fails ends the run.
     */
    method ProcessDirectory(path: string, fs: FileSystem) returns (outcome: RunOutcome)
      requires Valid()
      modifies this`totalInvalids, this`invalidProjects
      ensures Valid()
      ensures outcome == DirectoryRun(path, fs)
      ensures totalInvalids == old(totalInvalids) + TotalInvalid(outcome.reports)
      ensures invalidProjects == old(invalidProjects) + AllEntries(outcome.reports)
    {
      if path !in fs.directories {
        return Aborted([], NotADirectory(path));
      }
      var dirs := fs.subdirectories(path);
      var reports: seq<ProjectReport> := [];
      ghost var visited: seq<string> := [];
      var i := 0;
      while i < |dirs|
        invariant 0 <= i <= |dirs|
        invariant visited == Discovered(dirs[..i], fs)
        invariant RunFiles(visited, ProcessOne(fs)) == Completed(reports)
        invariant Valid()
        invariant totalInvalids == old(totalInvalids) + TotalInvalid(reports)
        invariant invalidProjects == old(invalidProjects) + AllEntries(reports)
      {
        var files := fs.projectFiles(dirs[i]);
        ghost var done := visited;
        var j := 0;
        while j < |files|
          invariant 0 <= j <= |files|
          invariant visited == done + files[..j]
          invariant RunFiles(visited, ProcessOne(fs)) == Completed(reports)
          invariant Valid()
          invariant totalInvalids == old(totalInvalids) + TotalInvalid(reports)
          invariant invalidProjects == old(invalidProjects) + AllEntries(reports)
        {
          ghost var entriesBefore := AllEntries(reports);
          ghost var listed := invalidProjects;
          var result := ProcessFile(files[j], fs);
          RunFilesStep(visited, files[j], ProcessOne(fs), reports);
          if result.Failure? {
            outcome := Aborted(reports, result.error);
            DiscoveredSplit(dirs, i, j, fs);
            AbortedStaysAborted(visited + [files[j]], files[j + 1..] + Discovered(dirs[i + 1..], fs), ProcessOne(fs));
            return;
          }
          SummaryStep(reports, result.value);
          ghost var added := result.value.entries;
          assert invalidProjects == listed + added;
          assert listed == old(invalidProjects) + entriesBefore;
          ConcatAssociative(old(invalidProjects), entriesBefore, added);
          PrefixStep(done, files, j);
          visited := visited + [files[j]];
          reports := reports + [result.value];
          j := j + 1;
        }
        assert files[..j] == files;
        DiscoveredStep(dirs, i, fs);
        i := i + 1;
      }
      assert dirs[..i] == dirs;
      outcome := Completed(reports);
    }

    /**
     * One invocation of the program: check the arguments, then process the
     * accepted directory or file. A refused invocation shows the usage text
     * and exits with a failure status; missing references do not.
     */
    method Run(args: seq<string>, fs: FileSystem) returns (exit: Exit)
      requires Valid()
      modifies this
      ensures Valid()
      ensures args == [] ==> printReferences == old(printReferences) && printAsOneliners == old(printAsOneliners) &&
                             checkDirectory == old(checkDirectory)
      ensures args != [] ==> printReferences == (old(printReferences) || "-l" in args || "-lo" in args)
      ensures args != [] ==> printAsOneliners == (old(printAsOneliners) || "-lo" in args)
      ensures args != [] ==> checkDirectory == (old(checkDirectory) || "-d" in args)
      ensures exit.InvalidInvocation? <==> !Accepts(args, fs, old(checkDirectory) || "-d" in args)
      ensures exit.InvalidInvocation? ==> targetPath == old(targetPath)
      ensures exit.Ran? ==> targetPath == Some(args[0]) &&
                            exit.outcome == if old(checkDirectory) || "-d" in args then DirectoryRun(args[0], fs)
                                            else FileRun(args[0], fs)
      ensures exit.Ran? ==> totalInvalids == old(totalInvalids) + TotalInvalid(exit.outcome.reports) &&
                            invalidProjects == old(invalidProjects) + AllEntries(exit.outcome.reports)
      ensures exit.InvalidInvocation? ==> totalInvalids == old(totalInvalids) && invalidProjects == old(invalidProjects)
    {
      ghost var total0, list0 := totalInvalids, invalidProjects;
      var ok := ProcessArguments(args, fs);
      assert totalInvalids == total0 && invalidProjects == list0;
      if !ok {
        return InvalidInvocation;
      }
      var target := targetPath.value;
      if checkDirectory {
        var outcome := ProcessDirectory(target, fs);
        exit := Ran(outcome);
      } else {
        var result := ProcessFile(target, fs);
        FileRunOf(target, fs, result);
        exit := Ran(if result.Success? then Completed([result.value]) else Aborted([], result.error));
      }
    }
  }
}
