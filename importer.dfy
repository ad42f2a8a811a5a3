/** The run of the copier (Program.cs:17-50 with ScanForDcuments'
    bookkeeping): validate the arguments, read the watermark from the
    sentinel file in the source root, filter and copy the candidates, write
    the new watermark, then trim the destination. The run is the program as
    written: the timestamp is formatted under the process's current culture
    (Program.cs:159) and the trim pass may delete the destination root itself
    (Program.cs:41). */
module Importer {
  import opened Common
  import opened Paths
  import opened Timestamps
  import opened Filter
  import opened DestTree
  import opened CopyEngine
  import opened Trimmer

  /** The destination used when no second argument is given (Program.cs:8). */
  const DefaultDestination: Path := "/volume1/dockerdata/paperless/data/consume"

  /** What the run finds around it. */
  datatype Environment = Environment(
    directories: set<Path>,          // directories that exist, by full name
    textFiles: map<Path, string>,    // the content of text files, by full name
    listing: seq<FileRecord>,        // the recursive listing of the source directory
    destination: Dir,                // the tree below the destination directory
    now: DateTime,                   // DateTime.UtcNow when the timestamp is written
    culture: Culture,                // CultureInfo.CurrentCulture of the process
    copyFaults: map<Path, Attempt>,  // which copy attempts throw
    trimFaults: TrimFaults)          // which deletions the trim pass meets refused

  /** What the run reports: the message of the exception that ended it at
      start-up, or what it did. */
  datatype Report =
    | Fatal(message: string)
    | Completed(watermark: DateTime, candidates: seq<FileRecord>, summary: Summary, trimmed: Trimmed)

  /** The report and the environment the run leaves behind. */
  datatype Result = Result(report: Report, after: Environment)

  /** The destination directory the arguments select: the second argument
      only when there are exactly two (Program.cs:26-27). */
  function DestinationOf(args: seq<Path>): (dest: Path)
    ensures |args| == 2 ==> dest == args[1]
    ensures |args| != 2 ==> dest == DefaultDestination
  {
    if |args| == 2 then args[1] else DefaultDestination
  }

  /** The sentinel file in the source root (Program.cs:35). */
  function TimestampPath(src: Path): (p: Path)
    ensures src != [] ==> p == WithTrailingSeparator(src) + SentinelName
  {
    Combine(src, SentinelName)
  }

  /** The environment as the operating system guarantees it: the listing of
      a directory holds files below that directory, and the clock reads a
      valid time. The source is neither the destination nor below it, so the
      sentinel never lands in the tree the trim pass walks. */
  predicate Consistent(args: seq<Path>, env: Environment) {
    Valid(env.now) && WellFormedCulture(env.culture) &&
    (|args| > 0 ==> args[0] != DestinationOf(args) && !IsUnder(args[0], DestinationOf(args))) &&
    (|args| > 0 ==> forall f :: f in env.listing ==> IsUnder(f.fullName, args[0]))
  }

  /** The sentinel's content when the file exists (File.Exists). */
  function SentinelText(env: Environment, path: Path): (text: Option<string>)
    ensures text.Some? <==> path in env.textFiles
  {
    if path in env.textFiles then Some(env.textFiles[path]) else None
  }

  /** One run of the program. */
  function Import(args: seq<Path>, env: Environment): (r: Result)
    requires Consistent(args, env)
    ensures r.report.Completed? ==>
              r.report.summary.copied + r.report.summary.skipped + r.report.summary.errored ==
              |r.report.candidates|
  {
    if |args| == 0 then Result(Fatal("Please specify source folder."), env)
    else
      var src := args[0];
      var dest := DestinationOf(args);
      if src !in env.directories then
        Result(Fatal("Source folder " + src + " does not exist."), env)
      else if dest !in env.directories then
        Result(Fatal("Destination folder " + dest + " does not exist."), env)
      else
        ImportFrom(src, dest, env)
  }

  /** The run once the start-up checks have passed: read the watermark,
      filter and copy, write the timestamp under the current culture, trim
      the destination `dest` from its root. A root the pass deletes no longer
      exists for the next run; after an interrupted trim pass the destination
      stays as the copy loop left it. */
  function ImportFrom(src: Path, dest: Path, env: Environment): (r: Result)
    requires forall f :: f in env.listing ==> IsUnder(f.fullName, src)
    requires Valid(env.now) && WellFormedCulture(env.culture) && dest in env.directories
    requires src != dest && !IsUnder(src, dest)
    ensures r.report.Completed?
    ensures r.report.summary.copied + r.report.summary.skipped + r.report.summary.errored ==
            |r.report.candidates|
    ensures r.report.trimmed.Removed? <==> dest !in r.after.directories
  {
    var stamp := TimestampPath(src);
    var watermark := ReadLastImportDate(MinValue, SentinelText(env, stamp));
    var candidates := Candidates(env.listing, watermark);
    var copy := Run(env.destination, Jobs(candidates, src, env.copyFaults));
    var trimmed := TrimDestinationAsWritten(copy.tree, env.trimFaults);
    var tree := match trimmed
      case Kept(dir) => dir
      case Removed => EmptyDir
      case Aborted => copy.tree;
    var directories := if trimmed.Removed? then env.directories - {dest} else env.directories;
    Result(Completed(watermark, candidates, Tally(copy.outcomes), trimmed),
           env.(directories := directories,
                textFiles := env.textFiles[stamp := WriteTimestampAsWritten(env.now, env.culture)],
                destination := tree))
  }

  // ---------------------------------------------------------------------
  // The program's state, as its static fields

  /** The static fields of the program and the steps of Main that set them. */
  class Program {
    var srcDir: Option<Path>
    var destDir: Path
    var earliestDate: DateTime
    var timestampPath: Option<Path>

    /** The fields as the program starts (Program.cs:7-11). */
    predicate Initial()
      reads this
    {
      srcDir == None && destDir == DefaultDestination && earliestDate == MinValue && timestampPath == None
    }

    constructor ()
      ensures Initial()
    {
      srcDir := None;
      destDir := DefaultDestination;
      earliestDate := MinValue;
      timestampPath := None;
    }

    /** ReadLastImportDate (Program.cs:87-103). */
    method ReadLastImportDate(env: Environment)
      requires timestampPath.Some?
      modifies this
      ensures srcDir == old(srcDir) && destDir == old(destDir) && timestampPath == old(timestampPath)
      ensures earliestDate ==
                Timestamps.ReadLastImportDate(old(earliestDate), SentinelText(env, timestampPath.value))
    {
      var path := timestampPath.value;
      if path in env.textFiles {
        var line := FirstLine(env.textFiles[path]);
        earliestDate := MinValue;
        if line.Some? {
          var date := Parse(line.value);
          if date.Some? {
            earliestDate := date.value;
          }
        }
      }
    }

    /** ScanForDcuments (Program.cs:105-160): filter, copy, write the
        timestamp under the current culture. */
    method ScanForDocuments(env: Environment) returns (candidates: seq<FileRecord>, summary: Summary, tree: Dir, textFiles: map<Path, string>)
      requires srcDir.Some? && timestampPath.Some? && Valid(env.now) && WellFormedCulture(env.culture)
      requires forall f :: f in env.listing ==> IsUnder(f.fullName, srcDir.value)
      ensures candidates == Candidates(env.listing, earliestDate)
      ensures var copy := Run(env.destination, Jobs(candidates, srcDir.value, env.copyFaults));
              summary == Tally(copy.outcomes) && tree == copy.tree
      ensures textFiles == env.textFiles[timestampPath.value := WriteTimestampAsWritten(env.now, env.culture)]
    {
      candidates := Candidates(env.listing, earliestDate);
      summary, tree := CopyCandidates(candidates, srcDir.value, env.destination, env.copyFaults);
      textFiles := env.textFiles[timestampPath.value := WriteTimestampAsWritten(env.now, env.culture)];
    }

    /** Main (Program.cs:17-50), from the fields as the program starts. */
    method Start(args: seq<Path>, env: Environment) returns (r: Result)
      requires Initial() && Consistent(args, env)
      modifies this
      ensures r == Import(args, env)
      ensures |args| > 0 ==> srcDir == Some(args[0]) && destDir == DestinationOf(args)
      ensures r.report.Completed? ==> timestampPath == Some(TimestampPath(args[0])) &&
                                      earliestDate == r.report.watermark
    {
      if |args| == 0 {
        return Result(Fatal("Please specify source folder."), env);
      }
      srcDir := Some(args[0]);
      if |args| == 2 {
        destDir := args[1];
      }
      if args[0] !in env.directories {
        return Result(Fatal("Source folder " + args[0] + " does not exist."), env);
      }
      if destDir !in env.directories {
        return Result(Fatal("Destination folder " + destDir + " does not exist."), env);
      }
      timestampPath := Some(TimestampPath(args[0]));
      r := Proceed(env);
    }

    /** Main after the start-up checks: read the watermark, scan and copy,
        trim the destination from its root (Program.cs:37-41). */
    method Proceed(env: Environment) returns (r: Result)
      requires srcDir.Some? && timestampPath == Some(TimestampPath(srcDir.value)) && earliestDate == MinValue
      requires Valid(env.now) && WellFormedCulture(env.culture) && destDir in env.directories
      requires srcDir.value != destDir && !IsUnder(srcDir.value, destDir)
      requires forall f :: f in env.listing ==> IsUnder(f.fullName, srcDir.value)
      modifies this
      ensures srcDir == old(srcDir) && destDir == old(destDir) && timestampPath == old(timestampPath)
      ensures r == ImportFrom(srcDir.value, destDir, env)
      ensures earliestDate == r.report.watermark
    {
      ReadLastImportDate(env);
      var candidates, summary, tree, textFiles := ScanForDocuments(env);
      var trimmed := TrimEmptyDirs(tree, [], env.trimFaults);
      var kept := tree;
      var directories := env.directories;
      match trimmed {
        case Kept(dir) => kept := dir;
        case Removed =>
          kept := EmptyDir;
          directories := directories - {destDir};
        case Aborted =>
      }
      r := Result(Completed(earliestDate, candidates, summary, trimmed),
                  env.(directories := directories, textFiles := textFiles, destination := kept));
    }
  }

  // ---------------------------------------------------------------------
  // Properties of a run

  /** The run stops at start-up exactly when no argument is given, the source
      directory is missing, or the selected destination is missing; it then
      changes nothing: no scan, copy, timestamp or trim. */
  lemma FatalIff(args: seq<Path>, env: Environment)
    requires Consistent(args, env)
    ensures Import(args, env).report.Fatal? <==>
              |args| == 0 || args[0] !in env.directories || DestinationOf(args) !in env.directories
    ensures Import(args, env).report.Fatal? ==> Import(args, env).after == env
  {
  }

  /** Arguments after the second are ignored, and so is a second one among
      three or more: the destination is overridden only by exactly two. */
  lemma ExtraArgumentsIgnored(args: seq<Path>, env: Environment)
    requires |args| > 2 && Consistent(args, env)
    ensures Consistent(args[..1], env)
    ensures Import(args, env) == Import(args[..1], env)
  {
  }

  /** A run that completes passed the start-up checks, and is the run from
      the source and the destination its arguments name. */
  lemma CompletedRun(args: seq<Path>, env: Environment)
    requires Consistent(args, env) && Import(args, env).report.Completed?
    ensures |args| > 0 && args[0] in env.directories && DestinationOf(args) in env.directories
    ensures Import(args, env) == ImportFrom(args[0], DestinationOf(args), env)
  {
  }

  /** Once the start-up checks pass, the timestamp is written, whatever the
      copy loop counted as errors and whatever the trim pass met: the write
      time, to the second, in the process's current culture. */
  lemma TimestampAlwaysWritten(args: seq<Path>, env: Environment)
    requires Consistent(args, env) && Import(args, env).report.Completed?
    ensures |args| > 0
    ensures var p := TimestampPath(args[0]);
            Import(args, env).after.textFiles == env.textFiles[p := WriteTimestampAsWritten(env.now, env.culture)]
  {
    CompletedRun(args, env);
  }

  /** When the current culture writes the run's month and the time
      separator as the invariant culture does, the next run that gets past
      its start-up checks reads back the time this run wrote, to the second,
      whatever else changed in between: it copies only files accessed after
      that second. */
  lemma WatermarkContinuity(args: seq<Path>, env: Environment, next: Environment)
    requires Consistent(args, env) && Import(args, env).report.Completed?
    requires AgreesWithInvariant(env.culture, env.now)
    requires Consistent(args, next) && next.textFiles == Import(args, env).after.textFiles
    ensures Import(args, next).report.Completed? ==>
              Import(args, next).report.watermark == Truncate(env.now) &&
              Import(args, next).report.candidates == Candidates(next.listing, Truncate(env.now))
  {
    TimestampAlwaysWritten(args, env);
    WatermarkRoundTrip(MinValue, env.now);
    if Import(args, next).report.Completed? {
      CompletedRun(args, next);
    }
  }

  /** As written, under a current culture whose abbreviation of the run's
      month is longer than the invariant one (fr-FR's "janv."), the next run
      cannot parse the timestamp and starts again from MinValue: every
      document in its listing is a candidate again. */
  lemma WatermarkLostAsWritten(args: seq<Path>, env: Environment, next: Environment)
    requires Consistent(args, env) && Import(args, env).report.Completed?
    requires |env.culture.monthAbbreviations[env.now.month - 1]| > 3 && |env.culture.timeSeparator| == 1
    requires NoLineBreak(env.culture.monthAbbreviations[env.now.month - 1]) && NoLineBreak(env.culture.timeSeparator)
    requires Consistent(args, next) && next.textFiles == Import(args, env).after.textFiles
    ensures Import(args, next).report.Completed? ==>
              Import(args, next).report.watermark == MinValue &&
              Import(args, next).report.candidates == Candidates(next.listing, MinValue)
  {
    TimestampAlwaysWritten(args, env);
    AsWrittenTimestampLost(MinValue, env.now, env.culture);
    if Import(args, next).report.Completed? {
      CompletedRun(args, next);
    }
  }

  /** The trim pass deletes the destination root exactly when, after the
      copy loop, its tree holds no file but `.DS_Store` files, none of them
      stuck, and no directory of it refuses deletion. The next run with the
      same arguments gets past its start-up checks exactly when the root
      survived. */
  lemma DestinationSurvives(args: seq<Path>, env: Environment)
    requires Consistent(args, env) && Import(args, env).report.Completed?
    ensures |args| > 0
    ensures var o := env.trimFaults;
            var tree := Run(env.destination, Jobs(Import(args, env).report.candidates, args[0], env.copyFaults)).tree;
            Import(args, env).report.trimmed.Removed? <==>
              !HasRealFile(tree) && !HasStuckDsStore(tree, [], o) && !HasUndeletable(tree, [], o)
    ensures Import(args, env).report.trimmed.Removed? <==> DestinationOf(args) !in Import(args, env).after.directories
    ensures Consistent(args, Import(args, env).after)
    ensures Import(args, Import(args, env).after).report.Completed? <==> !Import(args, env).report.trimmed.Removed?
  {
    CompletedRun(args, env);
  }

  /** As written, a run over an empty destination that copies nothing
      deletes the destination root, and the next run stops at start-up
      because the destination no longer exists. */
  lemma EmptiedDestinationStopsNextRun(args: seq<Path>, env: Environment)
    requires Consistent(args, env) && |args| == 2
    requires args[0] in env.directories && args[1] in env.directories
    requires env.listing == [] && env.destination == EmptyDir && env.trimFaults == NoTrimFaults
    ensures Import(args, env).report.trimmed == Removed
    ensures Import(args, Import(args, env).after).report == Fatal("Destination folder " + args[1] + " does not exist.")
  {
    EmptyDestinationRemovedAsWritten();
    assert Jobs(Candidates([], MinValue), args[0], env.copyFaults) == [];
  }

  /** Files already in the destination survive a run unchanged unless they
      are `.DS_Store` files, which the trim pass deletes; a destination
      holding such a file is never deleted. */
  lemma ExistingFilesSurvive(args: seq<Path>, env: Environment, q: SegPath)
    requires Consistent(args, env) && Import(args, env).report.Completed?
    requires HasFile(env.destination, q) && !IsDsStorePath(q)
    ensures !Import(args, env).report.trimmed.Removed?
    ensures Lookup(Import(args, env).after.destination, q) == Lookup(env.destination, q)
  {
    CompletedRun(args, env);
    var jobs := Jobs(Import(args, env).report.candidates, args[0], env.copyFaults);
    var copy := Run(env.destination, jobs);
    RunNeverOverwrites(env.destination, jobs);
    RealFileFound(copy.tree, q);
    var trimmed := TrimDestinationAsWritten(copy.tree, env.trimFaults);
    if trimmed.Kept? {
      TrimKeepsRealFiles(copy.tree, [], env.trimFaults);
    }
  }

  /** When the current culture writes this run's second as the invariant
      culture does, a file is a candidate of the next run exactly when it is
      a listed document last accessed after the start of that second. A file
      that failed to copy and was last accessed no later than that is not
      retried; one last accessed later within the same second as the write is
      retried without being accessed again. */
  lemma FailedCopyNotRetried(args: seq<Path>, env: Environment, next: Environment, f: FileRecord)
    requires Consistent(args, env) && Import(args, env).report.Completed?
    requires AgreesWithInvariant(env.culture, env.now)
    requires Consistent(args, next) && next.textFiles == Import(args, env).after.textFiles
    ensures Import(args, next).report.Completed? ==>
              (f in Import(args, next).report.candidates <==>
                 f in next.listing && IsDocument(f) && Before(Truncate(env.now), f.lastAccessUtc))
  {
    WatermarkContinuity(args, env, next);
  }

  // ---------------------------------------------------------------------
  // The end-to-end example

  /** One document copied into an empty destination lands at its relative
      path, and the counters read 1, 0, 0. */
  lemma CopyIntoEmpty(doc: FileRecord, src: Path, faults: map<Path, Attempt>)
    requires IsUnder(doc.fullName, src) && doc.fullName !in faults
    ensures var copy := Run(EmptyDir, Jobs([doc], src, faults));
            copy.outcomes == [Copied] && Tally(copy.outcomes) == Summary(1, 0, 0) &&
            Lookup(copy.tree, Destination(doc.fullName, src)) == Some(doc.fullName)
  {
    var p := Destination(doc.fullName, src);
    var jobs := Jobs([doc], src, faults);
    assert jobs == [Job(p, doc.fullName, NoFault)];
    assert PairwiseIndependent(jobs);
    assert WellFormed(EmptyDir);
    NothingBlocksInEmpty(Parent(p));
    OutcomesAreIsolated(EmptyDir, jobs, 0);
    CopiedFileLands(EmptyDir, jobs, 0);
    assert Run(EmptyDir, jobs).outcomes == [Copied];
    assert Tally([Copied]) == Summary(1, 0, 0) by {
      assert [Copied][..0] == [];
    }
  }

  /** A document's destination never names a `.DS_Store` file. */
  lemma DocumentIsNoDsStore(doc: FileRecord, src: Path)
    requires IsUnder(doc.fullName, src) && IsDocument(doc)
    ensures !IsDsStorePath(Destination(doc.fullName, src))
  {
    DocumentNotNamedDsStore(doc);
    DestinationNamesFile(doc.fullName, src, DsStore);
  }

  /** With no stuck `.DS_Store`, the trim pass over the destination is not
      interrupted. */
  lemma TrimWithoutStuckCompletes(tree: Dir, faults: TrimFaults)
    requires faults.dsStoreStuck == {}
    ensures !TrimDestinationAsWritten(tree, faults).Aborted?
  {
    NothingStuck(tree, [], faults);
    TrimAbortsIff(tree, [], faults);
  }

  /** With no stuck `.DS_Store`, trimming a destination that holds a
      document keeps the destination and the document in it. */
  lemma TrimKeepsDocument(tree: Dir, doc: FileRecord, src: Path, faults: TrimFaults)
    requires IsUnder(doc.fullName, src) && IsDocument(doc) && faults.dsStoreStuck == {}
    requires HasFile(tree, Destination(doc.fullName, src))
    ensures var trimmed := TrimDestinationAsWritten(tree, faults);
            trimmed.Kept? &&
            Lookup(trimmed.dir, Destination(doc.fullName, src)) ==
              Lookup(tree, Destination(doc.fullName, src))
  {
    DocumentIsNoDsStore(doc, src);
    RealFileFound(tree, Destination(doc.fullName, src));
    TrimWithoutStuckCompletes(tree, faults);
    TrimKeepsRealFiles(tree, [], faults);
  }

  /** A first run over a source holding one document and one other file,
      with no sentinel and an empty destination: the document is the one
      candidate and is copied to its relative path below the destination,
      the counters read 1, 0, 0, and the sentinel is created holding the
      run's time. */
  lemma FirstRunCopiesTheDocument(args: seq<Path>, env: Environment, doc: FileRecord, other: FileRecord)
    requires Consistent(args, env) && |args| == 2
    requires args[0] in env.directories && args[1] in env.directories
    requires TimestampPath(args[0]) !in env.textFiles
    requires env.listing == [doc, other] && IsCandidate(doc, MinValue) && !IsDocument(other)
    requires env.destination == EmptyDir && doc.fullName !in env.copyFaults
    requires env.trimFaults.dsStoreStuck == {}
    ensures var r := Import(args, env);
            r.report.Completed? && r.report.candidates == [doc] &&
            r.report.summary == Summary(1, 0, 0) &&
            Lookup(r.after.destination, Destination(doc.fullName, args[0])) == Some(doc.fullName) &&
            r.after.textFiles == env.textFiles[TimestampPath(args[0]) := WriteTimestampAsWritten(env.now, env.culture)]
  {
    var src := args[0];
    assert doc in env.listing;
    assert Candidates(env.listing, MinValue) == [doc] by {
      assert env.listing[1..] == [other];
      assert Candidates([other], MinValue) == [];
    }
    CopyIntoEmpty(doc, src, env.copyFaults);
    TrimKeepsDocument(Run(EmptyDir, Jobs([doc], src, env.copyFaults)).tree, doc, src, env.trimFaults);
  }

  const ReportPdf: FileRecord := FileRecord("/src/docs/report.pdf", DateTime(2024, 1, 5, 13, 45, 2, 0))
  const PhotoJpg: FileRecord := FileRecord("/src/docs/photo.jpg", DateTime(2024, 1, 5, 13, 45, 2, 0))

  /** The example's files: `docs/report.pdf` is a candidate under the
      initial watermark, `docs/photo.jpg` is not a document. */
  lemma ExampleCandidates()
    ensures IsCandidate(ReportPdf, MinValue) && !IsDocument(PhotoJpg)
  {
    assert Before(MinValue, ReportPdf.lastAccessUtc);
    ExtensionOfSuffix("/src/docs/report", "pdf");
    ExtensionOfSuffix("/src/docs/photo", "jpg");
    assert "/src/docs/report" + "." + "pdf" == ReportPdf.fullName;
    assert "/src/docs/photo" + "." + "jpg" == PhotoJpg.fullName;
    assert EqualsIgnoreCase(Extension(ReportPdf.fullName), DocumentExtensions[0]);
    assert Extension(PhotoJpg.fullName)[1] == 'j';
  }

  /** The text the example's run writes to the sentinel. */
  lemma ExampleSentinelText()
    ensures WriteTimestamp(ReportPdf.lastAccessUtc) == "05-Jan-2024 13:45:02"
  {
    assert Pad2(5) == "05" && Pad2(13) == "13" && Pad2(45) == "45" && Pad2(2) == "02";
    assert Pad4(2024) == "2024";
    assert Invariant.monthAbbreviations[0] == "Jan";
  }
}
