/** The copy loop of ScanForDcuments (Program.cs:120-155): each candidate is
    skipped when its destination file exists, otherwise its parent directory
    is created when missing and the file is copied; any exception on the way
    counts the candidate as errored and the loop goes on. */
module CopyEngine {
  import opened Common
  import opened Paths
  import opened Filter
  import opened DestTree

  /** What the environment does to one copy attempt: whether
      Directory.CreateDirectory throws (permissions, a full disk, ...) and
      whether File.Copy throws. */
  datatype Attempt = Attempt(createFails: bool, copyFails: bool)

  const NoFault: Attempt := Attempt(false, false)

  /** The attempt for a source file; files the map does not name meet no fault. */
  function AttemptFor(faults: map<Path, Attempt>, source: Path): Attempt {
    if source in faults then faults[source] else NoFault
  }

  datatype Outcome = Copied | Skipped | Errored

  /** The counters `copied`, `skipped` and `errored`. */
  datatype Summary = Summary(copied: nat, skipped: nat, errored: nat)

  /** One iteration's input: where the file goes (below the destination root),
      what it holds, and what the environment does to the attempt. */
  datatype Job = Job(dest: SegPath, source: Bytes, attempt: Attempt)

  predicate ValidJobs(jobs: seq<Job>) {
    forall i :: 0 <= i < |jobs| ==> |jobs[i].dest| > 0
  }

  /** The destination of a file below the source root, as segments below the
      destination root (Program.cs:126-128): written back with separators it
      is exactly the file's path relative to the source root. */
  function Destination(source: Path, srcRoot: Path): (p: SegPath)
    requires IsUnder(source, srcRoot)
    ensures |p| >= 1 && Join(p) == MakePathRelativeTo(source, srcRoot)
  {
    var rel := MakePathRelativeTo(source, srcRoot);
    JoinSplit(rel);
    Split(rel)
  }

  /** The destination's last segment is the source file's name. */
  lemma DestinationEndsWithFileName(source: Path, srcRoot: Path)
    requires IsUnder(source, srcRoot)
    ensures var p := Destination(source, srcRoot); p[|p| - 1] == FileName(source)
  {
    var rel := MakePathRelativeTo(source, srcRoot);
    LastSegmentIsFileName(rel);
    RelativeKeepsFileName(source, srcRoot);
  }

  /** A destination ends in a given name exactly when the source file has it. */
  lemma DestinationNamesFile(source: Path, srcRoot: Path, name: Path)
    requires IsUnder(source, srcRoot)
    ensures var p := Destination(source, srcRoot); p[|p| - 1] == name <==> FileName(source) == name
  {
    DestinationEndsWithFileName(source, srcRoot);
  }

  function Jobs(candidates: seq<FileRecord>, srcRoot: Path, faults: map<Path, Attempt>): (jobs: seq<Job>)
    requires forall c :: c in candidates ==> IsUnder(c.fullName, srcRoot)
    ensures |jobs| == |candidates| && ValidJobs(jobs)
  {
    seq(|candidates|, i requires 0 <= i < |candidates| =>
      Job(Destination(candidates[i].fullName, srcRoot), candidates[i].fullName,
          AttemptFor(faults, candidates[i].fullName)))
  }

  datatype Step = Step(outcome: Outcome, tree: Dir)

  /** The loop body for one candidate (Program.cs:126-154). CopyOneEffect
      states what each outcome means for the destination tree. */
  function CopyOne(d: Dir, job: Job): (s: Step)
    requires |job.dest| > 0
    ensures s.outcome == Skipped <==> HasFile(d, job.dest)
    ensures s.outcome == Skipped ==> s.tree == d
  {
    var p := job.dest;
    if HasFile(d, p) then Step(Skipped, d)
    else if HasDir(d, Parent(p)) then Place(d, job)
    else if job.attempt.createFails then Step(Errored, d)
    else
      var made := CreateDirectory(d, Parent(p));
      if made.None? then Step(Errored, d)
      else Place(made.value, job)
  }

  /** File.Copy without overwrite into an existing directory: it throws when
      its own attempt fails or when a directory already has the file's name. */
  function Place(d: Dir, job: Job): (s: Step)
    requires |job.dest| > 0 && HasDir(d, Parent(job.dest))
    ensures s.outcome != Skipped
    ensures s.outcome == Errored <==> job.attempt.copyFails || HasDir(d, job.dest)
    ensures s.outcome == Errored ==> s.tree == d
  {
    if job.attempt.copyFails || HasDir(d, job.dest) then Step(Errored, d)
    else Step(Copied, AddFile(d, job.dest, job.source))
  }

  /** What one candidate's outcome means. A copied file holds the source's
      content inside an existing parent directory; an error always has a
      cause: its own attempt failed, a file stood on the parent's path, or a
      directory already had the file's name. */
  lemma CopyOneEffect(d: Dir, job: Job)
    requires |job.dest| > 0
    ensures var s := CopyOne(d, job);
            (s.outcome == Copied ==>
               Lookup(s.tree, job.dest) == Some(job.source) && HasDir(s.tree, Parent(job.dest))) &&
            (s.outcome == Errored ==>
               job.attempt.createFails || job.attempt.copyFails ||
               Blocked(d, Parent(job.dest)) || HasDir(d, job.dest))
  {
    var p := job.dest;
    if !HasFile(d, p) {
      var d1 := d;
      if !HasDir(d, Parent(p)) && !job.attempt.createFails {
        var made := CreateDirectory(d, Parent(p));
        if made.None? {
          CreateDirectoryBlockedOrFails(d, Parent(p));
        } else {
          CreateDirectoryEffect(d, Parent(p));
          d1 := made.value;
          assert HasDir(d1, p) ==> HasDir(d, p);
        }
      }
      if HasDir(d1, Parent(p)) && !job.attempt.copyFails && !HasDir(d1, p) {
        AddFileEffect(d1, p, job.source);
      }
    }
  }

  /** CreateDirectory fails only where a file stands on the path. */
  lemma {:induction false} CreateDirectoryBlockedOrFails(d: Dir, p: SegPath)
    requires CreateDirectory(d, p).None?
    ensures Blocked(d, p)
    decreases |p|
  {
    if p[0] in d.subdirs {
      var c := d.subdirs[p[0]];
      CreateDirectoryBlockedOrFails(c, p[1..]);
      var i :| 0 < i <= |p[1..]| && HasFile(c, p[1..][..i]);
      assert p[..i + 1][1..] == p[1..][..i];
      assert HasFile(d, p[..i + 1]);
    } else if p[0] in d.files {
      assert HasFile(d, p[..1]);
    } else {
      EmptyNeverFails(p[1..]);
    }
  }

  lemma {:induction false} EmptyNeverFails(p: SegPath)
    ensures CreateDirectory(EmptyDir, p).Some?
    decreases |p|
  {
    if p != [] {
      EmptyNeverFails(p[1..]);
    }
  }

  /** Every outcome so far and the destination tree after them. */
  datatype RunState = RunState(outcomes: seq<Outcome>, tree: Dir)

  /** The loop over the candidates, in order, from destination tree `d`. */
  function Run(d: Dir, jobs: seq<Job>): (r: RunState)
    requires ValidJobs(jobs)
    ensures |r.outcomes| == |jobs|
  {
    if jobs == [] then RunState([], d)
    else
      var n := |jobs| - 1;
      var prev := Run(d, jobs[..n]);
      var s := CopyOne(prev.tree, jobs[n]);
      RunState(prev.outcomes + [s.outcome], s.tree)
  }

  /** The counter a candidate's outcome increments. */
  function Record(s: Summary, o: Outcome): (r: Summary)
    ensures r.copied == s.copied + (if o == Copied then 1 else 0)
    ensures r.skipped == s.skipped + (if o == Skipped then 1 else 0)
    ensures r.errored == s.errored + (if o == Errored then 1 else 0)
  {
    match o
    case Copied => s.(copied := s.copied + 1)
    case Skipped => s.(skipped := s.skipped + 1)
    case Errored => s.(errored := s.errored + 1)
  }

  /** The three counters after a sequence of outcomes: every candidate
      increments exactly one of them. */
  function Tally(outcomes: seq<Outcome>): (s: Summary)
    ensures s.copied + s.skipped + s.errored == |outcomes|
  {
    if outcomes == [] then Summary(0, 0, 0)
    else Record(Tally(outcomes[..|outcomes| - 1]), outcomes[|outcomes| - 1])
  }

  /** Each counter is the number of candidates with its outcome. */
  lemma {:induction false} TallyCounts(outcomes: seq<Outcome>)
    ensures var m := multiset(outcomes);
            Tally(outcomes) == Summary(m[Copied], m[Skipped], m[Errored])
  {
    if outcomes != [] {
      var n := |outcomes| - 1;
      TallyCounts(outcomes[..n]);
      assert outcomes == outcomes[..n] + [outcomes[n]];
      assert multiset(outcomes) == multiset(outcomes[..n]) + multiset{outcomes[n]};
    }
  }

  /** One pass of the loop body on the destination tree: the file is skipped
      when it exists, otherwise its directory is created when missing and the
      file copied; a failure of either counts as an error. */
  method CopyFile(tree: Dir, p: SegPath, source: Path, attempt: Attempt) returns (outcome: Outcome, after: Dir)
    requires |p| > 0
    ensures Step(outcome, after) == CopyOne(tree, Job(p, source, attempt))
  {
    if HasFile(tree, p) {
      return Skipped, tree;
    }
    after := tree;
    if !HasDir(after, Parent(p)) {
      if attempt.createFails {
        return Errored, tree;
      }
      var made := CreateDirectory(after, Parent(p));
      if made.None? {
        return Errored, tree;
      }
      after := made.value;
    }
    if attempt.copyFails || HasDir(after, p) {
      return Errored, after;
    }
    after := AddFile(after, p, source);
    outcome := Copied;
  }

  /** The copy loop itself. The counters and the destination tree are those
      of Run; each candidate increments exactly one counter. */
  method CopyCandidates(candidates: seq<FileRecord>, srcRoot: Path, dest: Dir, faults: map<Path, Attempt>)
    returns (summary: Summary, tree: Dir)
    requires forall c :: c in candidates ==> IsUnder(c.fullName, srcRoot)
    ensures var r := Run(dest, Jobs(candidates, srcRoot, faults));
            summary == Tally(r.outcomes) && tree == r.tree
    ensures summary.copied + summary.skipped + summary.errored == |candidates|
  {
    ghost var jobs := Jobs(candidates, srcRoot, faults);
    ghost var outcomes: seq<Outcome> := [];
    summary := Summary(0, 0, 0);
    tree := dest;
    var i := 0;
    while i < |candidates|
      invariant 0 <= i <= |candidates|
      invariant Run(dest, jobs[..i]) == RunState(outcomes, tree)
      invariant summary == Tally(outcomes)
    {
      var file := candidates[i];
      var p := Destination(file.fullName, srcRoot);
      var attempt := AttemptFor(faults, file.fullName);
      assert jobs[i] == Job(p, file.fullName, attempt);
      ghost var before := tree;
      var outcome;
      outcome, tree := CopyFile(tree, p, file.fullName, attempt);
      RunStep(dest, jobs, i, outcomes, before, outcome, tree);
      TallyStep(outcomes, outcome);
      summary := Record(summary, outcome);
      outcomes := outcomes + [outcome];
      i := i + 1;
    }
    assert jobs[..|candidates|] == jobs;
  }

  /** Run over one more candidate. */
  lemma RunStep(d: Dir, jobs: seq<Job>, i: nat, outcomes: seq<Outcome>, prev: Dir, o: Outcome, next: Dir)
    requires ValidJobs(jobs) && i < |jobs|
    requires Run(d, jobs[..i]) == RunState(outcomes, prev)
    requires CopyOne(prev, jobs[i]) == Step(o, next)
    ensures Run(d, jobs[..i + 1]) == RunState(outcomes + [o], next)
  {
    assert jobs[..i + 1][..i] == jobs[..i];
  }

  /** Counting one more outcome. */
  lemma TallyStep(outcomes: seq<Outcome>, o: Outcome)
    ensures Tally(outcomes + [o]) == Record(Tally(outcomes), o)
  {
    assert (outcomes + [o])[..|outcomes|] == outcomes;
  }

  // ---------------------------------------------------------------------
  // Properties of the loop

  /** Run is built one candidate at a time: its first n outcomes are those of
      the run over the first n candidates. */
  lemma {:induction false} RunPrefix(d: Dir, jobs: seq<Job>, n: nat)
    requires ValidJobs(jobs) && n <= |jobs|
    ensures Run(d, jobs[..n]).outcomes == Run(d, jobs).outcomes[..n]
    decreases |jobs|
  {
    if n < |jobs| {
      var m := |jobs| - 1;
      assert jobs[..m][..n] == jobs[..n];
      RunPrefix(d, jobs[..m], n);
    } else {
      assert jobs[..n] == jobs;
    }
  }

  /** The outcome of candidate `i` is decided on the tree the earlier
      candidates left. */
  lemma RunOutcomeAt(d: Dir, jobs: seq<Job>, i: nat)
    requires ValidJobs(jobs) && i < |jobs|
    ensures Run(d, jobs).outcomes[i] == CopyOne(Run(d, jobs[..i]).tree, jobs[i]).outcome
  {
    RunPrefix(d, jobs, i + 1);
    assert jobs[..i + 1][..i] == jobs[..i];
  }

  /** One step changes no file but its own destination, removes no directory,
      adds only directories along its destination's parent, and keeps a real
      filesystem real. */
  lemma CopyOneFrame(d: Dir, job: Job)
    requires |job.dest| > 0
    ensures var t := CopyOne(d, job).tree;
            (forall q :: q != job.dest ==> Lookup(t, q) == Lookup(d, q)) &&
            (forall q :: HasFile(d, q) ==> Lookup(t, q) == Lookup(d, q)) &&
            (forall q :: HasDir(d, q) ==> HasDir(t, q)) &&
            (forall q :: HasDir(t, q) ==> HasDir(d, q) || IsPrefix(q, Parent(job.dest))) &&
            (WellFormed(d) ==> WellFormed(t))
  {
    var p := job.dest;
    if !HasFile(d, p) && !HasDir(d, Parent(p)) && !job.attempt.createFails &&
       CreateDirectory(d, Parent(p)).Some? {
      CreateDirectoryEffect(d, Parent(p));
      var d1 := CreateDirectory(d, Parent(p)).value;
      if !job.attempt.copyFails && !HasDir(d1, p) {
        AddFileEffect(d1, p, job.source);
      }
    } else if !HasFile(d, p) && HasDir(d, Parent(p)) && !job.attempt.copyFails && !HasDir(d, p) {
      AddFileEffect(d, p, job.source);
    }
  }

  /** Files already at the destination keep their content through the whole
      loop, and directories stay: nothing is ever overwritten or removed. */
  lemma {:induction false} RunNeverOverwrites(d: Dir, jobs: seq<Job>)
    requires ValidJobs(jobs)
    ensures forall q :: HasFile(d, q) ==> Lookup(Run(d, jobs).tree, q) == Lookup(d, q)
    ensures forall q :: HasDir(d, q) ==> HasDir(Run(d, jobs).tree, q)
    ensures WellFormed(d) ==> WellFormed(Run(d, jobs).tree)
  {
    if jobs != [] {
      var n := |jobs| - 1;
      RunNeverOverwrites(d, jobs[..n]);
      CopyOneFrame(Run(d, jobs[..n]).tree, jobs[n]);
    }
  }

  /** A candidate counted as copied ends the loop at its destination with the
      source's content, inside an existing parent directory. */
  lemma {:induction false} CopiedFileLands(d: Dir, jobs: seq<Job>, i: nat)
    requires ValidJobs(jobs) && i < |jobs|
    requires Run(d, jobs).outcomes[i] == Copied
    ensures Lookup(Run(d, jobs).tree, jobs[i].dest) == Some(jobs[i].source)
    ensures HasDir(Run(d, jobs).tree, Parent(jobs[i].dest))
  {
    RunOutcomeAt(d, jobs, i);
    CopyOneEffect(Run(d, jobs[..i]).tree, jobs[i]);
    var t := CopyOne(Run(d, jobs[..i]).tree, jobs[i]).tree;
    assert Run(d, jobs[..i + 1]).tree == t by {
      assert jobs[..i + 1][..i] == jobs[..i];
    }
    RunSplit(d, jobs, i + 1);
    RunNeverOverwrites(t, jobs[i + 1..]);
  }

  /** Running the loop in two parts is running it once. */
  lemma RunSplit(d: Dir, jobs: seq<Job>, n: nat)
    requires ValidJobs(jobs) && n <= |jobs|
    ensures Run(Run(d, jobs[..n]).tree, jobs[n..]).tree == Run(d, jobs).tree
    ensures Run(d, jobs[..n]).outcomes + Run(Run(d, jobs[..n]).tree, jobs[n..]).outcomes
            == Run(d, jobs).outcomes
  {
    assert jobs[..n] + jobs[n..] == jobs;
    RunAppendTree(d, jobs[..n], jobs[n..]);
    RunAppend(d, jobs[..n], jobs[n..]);
  }

  lemma ValidJobsAppend(a: seq<Job>, b: seq<Job>)
    requires ValidJobs(a) && ValidJobs(b)
    ensures ValidJobs(a + b)
  {
  }

  lemma {:induction false} RunAppendTree(d: Dir, a: seq<Job>, b: seq<Job>)
    requires ValidJobs(a) && ValidJobs(b) && ValidJobs(a + b)
    ensures Run(Run(d, a).tree, b).tree == Run(d, a + b).tree
    decreases |b|
  {
    if b == [] {
      assert a + b == a;
    } else {
      var b' := b[..|b| - 1];
      assert (a + b)[..|a + b| - 1] == a + b';
      assert (a + b)[|a + b| - 1] == b[|b| - 1];
      ValidJobsAppend(a, b');
      RunAppendTree(d, a, b');
    }
  }

  lemma {:induction false} RunAppend(d: Dir, a: seq<Job>, b: seq<Job>)
    requires ValidJobs(a) && ValidJobs(b) && ValidJobs(a + b)
    ensures Run(d, a).outcomes + Run(Run(d, a).tree, b).outcomes == Run(d, a + b).outcomes
    decreases |b|
  {
    if b == [] {
      assert a + b == a;
    } else {
      var b' := b[..|b| - 1];
      assert (a + b)[..|a + b| - 1] == a + b';
      assert (a + b)[|a + b| - 1] == b[|b| - 1];
      ValidJobsAppend(a, b');
      RunAppend(d, a, b');
      RunAppendTree(d, a, b');
      var head := Run(d, a);
      var tail := Run(head.tree, b');
      var o := CopyOne(tail.tree, b[|b| - 1]).outcome;
      assert head.outcomes + (tail.outcomes + [o]) == (head.outcomes + tail.outcomes) + [o];
    }
  }

  // ---------------------------------------------------------------------
  // Independence of the candidates

  /** Neither path leads through the other, as for two files of one tree. */
  predicate Independent(p: SegPath, q: SegPath) {
    !IsPrefix(p, q) && !IsPrefix(q, p)
  }

  predicate PairwiseIndependent(jobs: seq<Job>) {
    forall i, j :: 0 <= i < |jobs| && 0 <= j < |jobs| && i != j ==> Independent(jobs[i].dest, jobs[j].dest)
  }

  /** What a job's outcome depends on, read on a tree. */
  predicate SeesAlike(t: Dir, d: Dir, p: SegPath)
    requires |p| > 0
  {
    HasFile(t, p) == HasFile(d, p) && HasDir(t, p) == HasDir(d, p) &&
    Blocked(t, Parent(p)) == Blocked(d, Parent(p)) &&
    (HasDir(d, Parent(p)) ==> HasDir(t, Parent(p)))
  }

  /** A step for one destination leaves unchanged what an independent
      destination's step will look at. */
  lemma StepKeepsIndependentView(t: Dir, d: Dir, job: Job, p: SegPath)
    requires |job.dest| > 0 && |p| > 0 && Independent(job.dest, p)
    requires SeesAlike(t, d, p)
    ensures SeesAlike(CopyOne(t, job).tree, d, p)
  {
    var t' := CopyOne(t, job).tree;
    CopyOneFrame(t, job);
    assert HasFile(t', p) == HasFile(t, p);
  }

  lemma {:induction false} RunKeepsIndependentView(d: Dir, jobs: seq<Job>, n: nat)
    requires ValidJobs(jobs) && PairwiseIndependent(jobs) && n <= |jobs|
    ensures forall j :: n <= j < |jobs| ==> SeesAlike(Run(d, jobs[..n]).tree, d, jobs[j].dest)
  {
    if n > 0 {
      RunKeepsIndependentView(d, jobs, n - 1);
      var prev := Run(d, jobs[..n - 1]);
      assert jobs[..n][..n - 1] == jobs[..n - 1];
      assert Run(d, jobs[..n]).tree == CopyOne(prev.tree, jobs[n - 1]).tree;
      forall j | n <= j < |jobs| ensures SeesAlike(Run(d, jobs[..n]).tree, d, jobs[j].dest) {
        StepKeepsIndependentView(prev.tree, d, jobs[n - 1], jobs[j].dest);
      }
    } else {
      forall j | 0 <= j < |jobs| ensures SeesAlike(Run(d, jobs[..0]).tree, d, jobs[j].dest) {
        assert Run(d, jobs[..0]).tree == d;
      }
    }
  }

  /** For the files of one source tree, each candidate's outcome is decided
      by the destination as it was before the loop and by that candidate's own
      attempt, never by another candidate's failure: it is skipped exactly
      when its destination file already existed; it is copied whenever
      nothing stood in its way and its own attempt met no fault; and an error
      always has a cause of its own. (A failing directory creation is the one
      fault an earlier candidate can spare it, by creating the directory.) */
  lemma {:induction false} OutcomesAreIsolated(d: Dir, jobs: seq<Job>, i: nat)
    requires WellFormed(d) && ValidJobs(jobs) && PairwiseIndependent(jobs) && i < |jobs|
    ensures var o := Run(d, jobs).outcomes[i];
            var p := jobs[i].dest;
            var a := jobs[i].attempt;
            (o == Skipped <==> HasFile(d, p)) &&
            ((!HasFile(d, p) && !HasDir(d, p) && !Blocked(d, Parent(p)) && !a.copyFails &&
              (!a.createFails || HasDir(d, Parent(p)))) ==> o == Copied) &&
            (!HasFile(d, p) && (a.copyFails || HasDir(d, p)) ==> o == Errored) &&
            (o == Errored ==> a.createFails || a.copyFails || HasDir(d, p) || Blocked(d, Parent(p)))
  {
    var p := jobs[i].dest;
    var t := Run(d, jobs[..i]).tree;
    RunOutcomeAt(d, jobs, i);
    RunKeepsIndependentView(d, jobs, i);
    RunNeverOverwrites(d, jobs[..i]);
    assert SeesAlike(t, d, p);
    CopyOneEffect(t, jobs[i]);
    if !HasFile(t, p) && !HasDir(t, Parent(p)) && !jobs[i].attempt.createFails {
      CreateDirectoryFailsIffBlocked(t, Parent(p));
      if CreateDirectory(t, Parent(p)).Some? {
        CreateDirectoryEffect(t, Parent(p));
        assert !IsPrefix(p, Parent(p));
      }
    }
  }

  /** When every destination is new and unobstructed and no directory
      creation fails, the candidates whose copy fails are exactly the errored
      ones and all others are copied: one failing file among N gives N - 1
      copies and one error. */
  lemma {:induction false} OnlyFailingCopiesError(d: Dir, jobs: seq<Job>)
    requires WellFormed(d) && ValidJobs(jobs) && PairwiseIndependent(jobs)
    requires forall i :: 0 <= i < |jobs| ==>
               !HasFile(d, jobs[i].dest) && !HasDir(d, jobs[i].dest) &&
               !Blocked(d, Parent(jobs[i].dest)) && !jobs[i].attempt.createFails
    ensures forall i :: 0 <= i < |jobs| ==>
              Run(d, jobs).outcomes[i] == (if jobs[i].attempt.copyFails then Errored else Copied)
  {
    forall i | 0 <= i < |jobs|
      ensures Run(d, jobs).outcomes[i] == (if jobs[i].attempt.copyFails then Errored else Copied)
    {
      OutcomesAreIsolated(d, jobs, i);
    }
  }

  /** Running the loop again over the same candidates skips every one that
      did not error the first time, whatever faults the second run meets; so
      a first run without errors makes the second skip everything. */
  lemma {:induction false} SecondRunSkips(d: Dir, jobs: seq<Job>, again: seq<Job>)
    requires ValidJobs(jobs) && |again| == |jobs|
    requires forall i :: 0 <= i < |jobs| ==> again[i].dest == jobs[i].dest
    ensures ValidJobs(again)
    ensures forall i :: 0 <= i < |jobs| && Run(d, jobs).outcomes[i] != Errored ==>
              Run(Run(d, jobs).tree, again).outcomes[i] == Skipped
    ensures Tally(Run(d, jobs).outcomes).errored == 0 ==>
              Tally(Run(Run(d, jobs).tree, again).outcomes) == Summary(0, |jobs|, 0)
  {
    var first := Run(d, jobs);
    var second := Run(first.tree, again);
    forall i | 0 <= i < |jobs| && first.outcomes[i] != Errored
      ensures second.outcomes[i] == Skipped
    {
      assert HasFile(first.tree, jobs[i].dest) by {
        if first.outcomes[i] == Copied {
          CopiedFileLands(d, jobs, i);
        } else {
          SkippedFileStays(d, jobs, i);
        }
      }
      RunOutcomeAt(first.tree, again, i);
      RunNeverOverwrites(first.tree, again[..i]);
    }
    if Tally(first.outcomes).errored == 0 {
      NoErrorCount(first.outcomes);
      AllSkippedTally(second.outcomes);
    }
  }

  lemma {:induction false} SkippedFileStays(d: Dir, jobs: seq<Job>, i: nat)
    requires ValidJobs(jobs) && i < |jobs|
    requires Run(d, jobs).outcomes[i] == Skipped
    ensures HasFile(Run(d, jobs).tree, jobs[i].dest)
  {
    RunOutcomeAt(d, jobs, i);
    RunSplit(d, jobs, i);
    RunNeverOverwrites(Run(d, jobs[..i]).tree, jobs[i..]);
  }

  lemma {:induction false} NoErrorCount(outcomes: seq<Outcome>)
    requires Tally(outcomes).errored == 0
    ensures forall i :: 0 <= i < |outcomes| ==> outcomes[i] != Errored
  {
    if outcomes != [] {
      NoErrorCount(outcomes[..|outcomes| - 1]);
    }
  }

  lemma {:induction false} AllSkippedTally(outcomes: seq<Outcome>)
    requires forall i :: 0 <= i < |outcomes| ==> outcomes[i] == Skipped
    ensures Tally(outcomes) == Summary(0, |outcomes|, 0)
  {
    if outcomes != [] {
      AllSkippedTally(outcomes[..|outcomes| - 1]);
    }
  }
}
