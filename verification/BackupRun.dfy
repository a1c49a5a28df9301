/**
  One backup run: state file, audit trail and directory, step by step, with its failures;
  and any series of runs, failed ones among them.
*/
module BackupRun {
  import opened Options
  import opened Seqs
  import opened Stamps
  import opened Retention

  datatype Audit = Started | Completed | Failed | Pruned(name: string)

  datatype LastRun = Never | Running | Succeeded | FailedRun

  /** Where a run fails before it is recorded as completed, if it does. */
  datatype Fault = Nothing | LockHeld | BeforePartial | BeforeRename | AfterRename | AfterSidecar

  /** One run and all it meets. */
  datatype Job = Job(name: string, fault: Fault, keep: Option<int>, mtime: int, now: int, maxAge: int,
                     trouble: Trouble)

  type Files = map<string, int>

  predicate KeepIsValid(keep: Option<int>) {
    keep.Some? && keep.value >= 1
  }

  function PartialOf(name: string): string {
    name + ".partial"
  }

  // ---------------------------------------------------------------- what one run does to the directory

  function Renamed(files: Files, name: string, mtime: int): Files {
    (files - {PartialOf(name)})[name := mtime]
  }

  function Written(files: Files, name: string, mtime: int): Files {
    Renamed(files, name, mtime)[Sidecar(name) := mtime]
  }

  /** What the write leaves, finished or not. */
  function AfterWrite(files: Files, job: Job): Files {
    match job.fault
    case LockHeld | BeforePartial => files
    case BeforeRename => files[PartialOf(job.name) := job.mtime]
    case AfterRename => Renamed(files, job.name, job.mtime)
    case AfterSidecar | Nothing => Written(files, job.name, job.mtime)
  }

  /** Dropping the partial, unless it cannot be removed. */
  function CleanedUp(files: Files, job: Job): Files {
    files - ({PartialOf(job.name)} - job.trouble.stuck)
  }

  predicate CleanupRaises(files: Files, job: Job) {
    PartialOf(job.name) in files && PartialOf(job.name) in job.trouble.stuck
  }

  /** The run gets as far as pruning. */
  predicate Prunes(job: Job) {
    job.fault == Nothing && KeepIsValid(job.keep)
  }

  predicate RetentionRaises(before: Files, job: Job)
    requires Prunes(job)
  {
    PruneRaises(AfterWrite(before, job), job.keep.value, job.now, job.maxAge, job.trouble)
  }

  predicate Succeeds(before: Files, job: Job) {
    Prunes(job) && !RetentionRaises(before, job)
  }

  ghost predicate RunStep(before: Files, job: Job, after: Files) {
    var written := AfterWrite(before, job);
    if job.fault == LockHeld then after == before
    else if !Prunes(job) then after == CleanedUp(written, job)
    else PruneStep(written, after, job.keep.value, job.now, job.maxAge, job.trouble)
  }

  /** A finished write adds its own archive to the archives and disturbs no other. */
  lemma {:induction false} WritingAddsOneArchive(files: Files, name: string, mtime: int)
    ensures Archives(Renamed(files, name, mtime).Keys) == Archives(files.Keys + {name})
    ensures Archives(Written(files, name, mtime).Keys) == Archives(files.Keys + {name})
  {
    SuffixesDiffer(name);
  }

  lemma {:induction false} PartialReapKeepsArchives(before: Files, after: Files, now: int, maxAge: int,
                                                    trouble: Trouble)
    requires PartlyReaped(before, after, now, maxAge, trouble)
    ensures Archives(after.Keys) == Archives(before.Keys)
  {
    StaleFilesAreNotArchives(before, now, maxAge);
  }

  lemma {:induction false} WithoutKeepsOtherArchives(files: Files, gone: set<string>, owners: set<string>)
    requires forall d :: d in owners ==> IsArchive(d)
    ensures Archives(Without(files, gone, owners).Keys) == Archives(files.Keys) - gone
  {
    forall p, d | IsArchive(p) && d in owners ensures p != Sidecar(d) {
      SuffixesDiffer(d);
    }
  }

  /** Pruning leaves the kept archives at least, and exactly those unless it raises. */
  lemma {:induction false} PruningKeepsTheNewest(before: Files, after: Files, keep: nat, now: int, maxAge: int,
                                                 trouble: Trouble)
    requires PruneStep(before, after, keep, now, maxAge, trouble)
    ensures Kept(Archives(before.Keys), keep) <= Archives(after.Keys) <= Archives(before.Keys)
    ensures !PruneRaises(before, keep, now, maxAge, trouble) ==>
              Archives(after.Keys) == Kept(Archives(before.Keys), keep)
  {
    if ReapRaises(before, now, maxAge, trouble) {
      PartialReapKeepsArchives(before, after, now, maxAge, trouble);
    } else {
      var reaped, doomed := Reaped(before, now, maxAge), Doomed(before.Keys, keep);
      StaleFilesAreNotArchives(before, now, maxAge);
      var gone, cleared := Removed(reaped, doomed, trouble.stuck), Cleared(reaped, doomed, trouble.stuck);
      WithoutKeepsOtherArchives(reaped, gone, cleared);
      UnblockedAllGo(reaped, doomed, trouble.stuck);
    }
  }

  function PrunedEvents(names: seq<string>): seq<Audit> {
    seq(|names|, i requires 0 <= i < |names| => Pruned(names[i]))
  }

  // ---------------------------------------------------------------- a series of runs

  /** The archive a run leaves in place, if it gets past the rename under a name that can be placed. */
  function Landed(job: Job): set<string> {
    if job.fault in {AfterRename, AfterSidecar, Nothing} then Archives({job.name}) else {}
  }

  function AllLanded(jobs: seq<Job>): set<string> {
    if jobs == [] then {} else AllLanded(Init(jobs)) + Landed(Last(jobs))
  }

  /** The directory before the first run and after each. */
  ghost predicate Runs(states: seq<Files>, jobs: seq<Job>) {
    |states| == |jobs| + 1 && forall i :: 0 <= i < |jobs| ==> RunStep(states[i], jobs[i], states[i + 1])
  }

  predicate KeepAtLeast(jobs: seq<Job>, keep: nat) {
    forall job :: job in jobs && Prunes(job) ==> job.keep.value >= keep
  }

  lemma {:induction false} WriteLands(before: Files, job: Job)
    ensures Archives(AfterWrite(before, job).Keys) == Archives(before.Keys) + Landed(job)
    ensures Archives(CleanedUp(AfterWrite(before, job), job).Keys) == Archives(before.Keys) + Landed(job)
  {
    SuffixesDiffer(job.name);
    WritingAddsOneArchive(before, job.name, job.mtime);
    CleanupKeepsArchives(AfterWrite(before, job), job);
  }

  lemma {:induction false} CleanupKeepsArchives(files: Files, job: Job)
    ensures Archives(CleanedUp(files, job).Keys) == Archives(files.Keys)
  {
    SuffixesDiffer(job.name);
  }

  /** No run, however it ends, loses an archive that a later prune would keep. */
  lemma {:induction false} RunKeepsTheNewest(before: Files, job: Job, after: Files, all: set<string>, keep: nat)
    requires RunStep(before, job, after) && (Prunes(job) ==> job.keep.value >= keep)
    requires Kept(all, keep) <= Archives(before.Keys) <= all
    ensures Kept(all + Landed(job), keep) <= Archives(after.Keys) <= all + Landed(job)
    ensures Succeeds(before, job) && job.keep == Some(keep) ==> Archives(after.Keys) == Kept(all + Landed(job), keep)
  {
    var written, all' := AfterWrite(before, job), all + Landed(job);
    WriteLands(before, job);
    KeptOfMore(all, Landed(job), keep);
    if Prunes(job) {
      PruningKeepsTheNewest(written, after, job.keep.value, job.now, job.maxAge, job.trouble);
      KeptGrows(all', Archives(written.Keys), keep, job.keep.value);
      SqueezedKept(all', Archives(written.Keys), keep);
    }
  }

  lemma {:induction false} RunsPrefix(states: seq<Files>, jobs: seq<Job>)
    requires Runs(states, jobs) && jobs != []
    ensures Runs(Init(states), Init(jobs)) && Init(states)[0] == states[0]
    ensures RunStep(Last(Init(states)), Last(jobs), Last(states))
  {
    forall i | 0 <= i < |jobs| - 1 ensures RunStep(Init(states)[i], Init(jobs)[i], Init(states)[i + 1]) {
      assert RunStep(states[i], jobs[i], states[i + 1]);
    }
    assert RunStep(states[|jobs| - 1], jobs[|jobs| - 1], states[|jobs|]);
  }

  lemma {:induction false} LandedStep(before: set<string>, jobs: seq<Job>)
    requires jobs != []
    ensures before + AllLanded(jobs) == (before + AllLanded(Init(jobs))) + Landed(Last(jobs))
  {
  }

  lemma {:induction false} KeepPrefix(jobs: seq<Job>, keep: nat)
    requires KeepAtLeast(jobs, keep) && jobs != []
    ensures KeepAtLeast(Init(jobs), keep) && (Prunes(Last(jobs)) ==> Last(jobs).keep.value >= keep)
  {
    assert Last(jobs) in jobs && forall job :: job in Init(jobs) ==> job in jobs;
  }

  lemma {:induction false} SeriesLosesNothing(states: seq<Files>, jobs: seq<Job>, keep: nat)
    requires Runs(states, jobs) && KeepAtLeast(jobs, keep)
    ensures var all := Archives(states[0].Keys) + AllLanded(jobs);
            Kept(all, keep) <= Archives(Last(states).Keys) <= all
  {
    if jobs != [] {
      RunsPrefix(states, jobs);
      KeepPrefix(jobs, keep);
      LandedStep(Archives(states[0].Keys), jobs);
      SeriesLosesNothing(Init(states), Init(jobs), keep);
      var all := Archives(states[0].Keys) + AllLanded(Init(jobs));
      RunKeepsTheNewest(Last(Init(states)), Last(jobs), Last(states), all, keep);
    }
  }

  /**
    After any runs, failed ones and prunes that stopped partway among them, one success
    leaves exactly the newest of all archives there were or that ever landed.
  */
  lemma {:induction false} SeriesKeepsTheNewest(states: seq<Files>, jobs: seq<Job>, keep: nat)
    requires Runs(states, jobs) && KeepAtLeast(jobs, keep)
    requires jobs != [] && Last(jobs).keep == Some(keep) && Succeeds(Last(Init(states)), Last(jobs))
    ensures Archives(Last(states).Keys) == Kept(Archives(states[0].Keys) + AllLanded(jobs), keep)
  {
    RunsPrefix(states, jobs);
    KeepPrefix(jobs, keep);
    LandedStep(Archives(states[0].Keys), jobs);
    SeriesLosesNothing(Init(states), Init(jobs), keep);
    var all := Archives(states[0].Keys) + AllLanded(Init(jobs));
    RunKeepsTheNewest(Last(Init(states)), Last(jobs), Last(states), all, keep);
  }

  /** So when its stamp is the newest yet, the archive just written stays, and min(n, keep) remain. */
  lemma {:induction false} SeriesOutcome(states: seq<Files>, jobs: seq<Job>, keep: nat)
    requires Runs(states, jobs) && KeepAtLeast(jobs, keep)
    requires jobs != [] && Last(jobs).keep == Some(keep) && Succeeds(Last(Init(states)), Last(jobs))
    requires IsArchive(Last(jobs).name)
    requires forall q :: q in Archives(states[0].Keys) + AllLanded(Init(jobs)) ==> TakenAt(q) < TakenAt(Last(jobs).name)
    ensures var all, left := Archives(states[0].Keys) + AllLanded(jobs), Archives(Last(states).Keys);
            && Last(jobs).name in left && left <= all
            && |left| == (if keep < |all| then keep else |all|)
            && forall p, q :: p in left && q in all - left ==> Newer(p, q)
  {
    SeriesKeepsTheNewest(states, jobs, keep);
    var before, last := Archives(states[0].Keys) + AllLanded(Init(jobs)), Last(jobs).name;
    assert Landed(Last(jobs)) == {last};
    assert before + {last} == Archives(states[0].Keys) + AllLanded(jobs);
    NewestSurvives(before, last, keep);
    KeptCount(before + {last}, keep);
  }

  // ---------------------------------------------------------------- the other files

  predicate OwnName(job: Job, p: string) {
    p in {job.name, Sidecar(job.name), PartialOf(job.name)}
  }

  predicate IsArchiveSidecar(p: string) {
    EndsWith(p, ".sha256") && IsArchive(p[..|p| - 7])
  }

  lemma {:induction false} SidecarOfArchive(d: string)
    ensures IsArchive(d) <==> IsArchiveSidecar(Sidecar(d))
    ensures Sidecar(d)[..|Sidecar(d)| - 7] == d
  {
  }

  /** A run touches no file but its own, partials, archives and their sidecars. */
  lemma {:induction false} RunLeavesOthers(before: Files, job: Job, after: Files, p: string)
    requires RunStep(before, job, after)
    requires !OwnName(job, p) && !Globbed(p, ".partial") && !IsArchive(p) && !IsArchiveSidecar(p)
    ensures p in after <==> p in before
    ensures p in before ==> p in after && after[p] == before[p]
  {
    if Prunes(job) {
      var written := AfterWrite(before, job);
      assert p in before ==> p in written && written[p] == before[p] && !Stale(p, written[p], job.now, job.maxAge);
      assert p in written ==> p in before;
      forall d | d in Doomed(written.Keys, job.keep.value) ensures p != Sidecar(d) {
        SidecarOfArchive(d);
      }
    }
  }

  /** Every sidecar of an archive has its archive beside it. */
  ghost predicate NoOrphans(files: Files) {
    forall d {:trigger Sidecar(d)} :: IsArchive(d) && Sidecar(d) in files ==> d in files
  }

  /** The prune gets to an archive it can remove and whose sidecar it cannot. */
  predicate OrphansOne(before: Files, job: Job) {
    Prunes(job) &&
    var written := AfterWrite(before, job);
    var reaped, doomed := Reaped(written, job.now, job.maxAge), Doomed(written.Keys, job.keep.value);
    && !ReapRaises(written, job.now, job.maxAge, job.trouble)
    && exists d :: d in doomed && Blocked(reaped, d, job.trouble.stuck) && d !in job.trouble.stuck
                   && forall b :: b in doomed && b != d && Blocked(reaped, b, job.trouble.stuck) ==> Newer(d, b)
  }

  /** A run leaves a sidecar without its archive exactly when it gets to such an archive. */
  lemma {:induction false} OrphansIff(before: Files, job: Job, after: Files)
    requires RunStep(before, job, after) && NoOrphans(before) && EndsWith(job.name, SUFFIX)
    ensures NoOrphans(after) <==> !OrphansOne(before, job)
  {
    WriteLeavesNoOrphans(before, job);
    var written := AfterWrite(before, job);
    if Prunes(job) {
      if ReapRaises(written, job.now, job.maxAge, job.trouble) {
        PartialReapLeavesNoOrphans(written, after, job.now, job.maxAge, job.trouble);
      } else {
        PruneOrphansIff(written, job.keep.value, job.now, job.maxAge, job.trouble.stuck);
      }
    }
  }

  lemma {:induction false} WriteLeavesNoOrphans(before: Files, job: Job)
    requires NoOrphans(before) && EndsWith(job.name, SUFFIX)
    ensures NoOrphans(AfterWrite(before, job)) && NoOrphans(CleanedUp(AfterWrite(before, job), job))
  {
    SuffixesDiffer(job.name);
    forall d: string
      ensures Sidecar(d) != PartialOf(job.name) && Sidecar(d) != job.name
      ensures Sidecar(d) == Sidecar(job.name) ==> d == job.name
    {
      SidecarsDiffer(d, job.name);
      SidecarIsNeither(d, job.name);
    }
    CleanupLeavesNoOrphans(AfterWrite(before, job), job);
  }

  lemma {:induction false} CleanupLeavesNoOrphans(files: Files, job: Job)
    requires NoOrphans(files)
    ensures NoOrphans(CleanedUp(files, job))
  {
    SuffixesDiffer(job.name);
  }

  lemma {:induction false} SidecarIsNeither(d: string, name: string)
    requires EndsWith(name, SUFFIX)
    ensures Sidecar(d) != PartialOf(name) && Sidecar(d) != name
  {
    assert EndsWith(Sidecar(d), ".sha256") && EndsWith(PartialOf(name), ".partial");
    LastCharacter(Sidecar(d), ".sha256");
    LastCharacter(PartialOf(name), ".partial");
    LastCharacter(name, SUFFIX);
  }

  lemma {:induction false} PartialReapLeavesNoOrphans(before: Files, after: Files, now: int, maxAge: int,
                                                      trouble: Trouble)
    requires PartlyReaped(before, after, now, maxAge, trouble) && NoOrphans(before)
    ensures NoOrphans(after)
  {
    StaleFilesAreNotArchives(before, now, maxAge);
  }

  lemma {:induction false} ReapLeavesNoOrphans(files: Files, now: int, maxAge: int)
    requires NoOrphans(files)
    ensures NoOrphans(Reaped(files, now, maxAge))
  {
    StaleFilesAreNotArchives(files, now, maxAge);
  }

  lemma {:induction false} SidecarLeft(files: Files, gone: set<string>, cleared: set<string>, d: string)
    requires forall p :: p in gone ==> IsArchive(p)
    ensures Sidecar(d) in Without(files, gone, cleared) <==> Sidecar(d) in files && d !in cleared
  {
    SuffixesDiffer(d);
    forall c | c in cleared ensures Sidecar(c) == Sidecar(d) ==> c == d {
      SidecarsDiffer(c, d);
    }
  }

  lemma {:induction false} ArchiveLeft(files: Files, gone: set<string>, cleared: set<string>, d: string)
    requires IsArchive(d)
    ensures d in Without(files, gone, cleared) <==> d in files && d !in gone
  {
    if c :| c in cleared && d == Sidecar(c) {
      SuffixesDiffer(c);
    }
  }

  lemma {:induction false} WithoutOrphansIff(files: Files, gone: set<string>, cleared: set<string>)
    requires NoOrphans(files) && cleared <= gone && forall d :: d in gone ==> IsArchive(d)
    ensures NoOrphans(Without(files, gone, cleared)) <==> forall d :: d in gone - cleared ==> Sidecar(d) !in files
  {
    forall d | IsArchive(d)
      ensures Sidecar(d) in Without(files, gone, cleared) <==> Sidecar(d) in files && d !in cleared
      ensures d in Without(files, gone, cleared) <==> d in files && d !in gone
    {
      SidecarLeft(files, gone, cleared, d);
      ArchiveLeft(files, gone, cleared, d);
    }
  }

  lemma {:induction false} ClearedAreRemoved(files: Files, doomed: set<string>, stuck: set<string>)
    ensures Cleared(files, doomed, stuck) <= Removed(files, doomed, stuck) <= doomed
    ensures forall d :: d in Removed(files, doomed, stuck) - Cleared(files, doomed, stuck) ==>
              Blocked(files, d, stuck) && d !in stuck
    ensures forall d :: d in Removed(files, doomed, stuck) && Blocked(files, d, stuck) ==>
              d !in Cleared(files, doomed, stuck)
  {
    forall d | d in Cleared(files, doomed, stuck) ensures !Blocked(files, d, stuck) {
      NewerIsStrictOrder(d, d);
    }
  }

  lemma {:induction false} PruneOrphansIff(files: Files, keep: nat, now: int, maxAge: int, stuck: set<string>)
    requires NoOrphans(files)
    ensures var reaped, doomed := Reaped(files, now, maxAge), Doomed(files.Keys, keep);
            NoOrphans(AfterPrune(files, keep, now, maxAge, stuck)) <==>
              !exists d :: d in doomed && Blocked(reaped, d, stuck) && d !in stuck
                     && forall b :: b in doomed && b != d && Blocked(reaped, b, stuck) ==> Newer(d, b)
  {
    var reaped, doomed := Reaped(files, now, maxAge), Doomed(files.Keys, keep);
    ReapLeavesNoOrphans(files, now, maxAge);
    ClearedAreRemoved(reaped, doomed, stuck);
    WithoutOrphansIff(reaped, Removed(reaped, doomed, stuck), Cleared(reaped, doomed, stuck));
  }

  /** Nothing comes back for it: no later run removes an orphan, unless it writes that archive anew. */
  lemma {:induction false} OrphansStay(before: Files, job: Job, after: Files, d: string)
    requires RunStep(before, job, after) && EndsWith(job.name, SUFFIX)
    requires IsArchive(d) && d !in before && Sidecar(d) in before && d != job.name
    ensures d !in after && Sidecar(d) in after
  {
    var written := AfterWrite(before, job);
    SidecarIsNeither(d, job.name);
    SidecarsDiffer(d, job.name);
    SuffixesDiffer(job.name);
    SuffixesDiffer(d);
    assert Sidecar(d) in written && d !in written;
    if Prunes(job) {
      SidecarIsNotPartial(d);
      if !ReapRaises(written, job.now, job.maxAge, job.trouble) {
        var reaped, doomed := Reaped(written, job.now, job.maxAge), Doomed(written.Keys, job.keep.value);
        var gone, cleared := Removed(reaped, doomed, job.trouble.stuck), Cleared(reaped, doomed, job.trouble.stuck);
        SidecarLeft(reaped, gone, cleared, d);
      }
    }
  }

  /** The archive a run wrote, if it is there when the run ends, has its sidecar beside it. */
  lemma {:induction false} WrittenWithItsSidecar(before: Files, job: Job, after: Files)
    requires RunStep(before, job, after) && job.fault == Nothing && IsArchive(job.name) && job.name in after
    ensures after[job.name] == job.mtime
    ensures job.name + ".sha256" in after && after[job.name + ".sha256"] == job.mtime
  {
    var written, d := AfterWrite(before, job), job.name;
    SidecarIsNotPartial(d);
    SidecarIsLonger(d);
    SidecarIsNoPartial(d);
    SuffixesDiffer(d);
    if Prunes(job) && !ReapRaises(written, job.now, job.maxAge, job.trouble) {
      var reaped, doomed := Reaped(written, job.now, job.maxAge), Doomed(written.Keys, job.keep.value);
      ClearedAreRemoved(reaped, doomed, job.trouble.stuck);
      SidecarLeft(reaped, Removed(reaped, doomed, job.trouble.stuck), Cleared(reaped, doomed, job.trouble.stuck), d);
    }
  }

  /** Over a series: other files stay as they were, and no sidecar outlives its archive unless some run orphans one. */
  lemma {:induction false} SeriesLeavesOthers(states: seq<Files>, jobs: seq<Job>, p: string)
    requires Runs(states, jobs) && forall job :: job in jobs ==> !OwnName(job, p)
    requires !Globbed(p, ".partial") && !IsArchive(p) && !IsArchiveSidecar(p)
    ensures p in Last(states) <==> p in states[0]
    ensures p in states[0] ==> p in Last(states) && Last(states)[p] == states[0][p]
  {
    if jobs != [] {
      RunsPrefix(states, jobs);
      assert Last(jobs) in jobs && forall job :: job in Init(jobs) ==> job in jobs;
      SeriesLeavesOthers(Init(states), Init(jobs), p);
      RunLeavesOthers(Last(Init(states)), Last(jobs), Last(states), p);
    }
  }

  lemma {:induction false} SeriesLeavesNoOrphans(states: seq<Files>, jobs: seq<Job>)
    requires Runs(states, jobs) && NoOrphans(states[0])
    requires forall i :: 0 <= i < |jobs| ==> EndsWith(jobs[i].name, SUFFIX) && !OrphansOne(states[i], jobs[i])
    ensures NoOrphans(Last(states))
  {
    if jobs != [] {
      RunsPrefix(states, jobs);
      SeriesLeavesNoOrphans(Init(states), Init(jobs));
      OrphansIff(Last(Init(states)), Last(jobs), Last(states));
    }
  }

  // ---------------------------------------------------------------- the runner

  class BackupRunner {
    const dir: BackupDir
    var lastRun: LastRun
    var audit: seq<Audit>

    constructor (dir: BackupDir)
      ensures this.dir == dir && lastRun == Never && audit == []
    {
      this.dir, lastRun, audit := dir, Never, [];
    }

    /** The except branch: drop the partial, then record the failure, unless dropping it raises in turn. */
    method Fail(job: Job)
      modifies this, dir
      ensures dir.files == CleanedUp(old(dir.files), job)
      ensures PartialOf(job.name) !in old(dir.files) ==> dir.files == old(dir.files)
      ensures if CleanupRaises(old(dir.files), job) then lastRun == old(lastRun) && audit == old(audit)
              else lastRun == FailedRun && audit == old(audit) + [Failed]
    {
      if PartialOf(job.name) in dir.files {
        if PartialOf(job.name) in job.trouble.stuck {
          return;
        }
        dir.files := dir.files - {PartialOf(job.name)};
      }
      lastRun, audit := FailedRun, audit + [Failed];
    }

    /** Stream to the partial, rename it into place, write the sidecar. */
    method Write(job: Job) returns (done: bool)
      requires job.fault != LockHeld
      modifies dir
      ensures done <==> job.fault == Nothing
      ensures dir.files == AfterWrite(old(dir.files), job)
      ensures done ==> PartialOf(job.name) !in dir.files
      ensures var partial, sidecar := job.name + ".partial", job.name + ".sha256";
              && (job.fault == BeforePartial ==> dir.files == old(dir.files))
              && (job.fault == BeforeRename ==> dir.files == old(dir.files)[partial := job.mtime])
              && (job.fault == AfterRename ==> dir.files == (old(dir.files) - {partial})[job.name := job.mtime])
              && (job.fault in {AfterSidecar, Nothing} ==>
                    dir.files == (old(dir.files) - {partial})[job.name := job.mtime][sidecar := job.mtime])
    {
      if job.fault == BeforePartial {
        return false;
      }
      dir.files := dir.files[PartialOf(job.name) := job.mtime];
      if job.fault == BeforeRename {
        return false;
      }
      dir.files := (dir.files - {PartialOf(job.name)})[job.name := job.mtime];
      if job.fault == AfterRename {
        return false;
      }
      dir.files := dir.files[Sidecar(job.name) := job.mtime];
      SidecarIsNoPartial(job.name);
      return job.fault == Nothing;
    }

    /** Prune, with one audit event per deleted archive; if it raises the events are lost with the names. */
    method Retain(job: Job) returns (deleted: seq<string>, raised: bool)
      requires Prunes(job)
      modifies this`audit, dir
      ensures raised <==> PruneRaises(old(dir.files), job.keep.value, job.now, job.maxAge, job.trouble)
      ensures PruneStep(old(dir.files), dir.files, job.keep.value, job.now, job.maxAge, job.trouble)
      ensures !raised ==> Lists(deleted, Doomed(old(dir.files).Keys, job.keep.value))
      ensures audit == old(audit) + if raised then [] else PrunedEvents(deleted)
      ensures dir.files.Keys <= old(dir.files).Keys
    {
      deleted, raised := dir.Prune(job.keep.value, job.now, job.maxAge, job.trouble);
      PruneShrinks(old(dir.files), dir.files, job.keep.value, job.now, job.maxAge, job.trouble);
      if raised {
        return;
      }
      ghost var pruned := dir.files;
      for i := 0 to |deleted|
        invariant audit == old(audit) + PrunedEvents(deleted[..i])
        invariant dir.files == pruned
      {
        assert PrunedEvents(deleted[..i + 1]) == PrunedEvents(deleted[..i]) + [Pruned(deleted[i])];
        audit := audit + [Pruned(deleted[i])];
      }
      assert deleted[..|deleted|] == deleted;
    }

    /**
      What a run does to the directory, the state file and the audit trail, for each way it
      can end. It is recorded both completed and failed exactly when the write succeeded and
      then the keep was invalid or the prune raised.
    */
    method Run(job: Job) returns (ok: bool, deleted: seq<string>)
      modifies this, dir
      ensures RunStep(old(dir.files), job, dir.files)
      ensures ok <==> Succeeds(old(dir.files), job)
      ensures ok ==> Archives(dir.files.Keys) == Kept(Archives(old(dir.files).Keys) + Landed(job), job.keep.value)
      ensures ok ==> Lists(deleted, Doomed(AfterWrite(old(dir.files), job).Keys, job.keep.value))
      ensures Recorded(old(dir.files), job, deleted, old(audit), audit, old(lastRun), lastRun)
      ensures job.fault == LockHeld ==>
                !ok && dir.files == old(dir.files) && audit == old(audit) && lastRun == old(lastRun)
      ensures job.fault != LockHeld ==>
                && |audit| > |old(audit)| && audit[..|old(audit)|] == old(audit) && audit[|old(audit)|] == Started
                && (ok <==> lastRun == Succeeded)
                && (Completed in audit[|old(audit)|..] <==> job.fault == Nothing)
      ensures ok ==> && job.fault == Nothing && job.keep.Some? && job.keep.value >= 1
                     && audit == old(audit) + [Started, Completed] + seq(|deleted|, i requires 0 <= i < |deleted| =>
                                   Pruned(deleted[i]))
      ensures job.fault == Nothing && job.keep.Some? && job.keep.value >= 1 && job.trouble == Trouble({}, {}) ==> ok
      ensures job.fault != LockHeld && job.name + ".partial" in dir.files ==>
                job.fault != Nothing && job.name + ".partial" in job.trouble.stuck && lastRun == Running
    {
      UntroubledSucceeds(old(dir.files), job);
      if job.fault == LockHeld {
        return false, [];
      }
      ok, deleted := Attempt(job);
      if ok {
        SuccessKeepsTheNewest(old(dir.files), job, dir.files);
      }
      CompletedIff(old(dir.files), job, deleted, old(audit), audit, old(lastRun), lastRun);
    }

    /** The run, once the lock is had. */
    method Attempt(job: Job) returns (ok: bool, deleted: seq<string>)
      requires job.fault != LockHeld
      modifies this, dir
      ensures RunStep(old(dir.files), job, dir.files)
      ensures ok <==> Succeeds(old(dir.files), job)
      ensures ok ==> Lists(deleted, Doomed(AfterWrite(old(dir.files), job).Keys, job.keep.value))
      ensures Recorded(old(dir.files), job, deleted, old(audit), audit, old(lastRun), lastRun)
    {
      lastRun, audit := Running, audit + [Started];
      var done := Write(job);
      if done {
        ok, deleted := Conclude(job);
      } else {
        Fail(job);
        ok, deleted := false, [];
      }
    }

    /** What follows the write: the run is recorded as completed, and then retention may still fail. */
    method Conclude(job: Job) returns (ok: bool, deleted: seq<string>)
      requires job.fault == Nothing && PartialOf(job.name) !in dir.files
      modifies this, dir
      ensures ok <==> Prunes(job) && !PruneRaises(old(dir.files), job.keep.value, job.now, job.maxAge, job.trouble)
      ensures if Prunes(job) then PruneStep(old(dir.files), dir.files, job.keep.value, job.now, job.maxAge, job.trouble)
              else dir.files == old(dir.files)
      ensures ok ==> Lists(deleted, Doomed(old(dir.files).Keys, job.keep.value))
      ensures lastRun == if ok then Succeeded else FailedRun
      ensures audit == old(audit) + [Completed] + if ok then PrunedEvents(deleted) else [Failed]
    {
      lastRun, audit := Succeeded, audit + [Completed];
      if !KeepIsValid(job.keep) {
        Fail(job);
        return false, [];
      }
      var raised;
      deleted, raised := Retain(job);
      if raised {
        Fail(job);
      }
      ok := !raised;
    }

    /** Runs one after another, as operators and the scheduler start them. */
    method RunSeries(jobs: seq<Job>) returns (ghost states: seq<Files>)
      modifies this, dir
      ensures Runs(states, jobs) && states[0] == old(dir.files) && Last(states) == dir.files
    {
      states := [dir.files];
      for i := 0 to |jobs|
        invariant Runs(states, jobs[..i]) && states[0] == old(dir.files) && Last(states) == dir.files
      {
        assert jobs[..i + 1] == jobs[..i] + [jobs[i]];
        var ok, deleted := Run(jobs[i]);
        states := states + [dir.files];
      }
      assert jobs[..|jobs|] == jobs;
    }
  }

  lemma {:induction false} PruneShrinks(before: Files, after: Files, keep: nat, now: int, maxAge: int,
                                        trouble: Trouble)
    requires PruneStep(before, after, keep, now, maxAge, trouble)
    ensures after.Keys <= before.Keys
  {
  }

  lemma {:induction false} SuccessKeepsTheNewest(before: Files, job: Job, after: Files)
    requires RunStep(before, job, after) && Succeeds(before, job)
    ensures Archives(after.Keys) == Kept(Archives(before.Keys) + Landed(job), job.keep.value)
  {
    WriteLands(before, job);
    PruningKeepsTheNewest(AfterWrite(before, job), after, job.keep.value, job.now, job.maxAge, job.trouble);
  }

  lemma {:induction false} SidecarIsNoPartial(name: string)
    ensures Sidecar(name) != PartialOf(name)
  {
    assert |Sidecar(name)| == |name| + 7 && |PartialOf(name)| == |name| + 8;
  }

  /** The state file and the new audit events of a run. */
  predicate Recorded(before: Files, job: Job, deleted: seq<string>, audit: seq<Audit>, audit': seq<Audit>,
                     last: LastRun, last': LastRun)
  {
    if job.fault == LockHeld then audit' == audit && last' == last
    else if job.fault != Nothing then
      if CleanupRaises(AfterWrite(before, job), job) then audit' == audit + [Started] && last' == Running
      else audit' == audit + [Started, Failed] && last' == FailedRun
    else if !Prunes(job) || RetentionRaises(before, job) then
      audit' == audit + [Started, Completed, Failed] && last' == FailedRun
    else audit' == audit + [Started, Completed] + PrunedEvents(deleted) && last' == Succeeded
  }

  lemma {:induction false} UntroubledSucceeds(before: Files, job: Job)
    ensures Prunes(job) && job.trouble == Trouble({}, {}) ==> Succeeds(before, job)
  {
  }

  lemma {:induction false} CompletedIff(before: Files, job: Job, deleted: seq<string>, events: seq<Audit>,
                                        events': seq<Audit>, last: LastRun, last': LastRun)
    requires Recorded(before, job, deleted, events, events', last, last') && job.fault != LockHeld
    ensures |events| <= |events'| && (Completed in events'[|events|..] <==> job.fault == Nothing)
  {
    if job.fault == Nothing {
      assert events'[|events|..][1] == Completed;
    } else if CleanupRaises(AfterWrite(before, job), job) {
      assert events'[|events|..] == [Started];
    } else {
      assert events'[|events|..] == [Started, Failed];
    }
  }

  /** Both at once exactly when the write succeeded and retention then failed. */
  lemma {:induction false} CompletedAndFailedIff(before: Files, job: Job, deleted: seq<string>, events: seq<Audit>,
                                                 last: LastRun, last': LastRun)
    requires Recorded(before, job, deleted, [], events, last, last')
    ensures Completed in events && Failed in events <==>
              job.fault == Nothing && (!KeepIsValid(job.keep) || RetentionRaises(before, job))
    ensures Completed in events <==> job.fault == Nothing
  {
    if Succeeds(before, job) {
      assert events == [Started, Completed] + PrunedEvents(deleted) && events[1] == Completed;
    } else if job.fault == Nothing {
      assert events[1] == Completed && events[2] == Failed;
    }
  }

  /** A valid keep does not prevent it: one older archive that cannot be removed is enough. */
  lemma {:induction false} StuckArchiveRaises(before: Files, job: Job, aged: string)
    requires job.fault == Nothing && job.keep == Some(1) && IsArchive(job.name)
    requires aged in before && IsArchive(aged) && TakenAt(aged) < TakenAt(job.name) && aged in job.trouble.stuck
    ensures RetentionRaises(before, job)
  {
    WriteLands(before, job);
    var archives := Archives(AfterWrite(before, job).Keys);
    assert job.name in NewerThan(archives, aged);
    assert aged in Doomed(AfterWrite(before, job).Keys, 1);
  }

  /** Nor need an orphan wait for anything but one older archive whose sidecar alone is stuck. */
  lemma {:induction false} StuckSidecarOrphans(before: Files, job: Job, after: Files, aged: string)
    requires RunStep(before, job, after) && EndsWith(job.name, SUFFIX)
    requires job.fault == Nothing && job.keep == Some(1) && IsArchive(job.name)
    requires Archives(before.Keys) == {aged} && Sidecar(aged) in before && TakenAt(aged) < TakenAt(job.name)
    requires job.trouble == Trouble({Sidecar(aged)}, {})
    ensures aged !in after && Sidecar(aged) in after
  {
    var written := AfterWrite(before, job);
    WriteLands(before, job);
    SidecarIsNeither(aged, job.name);
    OnlyOlderIsDoomed(written, aged, job.name);
    StuckSidecarPrune(written, after, aged, job.now, job.maxAge);
  }

  lemma {:induction false} StuckSidecarPrune(files: Files, after: Files, aged: string, now: int, maxAge: int)
    requires PruneStep(files, after, 1, now, maxAge, Trouble({Sidecar(aged)}, {}))
    requires Doomed(files.Keys, 1) == {aged} && Sidecar(aged) in files
    ensures aged !in after && Sidecar(aged) in after
  {
    var reaped, stuck := Reaped(files, now, maxAge), {Sidecar(aged)};
    SidecarIsNotPartial(aged);
    SidecarIsLonger(aged);
    assert Blocked(reaped, aged, stuck) && aged !in stuck;
    ClearedAreRemoved(reaped, {aged}, stuck);
    assert Removed(reaped, {aged}, stuck) == {aged};
    ArchiveLeft(reaped, Removed(reaped, {aged}, stuck), Cleared(reaped, {aged}, stuck), aged);
    SidecarLeft(reaped, Removed(reaped, {aged}, stuck), Cleared(reaped, {aged}, stuck), aged);
  }

  lemma {:induction false} SidecarIsLonger(d: string)
    ensures Sidecar(d) != d
  {
    assert |Sidecar(d)| == |d| + 7;
  }

  lemma {:induction false} OnlyOlderIsDoomed(files: Files, aged: string, newest: string)
    requires Archives(files.Keys) == {aged, newest} && TakenAt(aged) < TakenAt(newest)
    ensures Doomed(files.Keys, 1) == {aged}
  {
    var archives := Archives(files.Keys);
    assert newest in NewerThan(archives, aged);
    NewerIsStrictOrder(newest, newest);
    NewerIsStrictOrder(newest, aged);
    assert NewerThan(archives, newest) == {};
  }
}
