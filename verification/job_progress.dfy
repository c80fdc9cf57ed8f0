/** No interleaving of deaths, stalls, recoveries and retries leaves a job in a dead end. */
module JobProgress {
  import opened Text
  import opened Wrappers
  import opened StagedPublication
  import opened JobOutcomes

  ghost predicate Reaches(s: State, s': State) {
    exists states: seq<State>, actions: seq<Action> :: RunFrom(s, states, actions) && states[|actions|] == s'
  }

  lemma Stays(s: State)
    ensures Reaches(s, s)
  {
    var states: seq<State>, actions: seq<Action> := [s], [];
    assert RunFrom(s, states, actions) && states[|actions|] == s;
  }

  lemma Next(s: State, s1: State, a: Action)
    requires Reaches(s, s1) && Enabled(s1, a)
    ensures Reaches(s, Apply(s1, a))
  {
    var states: seq<State>, actions: seq<Action> :| RunFrom(s, states, actions) && states[|actions|] == s1;
    var next, done := states + [Apply(s1, a)], actions + [a];
    assert RunFrom(s, next, done) by {
      forall i | 0 <= i < |done| ensures Follows(next[i], done[i], next[i + 1]) {
        if i < |actions| { assert Follows(states[i], actions[i], states[i + 1]); }
      }
    }
    assert next[|done|] == Apply(s1, a);
  }

  /** No directory has a number beyond those of the present lease. */
  ghost predicate Bounded(s: State) {
    forall x :: x in s.dirs ==> x <= StorageGeneration(s.row.lease, true)
  }

  lemma {:induction false} RunKeepsBound(states: seq<State>, actions: seq<Action>, n: nat)
    requires Run(states, actions) && n <= |actions|
    ensures Bounded(states[n])
    decreases n
  {
    if n > 0 {
      RunKeepsBound(states, actions, n - 1);
      RunKeepsInv(states, actions, n - 1);
      StepKeepsBound(states[n - 1], actions[n - 1]);
    }
  }

  lemma StepKeepsBound(s: State, a: Action)
    requires Bounded(s) && Inv(s) && Enabled(s, a)
    ensures Bounded(Apply(s, a))
  {
    LeaseGrows(s, a);
    if a.Work? { assert WorkerOk(s, a.g); }
  }

  /** The owner in this phase, with nothing of its lease on disk. */
  ghost predicate Underway(s: State, g: nat, phase: WorkerPhase, pdf: StageStatus, svg: StageStatus) {
    && At(s, g, phase) && Owned(s, g)
    && s.row.stages.value.pdfStatus == pdf && s.row.stages.value.svgStatus == svg
    && (PdfOf(s.row).Some? <==> pdf == Done) && StorageGeneration(g, true) !in s.dirs
  }

  /** A worker that has just claimed a job with these stages. */
  ghost predicate Claimed(s: State, g: nat, phase: WorkerPhase) {
    && At(s, g, phase) && Owns(s, g) && s.row.status == Validating && !s.row.cancelRequested
    && JobOk(s) && StorageGeneration(g, true) !in s.dirs && StorageGeneration(g, false) !in s.dirs
  }

  lemma ClaimWorks(s: State)
    requires s.row.status == Queued && !s.row.cancelRequested && JobOk(s) && Bounded(s)
    ensures Enabled(s, Claim) && Claimed(Apply(s, Claim), s.row.lease + 1, Starting)
  {
    StepKeepsJob(s, Claim);
  }

  lemma InitializeWorks(s: State, g: nat)
    requires Claimed(s, g, Starting)
    ensures Enabled(s, Work(g, Initialize)) && Claimed(Apply(s, Work(g, Initialize)), g, Prepared)
    ensures Apply(s, Work(g, Initialize)).row.stages.Some?
  {
    StepKeepsJob(s, Work(g, Initialize));
  }

  lemma StartWorks(s: State, g: nat)
    requires Claimed(s, g, Prepared) && s.row.stages.Some?
    ensures var a := Work(g, StartRun);
            && Enabled(s, a)
            && (Underway(Apply(s, a), g, Checkpointed, Done, Waiting)
                || (Underway(Apply(s, a), g, Ready, Waiting, Waiting)
                    && StorageGeneration(g, false) !in Apply(s, a).dirs && Apply(s, a).artifacts == map[]))
  {
  }

  /** A queued job is claimed and gets under way. */
  lemma QueuedStarts(s0: State, s: State) returns (s': State)
    requires Reaches(s0, s) && s.row.status == Queued && !s.row.cancelRequested && JobOk(s) && Bounded(s)
    ensures Reaches(s0, s')
    ensures var g := s.row.lease + 1;
            || Underway(s', g, Checkpointed, Done, Waiting)
            || (Underway(s', g, Ready, Waiting, Waiting) && StorageGeneration(g, false) !in s'.dirs
                && s'.artifacts == map[])
  {
    var g := s.row.lease + 1;
    ClaimWorks(s);
    Next(s0, s, Claim);
    var s1 := Apply(s, Claim);
    InitializeWorks(s1, g);
    Next(s0, s1, Work(g, Initialize));
    var s2 := Apply(s1, Work(g, Initialize));
    StartWorks(s2, g);
    Next(s0, s2, Work(g, StartRun));
    s' := Apply(s2, Work(g, StartRun));
  }

  /** It renders its PDF and publishes it under its own number. */
  lemma PdfFollows(s0: State, s: State, g: nat, content: nat) returns (s': State)
    requires Reaches(s0, s) && Underway(s, g, Ready, Waiting, Waiting)
    requires StorageGeneration(g, false) !in s.dirs && s.artifacts == map[]
    ensures Reaches(s0, s') && Underway(s', g, Checkpointed, Done, Waiting)
    ensures s'.artifacts == map["result.pdf" := StorageGeneration(g, false)]
    ensures PdfOf(s'.row) == Some(StorageGeneration(g, false))
    ensures s'.dirs == s.dirs[StorageGeneration(g, false) := content]
  {
    var s2 := PdfRendered(s0, s, g, content);
    PdfPathIsPlain();
    var commit := Work(g, CommitPdf({"result.pdf"}));
    Next(s0, s2, commit);
    s' := Apply(s2, commit);
  }

  lemma PdfStarts(s: State, g: nat)
    requires Underway(s, g, Ready, Waiting, Waiting)
    ensures var a := Work(g, StartPdf);
            && Enabled(s, a) && Underway(Apply(s, a), g, Rendering, Active, Waiting)
            && Apply(s, a).dirs == s.dirs && Apply(s, a).artifacts == s.artifacts
  {
  }

  lemma PdfChecks(s: State, g: nat)
    requires Underway(s, g, Rendering, Active, Waiting)
    ensures var a := Work(g, CheckPdf);
            && Enabled(s, a) && Underway(Apply(s, a), g, PdfChecked, Active, Waiting)
            && Apply(s, a).dirs == s.dirs && Apply(s, a).artifacts == s.artifacts
  {
  }

  lemma PdfRenames(s: State, g: nat, phase: WorkerPhase, w: WorkerStep)
    requires Underway(s, g, phase, Active, Waiting) && StorageGeneration(g, false) !in s.dirs
    requires (phase == PdfChecked && w.RenamePdf?) || (phase == Rendering && w.RenameDiagnostics?)
    ensures var a := Work(g, w);
            && Enabled(s, a)
            && Underway(Apply(s, a), g, if w.RenamePdf? then PdfRenamed else DiagnosticsRenamed, Active, Waiting)
            && Apply(s, a).dirs == s.dirs[StorageGeneration(g, false) := w.content]
            && Apply(s, a).artifacts == s.artifacts
  {
  }

  lemma PdfRendered(s0: State, s: State, g: nat, content: nat) returns (s': State)
    requires Reaches(s0, s) && Underway(s, g, Ready, Waiting, Waiting)
    requires StorageGeneration(g, false) !in s.dirs && s.artifacts == map[]
    ensures Reaches(s0, s') && Underway(s', g, PdfRenamed, Active, Waiting) && s'.artifacts == map[]
    ensures s'.dirs == s.dirs[StorageGeneration(g, false) := content]
  {
    PdfStarts(s, g);
    Next(s0, s, Work(g, StartPdf));
    var s1 := Apply(s, Work(g, StartPdf));
    PdfChecks(s1, g);
    Next(s0, s1, Work(g, CheckPdf));
    var s2 := Apply(s1, Work(g, CheckPdf));
    PdfRenames(s2, g, PdfChecked, RenamePdf(content));
    Next(s0, s2, Work(g, RenamePdf(content)));
    s' := Apply(s2, Work(g, RenamePdf(content)));
  }

  lemma DiagnosticsCommit(s: State, g: nat, paths: set<string>)
    requires Underway(s, g, DiagnosticsRenamed, Active, Waiting) && s.artifacts == map[]
    requires forall p :: p in paths ==> !SvgPath(p)
    ensures var a := Work(g, CommitDiagnostics(paths));
            && Enabled(s, a) && Apply(s, a).dirs == s.dirs
            && Apply(s, a).artifacts == map p | p in paths :: StorageGeneration(g, false)
    ensures var row := Apply(s, Work(g, CommitDiagnostics(paths))).row;
            row.status == Failed && row.owner == None && PdfOf(row) == None
  {
  }

  /** If the PDF cannot be rendered its diagnostics are published and the job ends. */
  lemma DiagnosticsFollow(s0: State, s: State, g: nat, content: nat, paths: set<string>) returns (s': State)
    requires Reaches(s0, s) && Underway(s, g, Ready, Waiting, Waiting)
    requires StorageGeneration(g, false) !in s.dirs && s.artifacts == map[] && forall p :: p in paths ==> !SvgPath(p)
    ensures Reaches(s0, s') && s'.row.status == Failed && s'.row.owner == None && PdfOf(s'.row) == None
    ensures s'.artifacts == map p | p in paths :: StorageGeneration(g, false)
    ensures s'.dirs == s.dirs[StorageGeneration(g, false) := content]
  {
    PdfStarts(s, g);
    Next(s0, s, Work(g, StartPdf));
    var s1 := Apply(s, Work(g, StartPdf));
    PdfRenames(s1, g, Rendering, RenameDiagnostics(content));
    Next(s0, s1, Work(g, RenameDiagnostics(content)));
    var s2 := Apply(s1, Work(g, RenameDiagnostics(content)));
    DiagnosticsCommit(s2, g, paths);
    Next(s0, s2, Work(g, CommitDiagnostics(paths)));
    s' := Apply(s2, Work(g, CommitDiagnostics(paths)));
  }

  lemma SvgStarts(s: State, g: nat)
    requires Underway(s, g, Checkpointed, Done, Waiting)
    ensures var a := Work(g, StartSvg);
            && Enabled(s, a) && Underway(Apply(s, a), g, SvgRendering, Done, Active)
            && Apply(s, a).dirs == s.dirs && Apply(s, a).artifacts == s.artifacts
  {
  }

  lemma SvgChecks(s: State, g: nat)
    requires Underway(s, g, SvgRendering, Done, Active)
    ensures var a := Work(g, CheckSvg);
            && Enabled(s, a) && Underway(Apply(s, a), g, SvgChecked, Done, Active)
            && Apply(s, a).dirs == s.dirs && Apply(s, a).artifacts == s.artifacts
  {
  }

  lemma SvgRendered(s0: State, s: State, g: nat, content: nat) returns (s': State)
    requires Reaches(s0, s) && Underway(s, g, Checkpointed, Done, Waiting)
    ensures Reaches(s0, s') && At(s', g, SvgRenamed) && Owned(s', g) && s'.row.stages.value.svgStatus == Active
    ensures s'.artifacts == s.artifacts && s'.dirs == s.dirs[StorageGeneration(g, true) := content]
  {
    SvgStarts(s, g);
    Next(s0, s, Work(g, StartSvg));
    var s1 := Apply(s, Work(g, StartSvg));
    SvgChecks(s1, g);
    Next(s0, s1, Work(g, CheckSvg));
    var s2 := Apply(s1, Work(g, CheckSvg));
    Next(s0, s2, Work(g, RenameSvg(content)));
    s' := Apply(s2, Work(g, RenameSvg(content)));
  }

  /** What a finished job has to show: its SVG files, with the contents that were rendered. */
  predicate Shows(s: State, paths: set<string>, g: nat, content: nat) {
    && s.row.status == Succeeded && SvgOf(s.row) == Some(StorageGeneration(g, true))
    && (forall p :: p in paths ==> p in s.artifacts && s.artifacts[p] == StorageGeneration(g, true))
    && StorageGeneration(g, true) in s.dirs && s.dirs[StorageGeneration(g, true)] == content
  }

  lemma SvgFollows(s0: State, s: State, g: nat, content: nat, paths: set<string>) returns (s': State)
    requires Reaches(s0, s) && Underway(s, g, Checkpointed, Done, Waiting)
    requires paths != {} && forall p :: p in paths ==> SvgPath(p)
    ensures Reaches(s0, s') && Shows(s', paths, g, content)
  {
    var s1 := SvgRendered(s0, s, g, content);
    Next(s0, s1, Work(g, CommitSvg(paths, true)));
    s' := Apply(s1, Work(g, CommitSvg(paths, true)));
  }

  /** An unowned or stalled job is taken over and queued again. */
  lemma TakenOver(s0: State, s: State) returns (s': State)
    requires Reaches(s0, s) && s.row.status in {Validating, Running} && JobOk(s) && Bounded(s)
    ensures Reaches(s0, s') && s'.row.status == Queued && JobOk(s') && Bounded(s')
    ensures s'.row.cancelRequested == s.row.cancelRequested && s'.row.lease == s.row.lease + 1
  {
    Next(s0, s, ClaimExpired);
    var s1 := Apply(s, ClaimExpired);
    StepKeepsJob(s, ClaimExpired);
    var a := Recover(s.row.lease + 1, RecoverQueued);
    Next(s0, s1, a);
    s' := Apply(s1, a);
    StepKeepsJob(s1, a);
  }

  lemma QueuedCanSucceed(s0: State, s: State, content: nat, paths: set<string>) returns (s': State)
    requires Reaches(s0, s) && s.row.status == Queued && !s.row.cancelRequested && JobOk(s) && Bounded(s)
    requires paths != {} && forall p :: p in paths ==> SvgPath(p)
    ensures Reaches(s0, s') && Shows(s', paths, s.row.lease + 1, content)
  {
    var g := s.row.lease + 1;
    var s1 := QueuedStarts(s0, s);
    if !Underway(s1, g, Checkpointed, Done, Waiting) {
      s1 := PdfFollows(s0, s1, g, content);
    }
    s' := SvgFollows(s0, s1, g, content, paths);
  }

  /** From wherever a run has come, a job that is not over and not canceled can still succeed,
      with any contents, under a lease that is not yet given out. */
  lemma EveryOpenJobCanSucceed(states: seq<State>, actions: seq<Action>, n: nat, content: nat, paths: set<string>)
    returns (s': State, g: nat)
    requires Run(states, actions) && n <= |actions|
    requires Open(states[n].row.status) && !states[n].row.cancelRequested
    requires paths != {} && forall p :: p in paths ==> SvgPath(p)
    ensures Reaches(states[n], s') && Shows(s', paths, g, content) && states[n].row.lease < g
  {
    var s := states[n];
    RunKeepsJob(states, actions, n);
    RunKeepsBound(states, actions, n);
    Stays(s);
    var queued := s;
    if s.row.status != Queued { queued := TakenOver(s, s); }
    g := queued.row.lease + 1;
    s' := QueuedCanSucceed(s, queued, content, paths);
  }

  /** So can one whose SVG stage failed, by a retry. */
  lemma EveryFailedSvgCanSucceed(states: seq<State>, actions: seq<Action>, n: nat, content: nat, paths: set<string>)
    returns (s': State, g: nat)
    requires Run(states, actions) && n <= |actions|
    requires var row := states[n].row;
             && row.status in {Failed, Canceled} && row.owner == None && PdfOf(row).Some?
             && row.stages.value.svgAttempt < 8
    requires paths != {} && forall p :: p in paths ==> SvgPath(p)
    ensures Reaches(states[n], s') && Shows(s', paths, g, content) && states[n].row.lease < g
  {
    var s := states[n];
    RetryIsOffered(states, actions, n);
    RunKeepsJob(states, actions, n);
    RunKeepsBound(states, actions, n);
    StepKeepsJob(s, RetrySvg);
    Stays(s);
    Next(s, s, RetrySvg);
    g := s.row.lease + 1;
    s' := QueuedCanSucceed(s, Apply(s, RetrySvg), content, paths);
  }

  /** A canceled job that still has an owner can always be brought to rest. */
  lemma CanceledJobEnds(states: seq<State>, actions: seq<Action>, n: nat) returns (s': State)
    requires Run(states, actions) && n <= |actions| && states[n].row.owner.Some? && states[n].row.cancelRequested
    ensures Reaches(states[n], s') && s'.row.status == Canceled && s'.row.owner == None
    ensures s'.artifacts == states[n].artifacts
  {
    var s := states[n];
    RunKeepsJob(states, actions, n);
    Stays(s);
    Next(s, s, ClaimExpired);
    var s1 := Apply(s, ClaimExpired);
    var a := Recover(s.row.lease + 1, RecoverCanceled);
    Next(s, s1, a);
    s' := Apply(s1, a);
  }

  /** A recovery that still owns the row can remove whatever the lost lease left unpublished,
      and nothing else goes. */
  lemma LeftoverCanBePruned(states: seq<State>, actions: seq<Action>, n: nat, r: nat, x: nat) returns (s': State)
    requires Run(states, actions) && n <= |actions|
    requires var s := states[n];
             && r in s.recoveries && s.recoveries[r].phase == CheckpointRead(Known(s.row)) && StillOwned(s, r)
             && x in s.dirs && OfLease(x, s.recoveries[r].lost) && x !in Refs(s)
    ensures Reaches(states[n], s') && s'.dirs == states[n].dirs - {x} && s'.artifacts == states[n].artifacts
  {
    var s := states[n];
    RunKeepsInv(states, actions, n);
    Stays(s);
    Next(s, s, Recover(r, Snapshot));
    var s1 := Apply(s, Recover(r, Snapshot));
    Next(s, s1, Recover(r, PruneCheck(x)));
    var s2 := Apply(s1, Recover(r, PruneCheck(x)));
    Next(s, s2, Recover(r, PruneRemove));
    s' := Apply(s2, Recover(r, PruneRemove));
  }

  /** A worker can always clean up: what it tracks and has not committed goes. */
  lemma {:induction false} WorkerCanCleanUp(s0: State, s: State, g: nat) returns (s': State)
    requires Reaches(s0, s) && At(s, g, Cleaning)
    ensures Reaches(s0, s') && At(s', g, Cleaning) && s'.workers[g].published == {}
    ensures s'.dirs == s.dirs - s.workers[g].published && s'.artifacts == s.artifacts && s'.row == s.row
    decreases s.workers[g].published
  {
    if s.workers[g].published == {} {
      s' := s;
    } else {
      var x :| x in s.workers[g].published;
      var a := Work(g, RemoveOwn(x));
      Next(s0, s, a);
      s' := WorkerCanCleanUp(s0, Apply(s, a), g);
    }
  }
}
