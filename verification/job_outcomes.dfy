/** What becomes of a job: how its status follows from its stages, that its outcome is final,
    and that no interleaving of deaths, recoveries and retries leaves it in a dead end. */
module JobOutcomes {
  import opened Text
  import opened Wrappers
  import opened StagedPublication

  predicate Open(status: Status) {
    status in {Queued, Validating, Running}
  }

  /** What holds of the checkpoint row beside every job row. */
  predicate StagesOk(status: Status, t: Stages) {
    && (t.pdfStatus == Done <==> t.pdf.Some?)
    && (t.svgStatus == Done ==> t.svg.Some?)
    && (t.svg.Some? ==> t.svgStatus in {Done, Broken})
    && (t.svgStatus in {Active, Done, Broken} ==> t.pdfStatus == Done)
    && (t.svgStatus == Skipped ==> t.pdfStatus == Broken)
    && (t.pdfStatus == Broken ==> t.svgStatus == Skipped)
    && t.pdfStatus != Skipped && 1 <= t.svgAttempt <= 8
    && (status == Succeeded <==> t.svgStatus == Done)
    && (Open(status) <==> t.pdfStatus in {Waiting, Active} || t.svgStatus in {Waiting, Active})
    && (t.pdfStatus == Active || t.svgStatus == Active ==> status == Running)
  }

  predicate RowOk(row: Row) {
    && (row.status == Queued ==> row.owner == None)
    && (row.status in {Validating, Running} ==> row.owner.Some?)
    && (row.status in {Failed, Succeeded} ==> row.owner == None)
    && (row.status == Succeeded ==> row.stages.Some?)
    && (row.stages.Some? ==> StagesOk(row.status, row.stages.value))
  }

  /** A worker past its first step has initialized the checkpoint, and before the checkpoint
      nothing is published. */
  ghost predicate JobOk(s: State) {
    && RowOk(s.row)
    && (s.row.status == Running ==> s.row.stages.Some?)
    && (forall g :: g in s.workers && s.workers[g].phase !in {Starting, Cleaning, Dead} ==> s.row.stages.Some?)
    && (Open(s.row.status) && PdfOf(s.row) == None ==> s.artifacts == map[])
  }

  lemma StageStepOk(row: Row, g: nat, w: WorkerStep)
    requires RowOk(row) && row.stages.Some? && row.status == Running
    requires w.StartPdf? ==> row.stages.value.pdfStatus == Waiting
    requires w.CommitPdf? ==> row.stages.value.pdfStatus == Active
    requires w.StartSvg? ==> row.stages.value.svgStatus == Waiting && row.stages.value.pdfStatus == Done
    requires w.CommitSvg? ==> row.stages.value.svgStatus == Active
    requires w.StartPdf? || w.CommitPdf? || w.StartSvg? || w.CommitSvg?
    ensures RowOk(WorkerRow(row, g, w))
  {
  }

  lemma FinishedOk(row: Row, status: Status)
    requires RowOk(row) && (Open(row.status) || (row.status == Canceled && status == Canceled))
    requires status in {Failed, Canceled}
    ensures RowOk(Finished(row, status))
  {
  }

  lemma WorkerStepOk(s: State, g: nat, w: WorkerStep)
    requires JobOk(s) && Enabled(s, Work(g, w))
    ensures RowOk(WorkerRow(s.row, g, w))
  {
    match w
    case StartPdf => StageStepOk(s.row, g, w);
    case CommitPdf(_) => StageStepOk(s.row, g, w);
    case StartSvg => StageStepOk(s.row, g, w);
    case CommitSvg(_, _) => StageStepOk(s.row, g, w);
    case FinishFailure => FinishedOk(s.row, Failed);
    case CommitDiagnostics(_) => FinishedOk(s.row, Failed);
    case MarkCanceled => FinishedOk(s.row, Canceled);
    case _ =>
  }

  lemma StepKeepsRow(s: State, a: Action)
    requires JobOk(s) && Enabled(s, a)
    ensures RowOk(RowAfter(s.row, a))
    ensures RowAfter(s.row, a).status == Running ==> RowAfter(s.row, a).stages.Some?
    ensures s.row.stages.Some? ==> RowAfter(s.row, a).stages.Some?
  {
    match a
    case Work(g, w) => WorkerStepOk(s, g, w);
    case Recover(_, v) =>
      if v.RecoverFailed? { FinishedOk(s.row, Failed); }
      if v.RecoverCanceled? { FinishedOk(s.row, Canceled); }
    case _ =>
  }

  lemma StepKeepsJob(s: State, a: Action)
    requires JobOk(s) && Enabled(s, a)
    ensures JobOk(Apply(s, a))
  {
    var s' := Apply(s, a);
    StepKeepsRow(s, a);
    forall g | g in s'.workers && s'.workers[g].phase !in {Starting, Cleaning, Dead} ensures s'.row.stages.Some? {
      if g in s.workers && s'.workers[g] == s.workers[g] {
        assert s.row.stages.Some?;
      } else {
        InitializedFirst(s, a, g);
      }
    }
    if Open(s'.row.status) && PdfOf(s'.row) == None { NothingPublishedYet(s, a); }
  }

  /** The step that takes a worker anywhere finds or makes the checkpoint row. */
  lemma InitializedFirst(s: State, a: Action, g: nat)
    requires JobOk(s) && Enabled(s, a)
    requires g in Apply(s, a).workers && Apply(s, a).workers[g].phase !in {Starting, Cleaning, Dead}
    requires !(g in s.workers && Apply(s, a).workers[g] == s.workers[g])
    ensures Apply(s, a).row.stages.Some?
  {
    StepKeepsRow(s, a);
  }

  lemma NothingPublishedYet(s: State, a: Action)
    requires JobOk(s) && Enabled(s, a) && Open(RowAfter(s.row, a).status) && PdfOf(RowAfter(s.row, a)) == None
    ensures Apply(s, a).artifacts == map[]
  {
    assert !CommitsPdf(a) && !CommitsSvg(a);
    StepKeepsRow(s, a);
  }

  lemma {:induction false} RunKeepsJob(states: seq<State>, actions: seq<Action>, n: nat)
    requires Run(states, actions) && n <= |actions|
    ensures JobOk(states[n])
    decreases n
  {
    if n > 0 {
      RunKeepsJob(states, actions, n - 1);
      StepKeepsJob(states[n - 1], actions[n - 1]);
    }
  }

  /** In every run a job has succeeded exactly when its SVG stage has; then its PDF has as well
      and nobody owns it.  A job that is over has no stage left open, one that is not has. */
  lemma OutcomeFollowsStages(states: seq<State>, actions: seq<Action>, n: nat)
    requires Run(states, actions) && n <= |actions|
    ensures var row := states[n].row;
            && (row.status == Succeeded <==> row.stages.Some? && row.stages.value.svgStatus == Done)
            && (row.status == Succeeded ==>
                  row.owner == None && row.stages.value.pdfStatus == Done
                  && row.stages.value.pdf.Some? && row.stages.value.svg.Some?)
            && (row.stages.Some? ==>
                  (row.status in {Failed, Canceled, Succeeded} <==>
                    row.stages.value.pdfStatus !in {Waiting, Active}
                    && row.stages.value.svgStatus !in {Waiting, Active}))
            && (row.stages.Some? && row.status in {Failed, Canceled} ==>
                  row.stages.value.svgStatus == if PdfOf(row).Some? then Broken else Skipped)
  {
    RunKeepsJob(states, actions, n);
  }

  /** What the commit of an SVG stage decides. */
  lemma SvgDecides(states: seq<State>, actions: seq<Action>, n: nat, paths: set<string>, ok: bool)
    requires Run(states, actions) && n < |actions| && actions[n].Work? && actions[n].step == CommitSvg(paths, ok)
    ensures var row := states[n + 1].row;
            && row.status == (if ok then Succeeded else Failed) && row.stages.Some?
            && row.stages.value.svgStatus == (if ok then Done else Broken)
            && row.stages.value.svg == Some(StorageGeneration(actions[n].g, true))
  {
    assert Enabled(states[n], actions[n]) && states[n + 1] == Apply(states[n], actions[n]);
  }

  /** What each other ending of a job decides: nobody owns it afterwards, and its status is that
      of the ending. */
  lemma EndingsDecide(states: seq<State>, actions: seq<Action>, n: nat)
    requires Run(states, actions) && n < |actions|
    ensures var a, row := actions[n], states[n + 1].row;
            && (a.Work? && (a.step.FinishFailure? || a.step.CommitDiagnostics?) ==>
                  row.status == Failed && row.owner == None)
            && (a.Work? && a.step.MarkCanceled? ==> row.status == Canceled && row.owner == None)
            && (a.Recover? && a.move.RecoverFailed? ==> row.status == Failed && row.owner == None)
            && (a.Recover? && a.move.RecoverCanceled? ==> row.status == Canceled && row.owner == None)
            && (a.Recover? && a.move.RecoverQueued? ==> row.status == Queued && row.owner == None)
            && (a == Cancel && states[n].row.status != Running ==> row.status == Canceled)
            && (a == Cancel && states[n].row.status == Running ==> row.status == Running && row.cancelRequested)
  {
    assert Enabled(states[n], actions[n]) && states[n + 1] == Apply(states[n], actions[n]);
  }

  /** A dead worker does nothing more. */
  lemma DeadIsDead(s: State, g: nat, w: WorkerStep)
    requires Enabled(s, Work(g, w)) && s.workers[g].phase == Dead
    ensures w == Die && WorkerAfter(s, g, w).phase == Dead && RowAfter(s.row, Work(g, w)) == s.row
  {
  }

  /** A failure is recorded without files exactly after the PDF, by a living owner that was not
      asked to cancel; and a cancellation is confirmed exactly by the living owner. */
  lemma OwnerEnds(states: seq<State>, actions: seq<Action>, n: nat, g: nat)
    requires Run(states, actions) && n <= |actions| && g in states[n].workers
    ensures var s := states[n];
            && (Enabled(s, Work(g, FinishFailure)) <==>
                  s.workers[g].phase != Dead && Owns(s, g) && Open(s.row.status) && s.row.status != Queued
                  && !s.row.cancelRequested && PdfOf(s.row).Some?)
            && (Enabled(s, Work(g, MarkCanceled)) <==>
                  s.workers[g].phase != Dead && Owns(s, g) && s.row.cancelRequested)
            && (Enabled(s, Work(g, Abort)) <==> s.workers[g].phase != Dead)
  {
    RunKeepsJob(states, actions, n);
  }

  lemma SucceededStays(s: State, a: Action)
    requires JobOk(s) && Enabled(s, a) && s.row.status == Succeeded
    ensures RowAfter(s.row, a) == s.row && Apply(s, a).artifacts == s.artifacts
  {
  }

  /** Success is final: neither the row nor what it published changes any more. */
  lemma {:induction false} SucceededForever(states: seq<State>, actions: seq<Action>, i: nat, j: nat)
    requires Run(states, actions) && i <= j <= |actions| && states[i].row.status == Succeeded
    ensures states[j].row == states[i].row && states[j].artifacts == states[i].artifacts
    decreases j - i
  {
    if i < j {
      SucceededForever(states, actions, i, j - 1);
      RunKeepsJob(states, actions, j - 1);
      SucceededStays(states[j - 1], actions[j - 1]);
    }
  }

  lemma CanceledStays(s: State, a: Action)
    requires Enabled(s, a) && s.row.cancelRequested && a != RetrySvg
    ensures RowAfter(s.row, a).cancelRequested && Apply(s, a).artifacts == s.artifacts
    ensures RowAfter(s.row, a).status == Succeeded ==> s.row.status == Succeeded
  {
  }

  /** A cancellation is obeyed: until somebody asks for a retry the job publishes nothing and
      does not succeed. */
  lemma {:induction false} CancellationHolds(states: seq<State>, actions: seq<Action>, i: nat, j: nat)
    requires Run(states, actions) && i < j <= |actions| && actions[i] == Cancel
    requires forall k :: i < k < j ==> actions[k] != RetrySvg
    ensures states[j].row.cancelRequested && states[j].artifacts == states[i].artifacts
    ensures states[j].row.status != Succeeded
    decreases j - i
  {
    assert Enabled(states[i], actions[i]) && states[i + 1] == Apply(states[i], actions[i]);
    if i + 1 < j {
      CancellationHolds(states, actions, i, j - 1);
      CanceledStays(states[j - 1], actions[j - 1]);
    }
  }

  function Retries(actions: seq<Action>): nat {
    if actions == [] then 0
    else Retries(actions[..|actions| - 1]) + if actions[|actions| - 1] == RetrySvg then 1 else 0
  }

  lemma AttemptAfter(s: State, a: Action)
    requires JobOk(s) && Enabled(s, a) && s.row.stages.Some?
    ensures RowAfter(s.row, a).stages.Some?
    ensures RowAfter(s.row, a).stages.value.svgAttempt ==
              s.row.stages.value.svgAttempt + if a == RetrySvg then 1 else 0
  {
    StepKeepsRow(s, a);
  }

  /** The attempt number counts the retries, so a job is retried at most seven times. */
  lemma {:induction false} RetriesAreCounted(states: seq<State>, actions: seq<Action>, n: nat)
    requires Run(states, actions) && n <= |actions|
    ensures states[n].row.stages == None ==> Retries(actions[..n]) == 0
    ensures states[n].row.stages.Some? ==> states[n].row.stages.value.svgAttempt == 1 + Retries(actions[..n]) <= 8
    decreases n
  {
    RunKeepsJob(states, actions, n);
    if n > 0 {
      var s, a := states[n - 1], actions[n - 1];
      RetriesAreCounted(states, actions, n - 1);
      RunKeepsJob(states, actions, n - 1);
      assert actions[..n][..n - 1] == actions[..n - 1];
      assert Enabled(s, a) && states[n] == Apply(s, a);
      if s.row.stages.Some? { AttemptAfter(s, a); }
    }
  }

  /** A job that failed or was canceled after its PDF can be retried until that limit. */
  lemma RetryIsOffered(states: seq<State>, actions: seq<Action>, n: nat)
    requires Run(states, actions) && n <= |actions|
    requires var row := states[n].row;
             && row.status in {Failed, Canceled} && row.owner == None && PdfOf(row).Some?
             && row.stages.value.svgAttempt < 8
    ensures Enabled(states[n], RetrySvg)
    ensures var row := Apply(states[n], RetrySvg).row;
            row.status == Queued && !row.cancelRequested && SvgOf(row) == None && PdfOf(row) == PdfOf(states[n].row)
  {
    RunKeepsJob(states, actions, n);
    RunKeepsInv(states, actions, n);
  }
}
