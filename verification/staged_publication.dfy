/** Lease-fenced publication of the two output stages of one job
    (apps/renderer-worker/src/staged-job-processor.ts, stage-recovery.ts, recovery.ts, and
    the guarded updates of packages/database/src/repositories).

    The job row, its stage checkpoint and its artifact rows change only in the UPDATEs of
    the repositories, each under its WHERE clause and with the triggers of schema.ts;
    directories below `outputs/` are renamed and removed without looking at the rows again.
    Any number of workers and recoveries take one step at a time; a lease may be taken
    over at any moment, and every process may stall or die between two steps. */
module StagedPublication {
  import opened Text
  import opened Wrappers

  datatype Status = Queued | Validating | Running | Canceled | Failed | Succeeded

  /** Broken stands for failed, timeout and canceled. */
  datatype StageStatus = Waiting | Active | Done | Broken | Skipped

  datatype Owner = Worker | Recovery

  /** `storageGeneration`: each lease has two output directories of its own. */
  function StorageGeneration(lease: nat, svg: bool): nat {
    2 * lease + if svg then 1 else 0
  }

  predicate OfLease(generation: nat, lease: nat) {
    generation == StorageGeneration(lease, false) || generation == StorageGeneration(lease, true)
  }

  /** The row of `job_output_stages`. */
  datatype Stages = Stages(
    pdfStatus: StageStatus,
    svgStatus: StageStatus,
    pdf: Option<nat>,
    svg: Option<nat>,
    svgAttempt: nat)

  datatype Row = Row(
    status: Status,
    cancelRequested: bool,
    owner: Option<Owner>,
    lease: nat,
    stages: Option<Stages>)

  datatype WorkerPhase =
    | Starting | Prepared | Ready | Rendering | PdfChecked | PdfRenamed | DiagnosticsRenamed
    | Checkpointed | SvgRendering | SvgChecked | SvgRenamed | Cleaning | Dead

  /** `published` are the directories this run renamed into place and has not committed. */
  datatype WorkerState = WorkerState(phase: WorkerPhase, published: set<nat>)

  datatype RecoveryPhase =
    | Claimed
    | CheckpointRead(known: set<nat>)
    | Pruning(kept: set<nat>, checked: Option<nat>)
    | Ended

  datatype RecoveryState = RecoveryState(lost: nat, phase: RecoveryPhase)

  /** `artifacts` maps each published path to its storage generation; `dirs` maps each
      directory below `outputs/` to its contents. */
  datatype State = State(
    row: Row,
    artifacts: map<string, nat>,
    dirs: map<nat, nat>,
    workers: map<nat, WorkerState>,
    recoveries: map<nat, RecoveryState>)

  datatype WorkerStep =
    | Initialize
    | StartRun
    | StartPdf
    | CheckPdf
    | RenamePdf(content: nat)
    | CommitPdf(paths: set<string>)
    | RenameDiagnostics(content: nat)
    | CommitDiagnostics(paths: set<string>)
    | StartSvg
    | CheckSvg
    | RenameSvg(content: nat)
    | CommitSvg(paths: set<string>, succeeded: bool)
    | FinishFailure
    | MarkCanceled
    | Abort
    | RemoveOwn(generation: nat)
    | Die

  datatype RecoveryStep =
    | ReadCheckpoint
    | Snapshot
    | PruneCheck(generation: nat)
    | PruneRemove
    | RecoverQueued
    | RecoverFailed
    | RecoverCanceled
    | Vanish

  datatype Action =
    | Claim
    | Work(g: nat, step: WorkerStep)
    | Cancel
    | RetrySvg
    | ClaimExpired
    | Recover(r: nat, move: RecoveryStep)

  /** `referencedGenerations`. */
  function Refs(s: State): set<nat> {
    s.artifacts.Values
  }

  predicate SvgPath(path: string) {
    StartsWith(path, "svg/")
  }

  predicate Owns(s: State, g: nat) {
    s.row.owner == Some(Worker) && s.row.lease == g
  }

  /** The condition `owned` of output-stages.ts. */
  predicate Owned(s: State, g: nat) {
    Owns(s, g) && s.row.status == Running && !s.row.cancelRequested && s.row.stages.Some?
  }

  predicate Recovers(s: State, r: nat) {
    s.row.owner == Some(Recovery) && s.row.lease == r
  }

  predicate StillOwned(s: State, r: nat) {
    Recovers(s, r) && s.row.status in {Validating, Running, Canceled}
  }

  predicate At(s: State, g: nat, p: WorkerPhase) {
    g in s.workers && s.workers[g].phase == p
  }

  predicate Recovering(s: State, r: nat) {
    r in s.recoveries && s.recoveries[r].phase != Ended
  }

  predicate WorkerEnabled(s: State, g: nat, w: WorkerStep) {
    match w
    case Initialize =>
      && At(s, g, Starting) && Owns(s, g) && !s.row.cancelRequested
      && (s.row.stages == None ==> "result.pdf" !in s.artifacts && s.row.status in {Validating, Running})
    case StartRun => At(s, g, Prepared) && Owns(s, g) && s.row.status == Validating
    case StartPdf => At(s, g, Ready) && Owned(s, g) && s.row.stages.value.pdfStatus == Waiting
    case CheckPdf => At(s, g, Rendering) && Owns(s, g) && s.row.status in {Validating, Running}
    case RenamePdf(_) => At(s, g, PdfChecked) && StorageGeneration(g, false) !in s.dirs
    case CommitPdf(paths) =>
      && At(s, g, PdfRenamed) && Owned(s, g) && s.row.stages.value.pdfStatus == Active
      && "result.pdf" in paths && paths !! s.artifacts.Keys && forall p :: p in paths ==> !SvgPath(p)
    case RenameDiagnostics(_) => At(s, g, Rendering) && StorageGeneration(g, false) !in s.dirs
    case CommitDiagnostics(paths) =>
      && At(s, g, DiagnosticsRenamed) && Owns(s, g) && s.row.status == Running && !s.row.cancelRequested
      && paths !! s.artifacts.Keys && forall p :: p in paths ==> !SvgPath(p)
    case StartSvg =>
      && At(s, g, Checkpointed) && Owned(s, g)
      && s.row.stages.value.svgStatus == Waiting && s.row.stages.value.pdfStatus == Done
    case CheckSvg => At(s, g, SvgRendering) && Owns(s, g) && s.row.status in {Validating, Running}
    case RenameSvg(_) => At(s, g, SvgChecked) && StorageGeneration(g, true) !in s.dirs
    case CommitSvg(paths, _) =>
      && At(s, g, SvgRenamed) && Owned(s, g) && s.row.stages.value.svgStatus == Active
      && paths != {} && forall p :: p in paths ==> SvgPath(p)
    case FinishFailure =>
      && g in s.workers && s.workers[g].phase != Dead
      && Owns(s, g) && s.row.status in {Validating, Running} && !s.row.cancelRequested
      && s.row.stages.Some? && s.row.stages.value.pdfStatus == Done
    case MarkCanceled =>
      && g in s.workers && s.workers[g].phase != Dead
      && Owns(s, g) && s.row.cancelRequested && s.row.status in {Validating, Running, Canceled}
    case Abort => g in s.workers && s.workers[g].phase != Dead
    case RemoveOwn(x) => At(s, g, Cleaning) && x in s.workers[g].published
    case Die => g in s.workers
  }

  predicate RecoveryEnabled(s: State, r: nat, v: RecoveryStep) {
    match v
    case ReadCheckpoint => r in s.recoveries && s.recoveries[r].phase == Claimed && s.row.stages.Some?
    case Snapshot => r in s.recoveries && s.recoveries[r].phase.CheckpointRead? && StillOwned(s, r)
    case PruneCheck(x) =>
      && r in s.recoveries && s.recoveries[r].phase.Pruning? && s.recoveries[r].phase.checked == None
      && OfLease(x, s.recoveries[r].lost) && x !in s.recoveries[r].phase.kept && StillOwned(s, r)
    case PruneRemove =>
      r in s.recoveries && s.recoveries[r].phase.Pruning? && s.recoveries[r].phase.checked.Some?
    case RecoverQueued => Recovering(s, r) && Recovers(s, r) && s.row.status in {Validating, Running}
    case RecoverFailed => Recovering(s, r) && Recovers(s, r) && s.row.status in {Validating, Running}
    case RecoverCanceled => Recovering(s, r) && StillOwned(s, r)
    case Vanish => Recovering(s, r)
  }

  predicate Enabled(s: State, a: Action) {
    match a
    case Claim => s.row.status == Queued
    case Work(g, w) => g in s.workers && WorkerEnabled(s, g, w)
    case Cancel => s.row.status in {Queued, Validating, Running}
    case RetrySvg =>
      && s.row.status in {Failed, Canceled} && s.row.owner == None && s.row.stages.Some?
      && var t := s.row.stages.value;
      && t.pdfStatus == Done && t.svgStatus == Broken && t.svgAttempt < 8
      && "result.pdf" in s.artifacts && t.pdf == Some(s.artifacts["result.pdf"])
    case ClaimExpired => s.row.owner.Some? && s.row.status in {Validating, Running, Canceled}
    case Recover(r, v) => r in s.recoveries && RecoveryEnabled(s, r, v)
  }

  /** The trigger `output_stages_terminal`. */
  function Terminated(t: Option<Stages>): Option<Stages> {
    if t == None then None
    else
      var open := {Waiting, Active};
      var svg := if t.value.svgStatus !in open then t.value.svgStatus
                 else if t.value.pdfStatus != Done then Skipped else Broken;
      Some(t.value.(svgStatus := svg, pdfStatus := if t.value.pdfStatus in open then Broken else t.value.pdfStatus))
  }

  /** The trigger `output_stages_recover`. */
  function Reopened(t: Option<Stages>): Option<Stages> {
    if t == None then None
    else Some(t.value.(pdfStatus := if t.value.pdfStatus == Active then Waiting else t.value.pdfStatus,
                       svgStatus := if t.value.svgStatus == Active then Waiting else t.value.svgStatus))
  }

  function Finished(row: Row, status: Status): Row {
    row.(status := status, owner := None, stages := Terminated(row.stages))
  }

  /** `publishStage` for each path: new rows, and `svg/` rows that move to this generation. */
  function Published(artifacts: map<string, nat>, paths: set<string>, x: nat): map<string, nat> {
    artifacts + map p | p in paths :: x
  }

  function PdfOf(row: Row): Option<nat> {
    if row.stages == None then None else row.stages.value.pdf
  }

  function SvgOf(row: Row): Option<nat> {
    if row.stages == None then None else row.stages.value.svg
  }

  function Known(row: Row): set<nat> {
    (if PdfOf(row).Some? then {PdfOf(row).value} else {}) + (if SvgOf(row).Some? then {SvgOf(row).value} else {})
  }

  /** The generation a step publishes. */
  function Commits(a: Action): Option<nat> {
    if !a.Work? then None
    else if a.step.CommitPdf? || a.step.CommitDiagnostics? then Some(StorageGeneration(a.g, false))
    else if a.step.CommitSvg? then Some(StorageGeneration(a.g, true))
    else None
  }

  /** The paths a step publishes. */
  function CommittedPaths(a: Action): set<string> {
    if a.Work? && (a.step.CommitPdf? || a.step.CommitDiagnostics? || a.step.CommitSvg?) then a.step.paths else {}
  }

  /** The directory a step renames into place. */
  function Renames(a: Action): Option<nat> {
    if !a.Work? then None
    else if a.step.RenamePdf? || a.step.RenameDiagnostics? then Some(StorageGeneration(a.g, false))
    else if a.step.RenameSvg? then Some(StorageGeneration(a.g, true))
    else None
  }

  /** The directory a step removes. */
  function Removes(s: State, a: Action): Option<nat>
    requires Enabled(s, a)
  {
    if a.Work? && a.step.RemoveOwn? then Some(a.step.generation)
    else if a.Recover? && a.move.PruneRemove? then s.recoveries[a.r].phase.checked
    else None
  }

  function ArtifactsAfter(s: State, a: Action): map<string, nat> {
    if Commits(a).Some? then Published(s.artifacts, CommittedPaths(a), Commits(a).value) else s.artifacts
  }

  function DirsAfter(s: State, a: Action): map<nat, nat>
    requires Enabled(s, a)
  {
    if Renames(a).Some? then s.dirs[Renames(a).value := a.step.content]
    else if Removes(s, a).Some? then s.dirs - {Removes(s, a).value}
    else s.dirs
  }

  function NextPhase(s: State, p: WorkerPhase, w: WorkerStep): WorkerPhase {
    match w
    case Initialize => Prepared
    case StartRun => if s.row.stages.Some? && s.row.stages.value.pdfStatus == Done then Checkpointed else Ready
    case StartPdf => Rendering
    case CheckPdf => PdfChecked
    case RenamePdf(_) => PdfRenamed
    case CommitPdf(_) => Checkpointed
    case RenameDiagnostics(_) => DiagnosticsRenamed
    case CommitDiagnostics(_) => Cleaning
    case StartSvg => SvgRendering
    case CheckSvg => SvgChecked
    case RenameSvg(_) => SvgRenamed
    case CommitSvg(_, _) => Cleaning
    case FinishFailure => Cleaning
    case MarkCanceled => p
    case Abort => Cleaning
    case RemoveOwn(_) => p
    case Die => Dead
  }

  /** A rename enters `published`; a commit, which `published.delete` follows without a
      pause, and a removal leave it. */
  function WorkerAfter(s: State, g: nat, w: WorkerStep): WorkerState
    requires Enabled(s, Work(g, w))
  {
    var a, me := Work(g, w), s.workers[g];
    WorkerState(NextPhase(s, me.phase, w),
                if Renames(a).Some? then me.published + {Renames(a).value}
                else if Commits(a).Some? then me.published - {Commits(a).value}
                else if Removes(s, a).Some? then me.published - {Removes(s, a).value}
                else me.published)
  }

  function WorkersAfter(s: State, a: Action): map<nat, WorkerState>
    requires Enabled(s, a)
  {
    match a
    case Claim => s.workers[s.row.lease + 1 := WorkerState(Starting, {})]
    case Work(g, w) => s.workers[g := WorkerAfter(s, g, w)]
    case _ => s.workers
  }

  function RecoveryAfter(s: State, r: nat, v: RecoveryStep): RecoveryPhase
    requires Enabled(s, Recover(r, v))
  {
    var phase := s.recoveries[r].phase;
    match v
    case ReadCheckpoint => CheckpointRead(Known(s.row))
    case Snapshot => Pruning(Refs(s) + phase.known, None)
    case PruneCheck(x) => phase.(checked := Some(x))
    case PruneRemove => phase.(checked := None)
    case _ => Ended
  }

  function RecoveriesAfter(s: State, a: Action): map<nat, RecoveryState>
    requires Enabled(s, a)
  {
    match a
    case ClaimExpired => s.recoveries[s.row.lease + 1 := RecoveryState(s.row.lease, Claimed)]
    case Recover(r, v) => s.recoveries[r := s.recoveries[r].(phase := RecoveryAfter(s, r, v))]
    case _ => s.recoveries
  }

  function WorkerRow(row: Row, g: nat, w: WorkerStep): Row {
    match w
    case Initialize =>
      row.(stages := if row.stages.Some? then row.stages else Some(Stages(Waiting, Waiting, None, None, 1)))
    case StartRun => row.(status := Running)
    case FinishFailure => Finished(row, Failed)
    case MarkCanceled => Finished(row, Canceled)
    case CommitDiagnostics(_) => Finished(row, Failed)
    case _ => if row.stages == None then row else StageRow(row, row.stages.value, g, w)
  }

  function StageRow(row: Row, t: Stages, g: nat, w: WorkerStep): Row {
    match w
    case StartPdf => row.(stages := Some(t.(pdfStatus := Active)))
    case CommitPdf(_) => row.(stages := Some(t.(pdfStatus := Done, pdf := Some(StorageGeneration(g, false)))))
    case StartSvg => row.(stages := Some(t.(svgStatus := Active)))
    case CommitSvg(_, succeeded) =>
      var stages := t.(svgStatus := if succeeded then Done else Broken, svg := Some(StorageGeneration(g, true)));
      Finished(row.(stages := Some(stages)), if succeeded then Succeeded else Failed)
    case _ => row
  }

  function RecoveryRow(row: Row, v: RecoveryStep): Row {
    match v
    case RecoverQueued => row.(status := Queued, owner := None, stages := Reopened(row.stages))
    case RecoverFailed => Finished(row, Failed)
    case RecoverCanceled => Finished(row, Canceled)
    case _ => row
  }

  function RowAfter(row: Row, a: Action): Row {
    match a
    case Claim => row.(status := Validating, owner := Some(Worker), lease := row.lease + 1)
    case Work(g, w) => WorkerRow(row, g, w)
    case Cancel =>
      if row.status == Running then row.(cancelRequested := true)
      else row.(cancelRequested := true, status := Canceled, stages := Terminated(row.stages))
    case RetrySvg =>
      row.(status := Queued, cancelRequested := false,
           stages := if row.stages == None then None
                     else Some(row.stages.value.(svgStatus := Waiting, svg := None,
                                                 svgAttempt := row.stages.value.svgAttempt + 1)))
    case ClaimExpired => row.(owner := Some(Recovery), lease := row.lease + 1)
    case Recover(_, v) => RecoveryRow(row, v)
  }

  function Apply(s: State, a: Action): State
    requires Enabled(s, a)
  {
    State(RowAfter(s.row, a), ArtifactsAfter(s, a), DirsAfter(s, a), WorkersAfter(s, a), RecoveriesAfter(s, a))
  }

  const START := State(Row(Queued, false, None, 0, None), map[], map[], map[], map[])

  ghost predicate Run(states: seq<State>, actions: seq<Action>) {
    && |states| == |actions| + 1
    && states[0] == START
    && forall i :: 0 <= i < |actions| ==>
         Enabled(states[i], actions[i]) && states[i + 1] == Apply(states[i], actions[i])
  }

  ghost predicate Follows(s: State, a: Action, s': State) {
    Enabled(s, a) && s' == Apply(s, a)
  }

  /** Any actions from this state on. */
  ghost predicate RunFrom(s: State, states: seq<State>, actions: seq<Action>) {
    && |states| == |actions| + 1
    && states[0] == s
    && forall i :: 0 <= i < |actions| ==> Follows(states[i], actions[i], states[i + 1])
  }

  ghost predicate PathOk(s: State, p: string)
    requires p in s.artifacts
  {
    && s.artifacts[p] in s.dirs
    && s.artifacts[p] % 2 == (if SvgPath(p) then 1 else 0)
    && s.artifacts[p] <= StorageGeneration(s.row.lease, true)
  }

  /** Every published path has its directory, of no later lease than the present one; PDF
      paths name even generations and SVG paths odd ones; what the checkpoint names is
      published, the PDF under its own path. */
  ghost predicate ReferencesExist(s: State) {
    && (forall p :: p in s.artifacts ==> PathOk(s, p))
    && Known(s.row) <= Refs(s)
    && (PdfOf(s.row).Some? ==>
          && s.row.stages.value.pdfStatus == Done
          && "result.pdf" in s.artifacts && s.artifacts["result.pdf"] == PdfOf(s.row).value)
  }

  /** A worker holds a lease already given out and tracks only its own two directories,
      none of them committed.  While it owns the row it finds what it renamed. */
  ghost predicate WorkerOk(s: State, g: nat)
    requires g in s.workers
  {
    && 1 <= g <= s.row.lease
    && (forall x :: x in s.workers[g].published ==> OfLease(x, g) && x !in Refs(s))
    && (Owns(s, g) ==> s.workers[g].published <= s.dirs.Keys)
    && (s.workers[g].phase in {PdfRenamed, DiagnosticsRenamed} ==>
          StorageGeneration(g, false) in s.workers[g].published)
    && (s.workers[g].phase == SvgRenamed ==> StorageGeneration(g, true) in s.workers[g].published)
  }

  /** A recovery works on the lease just below its own; once it has its snapshot, every
      reference to that lease is in it, and what it is about to remove is not referenced. */
  ghost predicate RecoveryOk(s: State, r: nat)
    requires r in s.recoveries
  {
    && r <= s.row.lease && s.recoveries[r].lost + 1 == r
    && (s.recoveries[r].phase.Pruning? ==>
          && (forall x :: x in Refs(s) && OfLease(x, r - 1) ==> x in s.recoveries[r].phase.kept)
          && (s.recoveries[r].phase.checked.Some? ==>
                && OfLease(s.recoveries[r].phase.checked.value, r - 1)
                && s.recoveries[r].phase.checked.value !in s.recoveries[r].phase.kept))
  }

  ghost predicate WorkersInv(s: State) {
    forall g :: g in s.workers ==> WorkerOk(s, g)
  }

  ghost predicate RecoveriesInv(s: State) {
    forall r :: r in s.recoveries ==> RecoveryOk(s, r)
  }

  ghost predicate Inv(s: State) {
    ReferencesExist(s) && WorkersInv(s) && RecoveriesInv(s)
  }

  predicate CommitsSvg(a: Action) {
    a.Work? && a.step.CommitSvg?
  }

  predicate CommitsPdf(a: Action) {
    a.Work? && a.step.CommitPdf?
  }

  /** References only come from the owner of the current lease. */
  lemma NewReference(s: State, a: Action, x: nat)
    requires Enabled(s, a) && x in Refs(Apply(s, a)) && x !in Refs(s)
    ensures Commits(a) == Some(x) && OfLease(x, s.row.lease) && Owns(s, s.row.lease)
  {
    var p :| p in Apply(s, a).artifacts && Apply(s, a).artifacts[p] == x;
    assert p in s.artifacts ==> s.artifacts[p] in Refs(s);
  }

  /** What one step may take away: only an unreferenced directory of the lease that a
      cleaning worker holds or a recovery took over. */
  lemma RemovalIsOwn(s: State, a: Action, x: nat)
    requires Inv(s) && Enabled(s, a) && x in s.dirs && x !in Apply(s, a).dirs
    ensures x !in Refs(s)
    ensures (a.Work? && a.step.RemoveOwn?) || (a.Recover? && a.move.PruneRemove?)
    ensures a.Work? ==> OfLease(x, a.g)
    ensures a.Recover? ==> OfLease(x, a.r - 1) && !OfLease(x, s.row.lease)
  {
    if a.Recover? { assert RecoveryOk(s, a.r); }
    if a.Work? { assert WorkerOk(s, a.g); }
  }

  /** No step touches a referenced directory. */
  lemma ReferencedUntouched(s: State, a: Action, x: nat)
    requires Inv(s) && Enabled(s, a) && x in Refs(s)
    ensures x in s.dirs && x in Apply(s, a).dirs && Apply(s, a).dirs[x] == s.dirs[x]
  {
    var p :| p in s.artifacts && s.artifacts[p] == x;
    if x !in Apply(s, a).dirs { RemovalIsOwn(s, a, x); }
  }

  /** What a committing worker renamed is there. */
  lemma CommittedExists(s: State, a: Action)
    requires Inv(s) && Enabled(s, a) && Commits(a).Some?
    ensures Commits(a).value in s.dirs && Apply(s, a).dirs == s.dirs
  {
    assert WorkerOk(s, a.g);
  }

  lemma LeaseGrows(s: State, a: Action)
    requires Enabled(s, a)
    ensures s.row.lease <= RowAfter(s.row, a).lease
    ensures Commits(a).Some? ==> OfLease(Commits(a).value, s.row.lease)
  {
  }

  lemma NewPathOk(s: State, a: Action, p: string)
    requires Inv(s) && Enabled(s, a) && p in CommittedPaths(a)
    ensures p in Apply(s, a).artifacts && PathOk(Apply(s, a), p)
  {
    CommittedExists(s, a);
    LeaseGrows(s, a);
  }

  lemma OldPathOk(s: State, a: Action, p: string)
    requires Inv(s) && Enabled(s, a) && p in s.artifacts && p !in CommittedPaths(a)
    ensures p in Apply(s, a).artifacts && PathOk(Apply(s, a), p)
  {
    assert s.artifacts[p] in Refs(s) && PathOk(s, p);
    LeaseGrows(s, a);
    ReferencedUntouched(s, a, s.artifacts[p]);
  }

  lemma StepKeepsArtifacts(s: State, a: Action)
    requires Inv(s) && Enabled(s, a)
    ensures forall p :: p in Apply(s, a).artifacts ==> PathOk(Apply(s, a), p)
  {
    forall p | p in Apply(s, a).artifacts ensures PathOk(Apply(s, a), p) {
      if p in CommittedPaths(a) { NewPathOk(s, a, p); } else { OldPathOk(s, a, p); }
    }
  }

  /** A path outside `svg/` keeps its generation. */
  lemma PlainPathKept(s: State, a: Action, p: string)
    requires Enabled(s, a) && p in s.artifacts && (!SvgPath(p) || p !in CommittedPaths(a))
    ensures p in Apply(s, a).artifacts && Apply(s, a).artifacts[p] == s.artifacts[p]
  {
  }

  lemma PdfPathIsPlain()
    ensures !SvgPath("result.pdf")
  {
    assert "result.pdf"[..4][0] == 'r';
  }

  /** A row whose checkpoint names a PDF has finished that stage. */
  predicate PdfDone(row: Row) {
    PdfOf(row).Some? ==> row.stages.value.pdfStatus == Done
  }

  lemma WorkerKeepsPdf(row: Row, g: nat, w: WorkerStep)
    requires PdfDone(row)
    requires w.StartPdf? ==> row.stages.Some? && row.stages.value.pdfStatus == Waiting
    requires w.CommitPdf? ==> row.stages.Some? && row.stages.value.pdfStatus == Active
    ensures PdfDone(WorkerRow(row, g, w))
    ensures w.CommitPdf? ==> PdfOf(row) == None && PdfOf(WorkerRow(row, g, w)) == Some(StorageGeneration(g, false))
    ensures !w.CommitPdf? ==> PdfOf(WorkerRow(row, g, w)) == PdfOf(row)
  {
  }

  lemma RecoveryKeepsPdf(row: Row, v: RecoveryStep)
    requires PdfDone(row)
    ensures PdfDone(RecoveryRow(row, v)) && PdfOf(RecoveryRow(row, v)) == PdfOf(row)
  {
  }

  /** The PDF checkpoint is set once, by a PDF commit. */
  lemma PdfAfter(s: State, a: Action)
    requires PdfDone(s.row) && Enabled(s, a)
    ensures PdfDone(RowAfter(s.row, a))
    ensures CommitsPdf(a) ==> PdfOf(s.row) == None && PdfOf(RowAfter(s.row, a)) == Commits(a)
    ensures !CommitsPdf(a) ==> PdfOf(RowAfter(s.row, a)) == PdfOf(s.row)
  {
    match a
    case Work(g, w) => WorkerKeepsPdf(s.row, g, w);
    case Recover(_, v) => RecoveryKeepsPdf(s.row, v);
    case _ =>
  }

  lemma WorkerKeepsSvg(row: Row, g: nat, w: WorkerStep)
    requires w.CommitSvg? ==> row.stages.Some?
    ensures SvgOf(WorkerRow(row, g, w)) == if w.CommitSvg? then Some(StorageGeneration(g, true)) else SvgOf(row)
  {
  }

  lemma SvgAfter(s: State, a: Action)
    requires Enabled(s, a)
    ensures SvgOf(RowAfter(s.row, a)) ==
              if CommitsSvg(a) then Commits(a) else if a.RetrySvg? then None else SvgOf(s.row)
  {
    if a.Work? { WorkerKeepsSvg(s.row, a.g, a.step); }
  }

  lemma PdfStaysPublished(s: State, a: Action)
    requires Inv(s) && Enabled(s, a) && PdfOf(Apply(s, a).row).Some?
    ensures "result.pdf" in Apply(s, a).artifacts
    ensures Apply(s, a).artifacts["result.pdf"] == PdfOf(Apply(s, a).row).value
  {
    PdfAfter(s, a);
    PdfPathIsPlain();
    if !CommitsPdf(a) { PlainPathKept(s, a, "result.pdf"); }
  }

  /** The SVG checkpoint names published rows until it is replaced or taken back. */
  lemma SvgStaysPublished(s: State, a: Action)
    requires Inv(s) && Enabled(s, a) && SvgOf(Apply(s, a).row).Some?
    ensures SvgOf(Apply(s, a).row).value in Refs(Apply(s, a))
  {
    SvgAfter(s, a);
    if CommitsSvg(a) {
      var p :| p in a.step.paths;
      assert Apply(s, a).artifacts[p] == Commits(a).value;
    } else {
      var p :| p in s.artifacts && s.artifacts[p] == SvgOf(s.row).value;
      PlainPathKept(s, a, p);
      assert Apply(s, a).artifacts[p] == SvgOf(s.row).value;
    }
  }

  /** The worker whose step it is. */
  function Actor(s: State, a: Action): nat {
    match a
    case Claim => s.row.lease + 1
    case Work(g, _) => g
    case _ => 0
  }

  lemma StepKeepsReferences(s: State, a: Action)
    requires Inv(s) && Enabled(s, a)
    ensures ReferencesExist(Apply(s, a))
  {
    var s' := Apply(s, a);
    StepKeepsArtifacts(s, a);
    PdfAfter(s, a);
    if PdfOf(s'.row).Some? {
      PdfStaysPublished(s, a);
      assert s'.artifacts["result.pdf"] in Refs(s');
    }
    if SvgOf(s'.row).Some? { SvgStaysPublished(s, a); }
  }

  lemma NewWorkerOk(s: State)
    requires Inv(s) && Enabled(s, Claim)
    ensures WorkerOk(Apply(s, Claim), s.row.lease + 1)
  {
  }

  lemma TrackedStaysOk(s: State, g: nat, w: WorkerStep, x: nat)
    requires Inv(s) && Enabled(s, Work(g, w)) && x in WorkerAfter(s, g, w).published
    ensures var s' := Apply(s, Work(g, w));
            OfLease(x, g) && x !in Refs(s') && (Owns(s', g) ==> x in s'.dirs)
  {
    var a := Work(g, w);
    assert WorkerOk(s, g);
    if x !in s.workers[g].published { FreshDirectory(s, g, w, x); }
    if x in Refs(Apply(s, a)) { NewReference(s, a, x); }
  }

  lemma ActorStaysOk(s: State, g: nat, w: WorkerStep)
    requires Inv(s) && Enabled(s, Work(g, w))
    ensures WorkerOk(Apply(s, Work(g, w)), g)
  {
    assert WorkerOk(s, g);
    LeaseGrows(s, Work(g, w));
    forall x | x in WorkerAfter(s, g, w).published
      ensures var s' := Apply(s, Work(g, w)); OfLease(x, g) && x !in Refs(s') && (Owns(s', g) ==> x in s'.dirs)
    {
      TrackedStaysOk(s, g, w, x);
    }
  }

  /** A directory that was not there is not referenced. */
  lemma FreshDirectory(s: State, g: nat, w: WorkerStep, x: nat)
    requires Inv(s) && Enabled(s, Work(g, w)) && x in WorkerAfter(s, g, w).published && x !in s.workers[g].published
    ensures Renames(Work(g, w)) == Some(x) && x !in s.dirs && x !in Refs(s)
  {
    if x in Refs(s) { ReferencedUntouched(s, Work(g, w), x); }
  }

  lemma BystanderStaysOk(s: State, a: Action, g: nat)
    requires Inv(s) && Enabled(s, a) && g in s.workers && g != Actor(s, a)
    ensures g in Apply(s, a).workers && WorkerOk(Apply(s, a), g)
  {
    var s' := Apply(s, a);
    assert WorkerOk(s, g) && s'.workers[g] == s.workers[g];
    forall x | x in s.workers[g].published ensures x !in Refs(s') {
      if x in Refs(s') { NewReference(s, a, x); }
    }
    forall x | x in s.workers[g].published && Owns(s', g) ensures x in s'.dirs {
      if x !in s'.dirs { RemovalIsOwn(s, a, x); }
    }
  }

  lemma StepKeepsWorkers(s: State, a: Action)
    requires Inv(s) && Enabled(s, a)
    ensures WorkersInv(Apply(s, a))
  {
    var s' := Apply(s, a);
    forall g | g in s'.workers ensures WorkerOk(s', g) {
      if g != Actor(s, a) {
        BystanderStaysOk(s, a, g);
      } else if a.Work? {
        ActorStaysOk(s, g, a.step);
      } else {
        NewWorkerOk(s);
      }
    }
  }

  /** The snapshot of references cannot go stale: a lost lease commits nothing any more. */
  lemma LostLeaseCommitsNothing(s: State, a: Action, r: nat, x: nat)
    requires Inv(s) && Enabled(s, a) && r in s.recoveries
    requires x in Refs(Apply(s, a)) && OfLease(x, r - 1)
    ensures x in Refs(s)
  {
    assert RecoveryOk(s, r);
    if x !in Refs(s) { NewReference(s, a, x); }
  }

  lemma RecoveryStaysOk(s: State, a: Action, r: nat)
    requires Inv(s) && Enabled(s, a) && r in s.recoveries
    ensures r in Apply(s, a).recoveries && RecoveryOk(Apply(s, a), r)
  {
    assert RecoveryOk(s, r);
    LeaseGrows(s, a);
    forall x | x in Refs(Apply(s, a)) && OfLease(x, r - 1) ensures x in Refs(s) {
      LostLeaseCommitsNothing(s, a, r, x);
    }
  }

  lemma StepKeepsRecoveries(s: State, a: Action)
    requires Inv(s) && Enabled(s, a)
    ensures RecoveriesInv(Apply(s, a))
  {
    var s' := Apply(s, a);
    forall r | r in s'.recoveries ensures RecoveryOk(s', r) {
      if r in s.recoveries { RecoveryStaysOk(s, a, r); }
    }
  }

  lemma {:induction false} RunKeepsInv(states: seq<State>, actions: seq<Action>, n: nat)
    requires Run(states, actions) && n <= |actions|
    ensures Inv(states[n])
    decreases n
  {
    if n > 0 {
      RunKeepsInv(states, actions, n - 1);
      StepKeepsReferences(states[n - 1], actions[n - 1]);
      StepKeepsWorkers(states[n - 1], actions[n - 1]);
      StepKeepsRecoveries(states[n - 1], actions[n - 1]);
    }
  }

  /** In every run every generation a checkpoint or artifact row names is on disk, and the
      checkpoint names published rows only. */
  lemma CommittedStagesExist(states: seq<State>, actions: seq<Action>, n: nat)
    requires Run(states, actions) && n <= |actions|
    ensures Refs(states[n]) <= states[n].dirs.Keys && Known(states[n].row) <= Refs(states[n])
  {
    RunKeepsInv(states, actions, n);
    forall x | x in Refs(states[n]) ensures x in states[n].dirs {
      var p :| p in states[n].artifacts && states[n].artifacts[p] == x;
    }
  }

  /** A published path keeps its generation, and that generation its contents, until an SVG
      commit replaces the path; a path outside `svg/` keeps them forever. */
  lemma {:induction false} CommittedForever(states: seq<State>, actions: seq<Action>, i: nat, j: nat, p: string)
    requires Run(states, actions) && i <= j <= |actions| && p in states[i].artifacts
    requires SvgPath(p) ==> forall k :: i <= k < j ==> p !in CommittedPaths(actions[k])
    ensures p in states[j].artifacts && states[j].artifacts[p] == states[i].artifacts[p]
    ensures var x := states[i].artifacts[p];
            x in states[i].dirs && x in states[j].dirs && states[j].dirs[x] == states[i].dirs[x]
    decreases j - i
  {
    RunKeepsInv(states, actions, i);
    if i < j {
      CommittedForever(states, actions, i, j - 1, p);
      RunKeepsInv(states, actions, j - 1);
      PlainPathKept(states[j - 1], actions[j - 1], p);
      assert states[j - 1].artifacts[p] in Refs(states[j - 1]);
      ReferencedUntouched(states[j - 1], actions[j - 1], states[i].artifacts[p]);
    }
  }

  /** The PDF checkpoint of a job never moves to another generation, through any number of
      SVG retries. */
  lemma {:induction false} CheckpointForever(states: seq<State>, actions: seq<Action>, i: nat, j: nat)
    requires Run(states, actions) && i <= j <= |actions| && PdfOf(states[i].row).Some?
    ensures PdfOf(states[j].row) == PdfOf(states[i].row)
    decreases j - i
  {
    if i < j {
      CheckpointForever(states, actions, i, j - 1);
      RunKeepsInv(states, actions, j - 1);
      PdfAfter(states[j - 1], actions[j - 1]);
    }
  }

  /** Its files are never replaced or deleted. */
  lemma CheckpointFilesForever(states: seq<State>, actions: seq<Action>, i: nat, j: nat)
    requires Run(states, actions) && i <= j <= |actions| && PdfOf(states[i].row).Some?
    ensures var x := PdfOf(states[i].row).value;
            x in states[i].dirs && x in states[j].dirs && states[j].dirs[x] == states[i].dirs[x]
  {
    RunKeepsInv(states, actions, i);
    PdfPathIsPlain();
    CommittedForever(states, actions, i, j, "result.pdf");
  }

  /** A reference is given up only by an SVG commit of a later lease that takes over each of
      its paths, so only SVG generations are ever superseded. */
  lemma {:induction false} SupersededBySvg(states: seq<State>, actions: seq<Action>, i: nat, j: nat, p: string)
    returns (k: nat)
    requires Run(states, actions) && i <= j <= |actions| && p in states[i].artifacts
    requires states[i].artifacts[p] !in Refs(states[j])
    ensures i <= k < j && CommitsSvg(actions[k]) && p in CommittedPaths(actions[k]) && SvgPath(p)
    ensures states[i].artifacts[p] % 2 == 1
    ensures states[i].artifacts[p] < StorageGeneration(actions[k].g, true)
    decreases j - i
  {
    assert states[i].artifacts[p] in Refs(states[i]);
    if p in CommittedPaths(actions[i]) {
      OlderReference(states, actions, i, p);
      k := i;
    } else {
      PlainPathKept(states[i], actions[i], p);
      k := SupersededBySvg(states, actions, i + 1, j, p);
    }
  }

  /** A path is published again only by an SVG commit, with a newer generation. */
  lemma OlderReference(states: seq<State>, actions: seq<Action>, k: nat, p: string)
    requires Run(states, actions) && k < |actions| && p in states[k].artifacts && p in CommittedPaths(actions[k])
    ensures CommitsSvg(actions[k]) && SvgPath(p) && states[k].artifacts[p] % 2 == 1
    ensures states[k].artifacts[p] < StorageGeneration(actions[k].g, true)
  {
    RunKeepsInv(states, actions, k);
    Replaced(states[k], actions[k], p);
  }

  lemma Replaced(s: State, a: Action, p: string)
    requires Inv(s) && Enabled(s, a) && p in s.artifacts && p in CommittedPaths(a)
    ensures CommitsSvg(a) && SvgPath(p) && s.artifacts[p] % 2 == 1 && s.artifacts[p] < StorageGeneration(a.g, true)
  {
    assert WorkerOk(s, a.g) && PathOk(s, p) && s.artifacts[p] in Refs(s);
  }

  /** Why `transaction` must not report an error after its COMMIT, which
      `notifyWorkerAfterCommit` (deploy/scripts/worker-demand.mjs) makes sure of: a worker
      that aborted between the commit and `published.delete` would remove the generation it
      just made public. */
  lemma ErrorAfterCommitLosesGeneration(s: State, g: nat, paths: set<string>)
    requires Inv(s) && Enabled(s, Work(g, CommitPdf(paths)))
    ensures var committed, x := Apply(s, Work(g, CommitPdf(paths))), StorageGeneration(g, false);
            var aborted := committed.(workers := s.workers[g := WorkerState(Cleaning, s.workers[g].published)]);
            && ReferencesExist(aborted) && Enabled(aborted, Work(g, RemoveOwn(x)))
            && !ReferencesExist(Apply(aborted, Work(g, RemoveOwn(x))))
  {
    var a, x := Work(g, CommitPdf(paths)), StorageGeneration(g, false);
    StepKeepsReferences(s, a);
    assert x in s.workers[g].published by { assert WorkerOk(s, g); }
    var aborted := Apply(s, a).(workers := s.workers[g := WorkerState(Cleaning, s.workers[g].published)]);
    RemovalLoses(aborted, g, x, "result.pdf");
  }

  lemma RemovalLoses(s: State, g: nat, x: nat, p: string)
    requires At(s, g, Cleaning) && x in s.workers[g].published && p in s.artifacts && s.artifacts[p] == x
    ensures Enabled(s, Work(g, RemoveOwn(x))) && !ReferencesExist(Apply(s, Work(g, RemoveOwn(x))))
  {
    var s' := Apply(s, Work(g, RemoveOwn(x)));
    assert p in s'.artifacts && x !in s'.dirs && !PathOk(s', p);
  }

  /** `recordFailure` (failure.ts) uses the bare lease number as a generation.  The only worker
      that can still track, and later remove, a directory of that name is the one of half
      that lease, which has lost the row. */
  lemma FailureGenerationMeetsOneWorker(s: State, g: nat, h: nat)
    requires Inv(s) && Owns(s, g) && h in s.workers && g in s.workers[h].published
    ensures h == g / 2 && h < g && !Owns(s, h)
  {
    assert WorkerOk(s, h);
  }

  /** Generations of rendered previews (`paths` in preview-processor.ts). */
  function PreviewGeneration(sequence: nat, attempt: nat): nat {
    0x100_0000_0000 + sequence * 4 + attempt
  }

  /** Neither two leases, nor two stages, nor two preview attempts ever share a directory,
      and previews keep clear of stages while lease numbers stay below 2^39. */
  lemma GenerationsAreDistinct(g: nat, svg: bool, h: nat, svg': bool,
                               sequence: nat, attempt: nat, sequence': nat, attempt': nat)
    requires 1 <= attempt <= 3 && 1 <= attempt' <= 3
    ensures StorageGeneration(g, svg) == StorageGeneration(h, svg') ==> g == h && svg == svg'
    ensures PreviewGeneration(sequence, attempt) == PreviewGeneration(sequence', attempt') ==>
              sequence == sequence' && attempt == attempt'
    ensures g < 0x80_0000_0000 ==> StorageGeneration(g, svg) != PreviewGeneration(sequence, attempt)
  {
  }
}
