/** The record of a failure before any PDF (`recordFailure` in
    apps/renderer-worker/src/failure.ts).  It publishes a directory named by the bare lease
    number, which is also the name of a stage directory of half that lease. */
module FailureRecords {
  import opened Text
  import opened Wrappers
  import opened StagedPublication

  /** The worker's processing is over and has cleaned up; it still owns the row, nothing but a
      failure can be published, and its directory can be renamed into place. */
  predicate CanRecord(s: State, g: nat, paths: set<string>) {
    && At(s, g, Cleaning) && s.workers[g].published == {}
    && Owns(s, g) && s.row.status in {Validating, Running}
    && PdfOf(s.row) == None && "result.pdf" !in s.artifacts
    && g !in s.dirs && paths !! s.artifacts.Keys && paths != {}
  }

  /** The rename, then the transaction that ends the job. */
  function Recorded(s: State, g: nat, content: nat, paths: set<string>): State {
    s.(dirs := s.dirs[g := content],
       artifacts := Published(s.artifacts, paths, g),
       row := Finished(s.row, Failed))
  }

  /** The record adds its own directory and paths, and ends the job; nothing else changes. */
  lemma RecordedMeans(s: State, g: nat, content: nat, paths: set<string>)
    requires CanRecord(s, g, paths)
    ensures var s' := Recorded(s, g, content, paths);
            && s'.row.status == Failed && s'.row.owner == None && s'.row.lease == s.row.lease
            && g in s'.dirs && s'.dirs[g] == content && s'.dirs - {g} == s.dirs
            && (forall p :: p in s'.artifacts <==> p in s.artifacts || p in paths)
            && (forall p :: p in paths ==> s'.artifacts[p] == g)
            && (forall p :: p in s.artifacts ==> s'.artifacts[p] == s.artifacts[p])
            && s'.workers == s.workers && s'.recoveries == s.recoveries
  {
  }

  /** Some process is still going to remove this directory: a worker that renamed it under an
      earlier lease, or a recovery that has passed its check. */
  ghost predicate Threatened(s: State, g: nat) {
    || (exists h :: h in s.workers && s.workers[h].phase != Dead && g in s.workers[h].published)
    || (exists r :: r in s.recoveries && s.recoveries[r].phase.Pruning? && s.recoveries[r].phase.checked == Some(g))
  }

  /** The job is over for good, and nobody is about to remove the directory. */
  ghost predicate Closed(s: State, g: nat) {
    && s.row.status == Failed && s.row.owner == None && PdfOf(s.row) == None
    && g in s.dirs && !Threatened(s, g)
  }

  lemma WorkerStaysClosed(s: State, g: nat, h: nat, w: WorkerStep)
    requires Closed(s, g) && Enabled(s, Work(h, w))
    ensures RowAfter(s.row, Work(h, w)) == s.row && ArtifactsAfter(s, Work(h, w)) == s.artifacts
    ensures g in DirsAfter(s, Work(h, w)) && DirsAfter(s, Work(h, w))[g] == s.dirs[g]
    ensures WorkerAfter(s, h, w).phase != Dead ==> g !in WorkerAfter(s, h, w).published
  {
  }

  lemma RecoveryStaysClosed(s: State, g: nat, r: nat, v: RecoveryStep)
    requires Closed(s, g) && Enabled(s, Recover(r, v))
    ensures RowAfter(s.row, Recover(r, v)) == s.row
    ensures g in DirsAfter(s, Recover(r, v)) && DirsAfter(s, Recover(r, v))[g] == s.dirs[g]
    ensures var phase := RecoveryAfter(s, r, v); !(phase.Pruning? && phase.checked == Some(g))
  {
  }

  lemma StaysClosed(s: State, g: nat, a: Action)
    requires Closed(s, g) && Enabled(s, a)
    ensures Closed(Apply(s, a), g)
    ensures Apply(s, a).dirs[g] == s.dirs[g] && Apply(s, a).artifacts == s.artifacts
  {
    match a
    case Work(h, w) => WorkerStaysClosed(s, g, h, w);
    case Recover(r, v) => RecoveryStaysClosed(s, g, r, v);
    case _ =>
  }

  lemma {:induction false} ClosedForever(s: State, g: nat, states: seq<State>, actions: seq<Action>, n: nat)
    requires Closed(s, g) && RunFrom(s, states, actions) && n <= |actions|
    ensures Closed(states[n], g) && states[n].dirs[g] == s.dirs[g] && states[n].artifacts == s.artifacts
    decreases n
  {
    if n > 0 {
      ClosedForever(s, g, states, actions, n - 1);
      assert Follows(states[n - 1], actions[n - 1], states[n]);
      StaysClosed(states[n - 1], g, actions[n - 1]);
    }
  }

  /** After the record the directory is there for good, in every run. */
  ghost predicate Kept(s: State, g: nat) {
    && g in s.dirs
    && forall states: seq<State>, actions: seq<Action> :: RunFrom(s, states, actions) ==>
         g in states[|actions|].dirs && states[|actions|].dirs[g] == s.dirs[g]
  }

  lemma WorkerRemoves(s: State, h: nat, g: nat)
    requires h in s.workers && s.workers[h].phase != Dead && g in s.workers[h].published
    ensures !Kept(s, g)
  {
    var actions := [Work(h, Abort), Work(h, RemoveOwn(g))];
    var aborted := Apply(s, actions[0]);
    var states := [s, aborted, Apply(aborted, actions[1])];
    assert RunFrom(s, states, actions);
    assert g !in states[|actions|].dirs;
  }

  lemma RecoveryRemoves(s: State, r: nat, g: nat)
    requires r in s.recoveries && s.recoveries[r].phase.Pruning? && s.recoveries[r].phase.checked == Some(g)
    ensures !Kept(s, g)
  {
    var actions := [Recover(r, PruneRemove)];
    var states := [s, Apply(s, actions[0])];
    assert RunFrom(s, states, actions);
    assert g !in states[|actions|].dirs;
  }

  /** A recorded failure keeps its files in every run exactly when, at the record, nobody is
      about to remove a directory of that name. */
  lemma RecordKeptExactlyWhen(s: State, g: nat, content: nat, paths: set<string>)
    requires CanRecord(s, g, paths)
    ensures Kept(Recorded(s, g, content, paths), g) <==> !Threatened(s, g)
  {
    var s' := Recorded(s, g, content, paths);
    if !Threatened(s, g) {
      assert Closed(s', g);
      forall states: seq<State>, actions: seq<Action> | RunFrom(s', states, actions)
        ensures g in states[|actions|].dirs && states[|actions|].dirs[g] == s'.dirs[g]
      {
        ClosedForever(s', g, states, actions, |actions|);
      }
    } else if h :| h in s.workers && s.workers[h].phase != Dead && g in s.workers[h].published {
      WorkerRemoves(s', h, g);
    } else {
      var r :| r in s.recoveries && s.recoveries[r].phase.Pruning? && s.recoveries[r].phase.checked == Some(g);
      RecoveryRemoves(s', r, g);
    }
  }

  /** Whoever threatens it has lost the row: the worker of half the lease, or the recovery
      that took over from it. */
  lemma ThreatIsHalfTheLease(s: State, g: nat)
    requires Inv(s) && Owns(s, g)
    ensures forall h :: h in s.workers && g in s.workers[h].published ==> h == g / 2 && h < g && !Owns(s, h)
    ensures forall r ::
              r in s.recoveries && s.recoveries[r].phase.Pruning? && s.recoveries[r].phase.checked == Some(g) ==>
                s.recoveries[r].lost == g / 2
  {
    forall h | h in s.workers && g in s.workers[h].published ensures h == g / 2 && h < g && !Owns(s, h) {
      FailureGenerationMeetsOneWorker(s, g, h);
    }
    forall r | r in s.recoveries && s.recoveries[r].phase.Pruning? && s.recoveries[r].phase.checked == Some(g)
      ensures s.recoveries[r].lost == g / 2
    {
      assert RecoveryOk(s, r);
    }
  }

  function Stage(status: StageStatus): Option<Stages> {
    Some(Stages(status, Waiting, None, None, 1))
  }

  ghost predicate Reachable(s: State) {
    exists states: seq<State>, actions: seq<Action> :: Run(states, actions) && states[|actions|] == s
  }

  lemma Then(s: State, a: Action, s': State)
    requires Reachable(s) && Enabled(s, a) && Apply(s, a) == s'
    ensures Reachable(s')
  {
    var states: seq<State>, actions: seq<Action> :| Run(states, actions) && states[|actions|] == s;
    var next, done := states + [s'], actions + [a];
    assert Run(next, done) && next[|done|] == s';
  }

  function At1(status: Status, owner: Option<Owner>, lease: nat, recovery: map<nat, RecoveryState>): State {
    State(Row(status, false, owner, lease, None), map[], map[], map[1 := WorkerState(Starting, {})], recovery)
  }

  /** Lease 1 expires at once, and recovery 2 queues the job again. */
  lemma QueuedAgain()
    ensures Reachable(At1(Queued, None, 2, map[2 := RecoveryState(1, Ended)]))
  {
    var states: seq<State>, actions: seq<Action> := [START], [];
    assert Run(states, actions) && states[|actions|] == START;
    var claimed := At1(Validating, Some(Worker), 1, map[]);
    var expired := At1(Validating, Some(Recovery), 2, map[2 := RecoveryState(1, Claimed)]);
    Then(START, Claim, claimed);
    Then(claimed, ClaimExpired, expired);
    Then(expired, Recover(2, RecoverQueued), At1(Queued, None, 2, map[2 := RecoveryState(1, Ended)]));
  }

  /** The worker of lease 3 on its way. */
  function At3(status: Status, phase: WorkerPhase, pdf: Option<StageStatus>, renamed: bool): State {
    State(Row(status, false, Some(Worker), 3, if pdf == None then None else Stage(pdf.value)),
          map[], if renamed then map[6 := 0] else map[],
          map[1 := WorkerState(Starting, {}), 3 := WorkerState(phase, if renamed then {6} else {})],
          map[2 := RecoveryState(1, Ended)])
  }

  lemma ClaimedThree()
    ensures Reachable(At3(Validating, Prepared, Some(Waiting), false))
  {
    QueuedAgain();
    Then(At1(Queued, None, 2, map[2 := RecoveryState(1, Ended)]), Claim, At3(Validating, Starting, None, false));
    Then(At3(Validating, Starting, None, false), Work(3, Initialize), At3(Validating, Prepared, Some(Waiting), false));
  }

  lemma RunningThree()
    ensures Reachable(At3(Running, Ready, Some(Waiting), false))
  {
    ClaimedThree();
    Then(At3(Validating, Prepared, Some(Waiting), false), Work(3, StartRun), At3(Running, Ready, Some(Waiting), false));
  }

  lemma RenderingThree()
    ensures Reachable(At3(Running, Rendering, Some(Active), false))
  {
    RunningThree();
    Then(At3(Running, Ready, Some(Waiting), false), Work(3, StartPdf), At3(Running, Rendering, Some(Active), false));
  }

  /** It renames its PDF directory, number 6. */
  lemma RenamedSix()
    ensures Reachable(At3(Running, PdfRenamed, Some(Active), true))
  {
    RenderingThree();
    var checked := At3(Running, PdfChecked, Some(Active), false);
    Then(At3(Running, Rendering, Some(Active), false), Work(3, CheckPdf), checked);
    assert WorkerAfter(checked, 3, RenamePdf(0)) == WorkerState(PdfRenamed, {6});
    Then(checked, Work(3, RenamePdf(0)), At3(Running, PdfRenamed, Some(Active), true));
  }

  /** The worker of lease 3 stalls after its rename. */
  function Stalled(row: Row, dirs: map<nat, nat>, later: map<nat, WorkerState>,
                   recoveries: map<nat, RecoveryState>): State {
    State(row, map[], dirs, map[1 := WorkerState(Starting, {}), 3 := WorkerState(PdfRenamed, {6})] + later,
          map[2 := RecoveryState(1, Ended)] + recoveries)
  }

  function Row4(): Row {
    Row(Running, false, Some(Recovery), 4, Stage(Active))
  }

  function Taken(phase: RecoveryPhase, dirs: map<nat, nat>): State {
    Stalled(Row4(), dirs, map[], map[4 := RecoveryState(3, phase)])
  }

  lemma TakenOver()
    ensures Reachable(Taken(CheckpointRead({}), map[6 := 0]))
  {
    RenamedSix();
    var claimed := Taken(Claimed, map[6 := 0]);
    Then(At3(Running, PdfRenamed, Some(Active), true), ClaimExpired, claimed);
    assert Known(claimed.row) == {};
    Then(claimed, Recover(4, ReadCheckpoint), Taken(CheckpointRead({}), map[6 := 0]));
  }

  lemma Snapshotted()
    ensures Reachable(Taken(Pruning({}, None), map[6 := 0]))
  {
    TakenOver();
    var read := Taken(CheckpointRead({}), map[6 := 0]);
    assert Refs(read) + {} == {};
    Then(read, Recover(4, Snapshot), Taken(Pruning({}, None), map[6 := 0]));
  }

  /** Recovery 4 takes over and removes the directory. */
  lemma PrunedSix()
    ensures Reachable(Taken(Pruning({}, None), map[]))
  {
    Snapshotted();
    var checked := Taken(Pruning({}, Some(6)), map[6 := 0]);
    Then(Taken(Pruning({}, None), map[6 := 0]), Recover(4, PruneCheck(6)), checked);
    Then(checked, Recover(4, PruneRemove), Taken(Pruning({}, None), map[]));
  }

  function Late(row: Row, later: map<nat, WorkerState>, phase: RecoveryPhase): State {
    Stalled(row, map[], later, map[4 := RecoveryState(3, Ended), 5 := RecoveryState(4, phase)])
  }

  function FailingSix(): State {
    Late(Row(Validating, false, Some(Worker), 6, Stage(Waiting)), map[6 := WorkerState(Cleaning, {})], Ended)
  }

  lemma TakenAgain()
    ensures Reachable(Late(Row4().(lease := 5), map[], Claimed))
  {
    PrunedSix();
    Then(Taken(Pruning({}, None), map[]), Recover(4, Vanish), Taken(Ended, map[]));
    Then(Taken(Ended, map[]), ClaimExpired, Late(Row4().(lease := 5), map[], Claimed));
  }

  lemma QueuedAtFive()
    ensures Reachable(Late(Row(Queued, false, None, 5, Stage(Waiting)), map[], Ended))
  {
    TakenAgain();
    var queued := Late(Row(Queued, false, None, 5, Stage(Waiting)), map[], Ended);
    Then(Late(Row4().(lease := 5), map[], Claimed), Recover(5, RecoverQueued), queued);
  }

  lemma ClaimedSix()
    ensures Reachable(Late(FailingSix().row, map[6 := WorkerState(Starting, {})], Ended))
  {
    QueuedAtFive();
    var claimed := Late(FailingSix().row, map[6 := WorkerState(Starting, {})], Ended);
    Then(Late(Row(Queued, false, None, 5, Stage(Waiting)), map[], Ended), Claim, claimed);
  }

  /** It dies, recovery 5 queues the job again, and lease 6 fails before any PDF. */
  lemma FailingSixIsReachable()
    ensures Reachable(FailingSix())
  {
    ClaimedSix();
    var claimed := Late(FailingSix().row, map[6 := WorkerState(Starting, {})], Ended);
    Then(claimed, Work(6, Abort), FailingSix());
  }

  /** So the files of a recorded failure can be lost: the stalled worker of lease 3 wakes up
      and cleans away directory 6, which the failure of lease 6 has published meanwhile. */
  lemma RecordedFailureCanBeLost(content: nat)
    ensures Reachable(FailingSix()) && CanRecord(FailingSix(), 6, {"compile.log"})
    ensures !Kept(Recorded(FailingSix(), 6, content, {"compile.log"}), 6)
  {
    FailingSixIsReachable();
    var s := FailingSix();
    assert 3 in s.workers && s.workers[3].phase == PdfRenamed && 6 in s.workers[3].published;
    RecordKeptExactlyWhen(s, 6, content, {"compile.log"});
  }
}
