/** Whole runs of the TeX Live mirror: any sequence of management-lock sections of
    deploy/texlive-mirror/texlive_mirror.py, each of which may be cut short by a death. */
module MirrorRuns {
  import opened Wrappers
  import opened SnapshotNames
  import opened MirrorState
  import opened Mirror

  datatype Operation =
    | Recovering(at: int, syncRunning: bool)
    | Collecting(at: int, pressure: bool, onTarget: bool)
    | Reserving(at: int, snapshot: Option<SnapshotId>, date: Option<Date>, owner: string, architecture: string)
    | Releasing(at: int, token: Token, owner: string)
    | Beginning(at: int, id: SnapshotId, run: string)
    | Refreshing(at: int, id: SnapshotId, canonical: Date, run: string)
    | Publishing(at: int, id: SnapshotId, canonical: Date, architectures: set<string>, run: string)
    | Abandoning(at: int, run: string)
    | Opening(at: int, run: string)
    | Closing(at: int, run: string)

  /** Syncs work on names and dates of the active year (`make_snapshot_id`,
      `verified_metadata`) and their own clock does not run backwards.  Sections of a
      collection may work with an older time than the sections before them. */
  ghost predicate Sound(cfg: Config, ops: seq<Operation>) {
    && (forall i, j :: 0 <= i < j < |ops| && ops[i].Publishing? && ops[j].Refreshing? ==> ops[i].at <= ops[j].at)
    && (forall i :: 0 <= i < |ops| && (ops[i].Refreshing? || ops[i].Publishing?) ==>
          ops[i].id.year == cfg.activeYear && ops[i].canonical.year == cfg.activeYear)
  }

  /** Everything a section leaves behind that another one reads. */
  datatype View = View(saved: State, dirs: map<SnapshotId, Manifest>, leases: map<Token, Lease>)

  predicate Releases(op: Operation, l: Lease) {
    op.Releasing? && op.token == l.token && op.owner == l.owner
  }

  /** An unexpired lease stays as it is unless its owner gives it back. */
  ghost predicate LeasesKept(before: map<Token, Lease>, after: map<Token, Lease>, op: Operation) {
    forall t :: t in before && op.at < before[t].expiresAt && before[t].token == t && !Releases(op, before[t]) ==>
      t in after && after[t] == before[t]
  }

  /** A new lease runs for the configured time from now, and replaces no unexpired one. */
  ghost predicate LeasesIssued(cfg: Config, before: map<Token, Lease>, after: map<Token, Lease>, op: Operation) {
    forall t :: t in after && !(t in before && after[t] == before[t]) ==>
      && op.Reserving? && after[t].createdAt == op.at && after[t].expiresAt == op.at + cfg.reservationTtl
      && (t in before ==> before[t].expiresAt <= op.at)
  }

  predicate Concerns(op: Operation, run: string) {
    (op.Beginning? || op.Refreshing? || op.Publishing? || op.Abandoning?) && op.run == run
  }

  /** An unexpired protection stays as it is until its own run acts again. */
  ghost predicate ProtectionsKept(before: map<string, Protection>, after: map<string, Protection>, op: Operation) {
    forall run :: run in before && op.at < before[run].expiresAt && !Concerns(op, run) ==>
      run in after && after[run] == before[run]
  }

  /** One section, completed or not. */
  ghost predicate Step(cfg: Config, v: View, op: Operation, v': View) {
    && Consistent(cfg, v'.saved, v'.dirs, v'.leases)
    && LeasesKept(v.leases, v'.leases, op) && LeasesIssued(cfg, v.leases, v'.leases, op)
    && ProtectionsKept(v.saved.protections, v'.saved.protections, op)
    && (forall id :: id in v.dirs && id !in v'.dirs ==> !Protected(cfg, v.saved, v.leases, op.at, id))
    && (forall id :: id in v.dirs && id in v'.dirs ==> v'.dirs[id] == v.dirs[id])
    && (op.Reserving? && |LiveIds(v.leases, op.at)| <= cfg.maxReserved ==>
         |LiveIds(v'.leases, op.at)| <= cfg.maxReserved)
  }

  ghost predicate AgesKept(v: View, op: Operation, v': View) {
    forall t :: AgesWithin(v.saved, v.dirs, t) && (op.Publishing? ==> op.at <= t) ==> AgesWithin(v'.saved, v'.dirs, t)
  }

  ghost predicate Steps(cfg: Config, views: seq<View>, ops: seq<Operation>) {
    && |views| == |ops| + 1
    && Consistent(cfg, views[0].saved, views[0].dirs, views[0].leases)
    && forall k :: 0 <= k < |ops| ==> Step(cfg, views[k], ops[k], views[k + 1])
  }

  lemma LeaseSurvives(cfg: Config, v: View, op: Operation, v': View, t: Token)
    requires Consistent(cfg, v.saved, v.dirs, v.leases) && Step(cfg, v, op, v')
    requires t in v.leases && op.at < v.leases[t].expiresAt && !Releases(op, v.leases[t])
    ensures t in v'.leases && v'.leases[t] == v.leases[t]
    ensures var id := v.leases[t].snapshotId;
            id in v.dirs && id in v'.dirs && v'.dirs[id] == v.dirs[id] && IsPublished(v'.saved, id)
  {
    assert IsPublished(v'.saved, v.leases[t].snapshotId);
  }

  /** A lease, once taken, holds: until it expires or its owner releases it nothing changes
      it, and its snapshot stays published and on disk, whatever else runs or dies. */
  lemma {:induction false} LeaseHolds(cfg: Config, views: seq<View>, ops: seq<Operation>, i: nat, j: nat, t: Token)
    requires Steps(cfg, views, ops) && i <= j <= |ops| && t in views[i].leases
    requires forall k :: i <= k < j ==>
               ops[k].at < views[i].leases[t].expiresAt && !Releases(ops[k], views[i].leases[t])
    ensures t in views[j].leases && views[j].leases[t] == views[i].leases[t]
    ensures var id := views[i].leases[t].snapshotId;
            && id in views[i].dirs && id in views[j].dirs && views[j].dirs[id] == views[i].dirs[id]
            && IsPublished(views[j].saved, id)
    decreases j - i
  {
    if i < j {
      LeaseHolds(cfg, views, ops, i, j - 1, t);
      ConsistentAt(cfg, views, ops, j - 1);
      LeaseSurvives(cfg, views[j - 1], ops[j - 1], views[j], t);
    } else {
      ConsistentAt(cfg, views, ops, i);
    }
  }

  /** The snapshot a running sync reads from stays as long as its protection. */
  lemma {:induction false} ProtectionHolds(cfg: Config, views: seq<View>, ops: seq<Operation>, i: nat, j: nat,
                                           run: string)
    requires Steps(cfg, views, ops) && i <= j <= |ops| && run in views[i].saved.protections
    requires forall k :: i <= k < j ==> ops[k].at < views[i].saved.protections[run].expiresAt && !Concerns(ops[k], run)
    ensures run in views[j].saved.protections && views[j].saved.protections[run] == views[i].saved.protections[run]
    ensures var id := views[i].saved.protections[run].snapshotId;
            id in views[j].dirs && IsPublished(views[j].saved, id)
    decreases j - i
  {
    if i < j {
      ProtectionHolds(cfg, views, ops, i, j - 1, run);
      assert Step(cfg, views[j - 1], ops[j - 1], views[j]);
    } else {
      ConsistentAt(cfg, views, ops, i);
    }
  }

  lemma ConsistentAt(cfg: Config, views: seq<View>, ops: seq<Operation>, k: nat)
    requires Steps(cfg, views, ops) && k <= |ops|
    ensures Consistent(cfg, views[k].saved, views[k].dirs, views[k].leases)
  {
    if k > 0 { assert Step(cfg, views[k - 1], ops[k - 1], views[k]); }
  }

  /** In every run every lease was issued by some section for exactly the configured time:
      repeating an acquisition never extended it. */
  lemma {:induction false} LeasesEndOnTime(cfg: Config, views: seq<View>, ops: seq<Operation>, n: nat, t: Token)
    requires Steps(cfg, views, ops) && views[0].leases == map[] && n <= |ops| && t in views[n].leases
    ensures var l := views[n].leases[t];
            && l.expiresAt == l.createdAt + cfg.reservationTtl
            && exists k :: 0 <= k < n && ops[k].Reserving? && ops[k].at == l.createdAt
    decreases n
  {
    assert Step(cfg, views[n - 1], ops[n - 1], views[n]);
    if t in views[n - 1].leases && views[n].leases[t] == views[n - 1].leases[t] {
      LeasesEndOnTime(cfg, views, ops, n - 1, t);
    }
  }

  /** In every run live leases never name more snapshots than configured. */
  lemma {:induction false} ReservationsBounded(cfg: Config, views: seq<View>, ops: seq<Operation>, n: nat, now: int)
    requires Steps(cfg, views, ops) && views[0].leases == map[] && n <= |ops|
    requires forall i, j :: 0 <= i < j < n && ops[i].Reserving? && ops[j].Reserving? ==> ops[i].at <= ops[j].at
    requires forall i :: 0 <= i < n && ops[i].Reserving? ==> ops[i].at <= now
    ensures |LiveIds(views[n].leases, now)| <= cfg.maxReserved
    decreases n
  {
    if n == 0 {
      assert LiveIds(views[0].leases, now) == {};
    } else if ops[n - 1].Reserving? {
      ReservationsBounded(cfg, views, ops, n - 1, ops[n - 1].at);
      assert Step(cfg, views[n - 1], ops[n - 1], views[n]);
      StillBounded(views[n].leases, ops[n - 1].at, now, cfg.maxReserved);
    } else {
      ReservationsBounded(cfg, views, ops, n - 1, now);
      NoneIssued(cfg, views[n - 1], ops[n - 1], views[n], now);
    }
  }

  lemma NoneIssued(cfg: Config, v: View, op: Operation, v': View, now: int)
    requires Step(cfg, v, op, v') && !op.Reserving?
    ensures |LiveIds(v'.leases, now)| <= |LiveIds(v.leases, now)|
  {
    forall t | t in v'.leases ensures t in v.leases && v'.leases[t] == v.leases[t] { }
    FewerIds(LiveIds(v'.leases, now), LiveIds(v.leases, now));
  }

  lemma StillBounded(leases: map<Token, Lease>, now: int, later: int, bound: nat)
    requires now <= later && |LiveIds(leases, now)| <= bound
    ensures |LiveIds(leases, later)| <= bound
  {
    LiveIdsShrink(leases, now, later);
    FewerIds(LiveIds(leases, later), LiveIds(leases, now));
  }

  /** Unless a process dies, no directory below `staging/` is without its marker. */
  ghost predicate MarkersKept(m: Store, before: map<string, Option<Marker>>)
    reads m
  {
    (forall k: nat :: m.fate(k)) && AllMarked(before) ==> AllMarked(m.staging)
  }

  ghost function ViewOf(m: Store): View
    reads m
  {
    View(m.saved, m.dirs, m.leases)
  }

  /** Runs the sections one after another; `views` is the run. */
  method PerformAll(m: Store, ops: seq<Operation>) returns (ghost views: seq<View>)
    requires m.Valid() && m.saved == State(None, map[], map[]) && m.dirs == map[] && Sound(m.config, ops)
    modifies m
    ensures m.Valid() && Steps(m.config, views, ops) && views[0] == old(ViewOf(m)) && views[|ops|] == ViewOf(m)
    ensures MarkersKept(m, old(m.staging))
  {
    views := [ViewOf(m)];
    for i := 0 to |ops|
      invariant m.Valid()
      invariant MarkersKept(m, old(m.staging))
      invariant forall j :: i <= j < |ops| && ops[j].Refreshing? ==> AgesWithin(m.saved, m.dirs, ops[j].at)
      invariant Steps(m.config, views, ops[..i]) && views[i] == ViewOf(m) && views[0] == old(ViewOf(m))
    {
      Perform(m, ops[i]);
      AnotherStep(m.config, views, ops, i, ViewOf(m));
      views := views + [ViewOf(m)];
    }
    assert ops[..|ops|] == ops;
  }

  /** After every run from empty stores, whoever died where: the state file loads, and
      reconciliation succeeds on it unless it is itself interrupted. */
  method Operate(m: Store, ops: seq<Operation>) returns (final: Result<State, Stop>, ghost views: seq<View>)
    requires m.Valid() && m.saved == State(None, map[], map[]) && m.dirs == map[] && m.leases == map[]
    requires Sound(m.config, ops)
    modifies m
    ensures m.Valid() && LoadOk(m.config, m.saved)
    ensures Steps(m.config, views, ops) && views[0] == old(ViewOf(m)) && views[|ops|] == ViewOf(m)
    ensures final != Err(Rejected)
    ensures MarkersKept(m, old(m.staging))
    ensures final.Ok? ==>
              && Consistent(m.config, final.value, m.dirs, m.leases)
              && final.value.snapshots.Keys == m.dirs.Keys
              && (forall id :: id in m.dirs ==> IsPublished(final.value, id))
              && ((exists id :: id in m.dirs && id.year == m.config.activeYear) ==>
                    final.value.latest.Some? && IsActive(m.config, final.value, final.value.latest.value))
  {
    views := PerformAll(m, ops);
    final := m.ReconcileState(m.saved);
    if final.Ok? {
      ReconcileRestores(m.config, m.saved, m.dirs, m.leases, final.value);
    }
  }

  lemma AnotherStep(cfg: Config, views: seq<View>, ops: seq<Operation>, i: nat, v: View)
    requires i < |ops| && Steps(cfg, views, ops[..i]) && Step(cfg, views[i], ops[i], v)
    ensures Steps(cfg, views + [v], ops[..i + 1]) && (views + [v])[0] == views[0] && (views + [v])[i + 1] == v
  {
    var next := views + [v];
    forall k | 0 <= k <= i ensures Step(cfg, next[k], ops[k], next[k + 1]) {
      if k < i { assert Step(cfg, views[k], ops[..i][k], views[k + 1]); }
    }
  }

  lemma AcquiredLeases(cfg: Config, before: map<Token, Lease>, after: map<Token, Lease>, token: Token, op: Operation)
    requires op.Reserving? && token in after && Purged(before - {token}, after - {token}, op.at)
    requires if token in before && op.at < before[token].expiresAt then after[token] == before[token]
             else after[token].createdAt == op.at && after[token].expiresAt == op.at + cfg.reservationTtl
    ensures LeasesKept(before, after, op) && LeasesIssued(cfg, before, after, op)
  {
    forall t | t in before && op.at < before[t].expiresAt ensures t in after && after[t] == before[t] {
      if t != token { assert t in before - {token}; }
    }
    forall t | t in after && t != token ensures t in before && after[t] == before[t] {
      assert t in after - {token};
    }
  }

  lemma OtherProtectionsKept(before: map<string, Protection>, after: map<string, Protection>, op: Operation)
    requires op.Beginning? && after - {op.run} == before - {op.run}
    ensures ProtectionsKept(before, after, op)
  {
    forall run | run in before && run != op.run ensures run in after && after[run] == before[run] {
      assert run in before - {op.run};
    }
  }

  method Maintain(m: Store, op: Operation)
    requires m.Valid() && (op.Recovering? || op.Collecting?)
    modifies m
    ensures m.Valid() && Step(m.config, old(ViewOf(m)), op, ViewOf(m)) && AgesKept(old(ViewOf(m)), op, ViewOf(m))
    ensures MarkersKept(m, old(m.staging))
  {
    match op
    case Recovering(at, syncRunning) =>
      var _ := m.RecoverSection(at, syncRunning);
      RecoveredAges(m.config, old(ViewOf(m)), op, ViewOf(m));
    case Collecting(at, pressure, onTarget) => var _, _, _ := m.CollectOne(at, pressure, onTarget);
  }

  /** Sections that touch the staging directory only. */
  method Stage(m: Store, op: Operation)
    requires m.Valid() && (op.Opening? || op.Closing?)
    modifies m
    ensures m.Valid() && ViewOf(m) == old(ViewOf(m)) && MarkersKept(m, old(m.staging))
  {
    match op
    case Opening(at, run) => var _ := m.OpenStaging(run, at);
    case Closing(_, run) => var _ := m.CloseStaging(run);
  }

  method Lend(m: Store, op: Operation)
    requires m.Valid() && (op.Reserving? || op.Releasing?)
    modifies m
    ensures m.Valid() && Step(m.config, old(ViewOf(m)), op, ViewOf(m)) && AgesKept(old(ViewOf(m)), op, ViewOf(m))
    ensures MarkersKept(m, old(m.staging))
  {
    match op
    case Reserving(at, snapshot, date, owner, architecture) =>
      var r := m.Reserve(snapshot, date, owner, architecture, at);
      if r.Ok? { AcquiredLeases(m.config, old(m.leases), m.leases, r.value.token, op); }
    case Releasing(at, token, owner) =>
      var _ := m.ReleaseLease(token, owner);
  }

  method Protect(m: Store, op: Operation)
    requires m.Valid() && (op.Beginning? || op.Abandoning?)
    modifies m
    ensures m.Valid() && Step(m.config, old(ViewOf(m)), op, ViewOf(m)) && AgesKept(old(ViewOf(m)), op, ViewOf(m))
    ensures MarkersKept(m, old(m.staging))
  {
    match op
    case Beginning(at, id, run) =>
      var _ := m.BeginSync(id, run, at);
      OtherProtectionsKept(old(m.saved).protections, m.saved.protections, op);
    case Abandoning(_, run) => var _ := m.AbandonSync(run);
  }

  method Finish(m: Store, op: Operation)
    requires m.Valid() && (op.Refreshing? || op.Publishing?) && (op.Refreshing? ==> AgesWithin(m.saved, m.dirs, op.at))
    requires op.id.year == m.config.activeYear && op.canonical.year == m.config.activeYear
    modifies m
    ensures m.Valid() && Step(m.config, old(ViewOf(m)), op, ViewOf(m)) && AgesKept(old(ViewOf(m)), op, ViewOf(m))
    ensures MarkersKept(m, old(m.staging))
  {
    match op
    case Refreshing(at, id, date, run) => var _ := m.FinishUnchanged(id, date, run, at);
    case Publishing(at, id, date, architectures, run) => var _ := m.Publish(id, date, architectures, run, at);
  }

  method Perform(m: Store, op: Operation)
    requires m.Valid() && (op.Refreshing? ==> AgesWithin(m.saved, m.dirs, op.at))
    requires op.Refreshing? || op.Publishing? ==>
               op.id.year == m.config.activeYear && op.canonical.year == m.config.activeYear
    modifies m
    ensures m.Valid() && Step(m.config, old(ViewOf(m)), op, ViewOf(m)) && AgesKept(old(ViewOf(m)), op, ViewOf(m))
    ensures MarkersKept(m, old(m.staging))
  {
    if op.Recovering? || op.Collecting? { Maintain(m, op); }
    else if op.Reserving? || op.Releasing? { Lend(m, op); }
    else if op.Beginning? || op.Abandoning? { Protect(m, op); }
    else if op.Opening? || op.Closing? { Stage(m, op); }
    else { Finish(m, op); }
  }

  lemma RecoveredAges(cfg: Config, v: View, op: Operation, v': View)
    requires v'.dirs == v.dirs && (v'.saved == v.saved || Reconciles(cfg, v.saved, v.dirs, v'.saved))
    ensures AgesKept(v, op, v')
  {
    forall t | AgesWithin(v.saved, v.dirs, t) ensures AgesWithin(v'.saved, v'.dirs, t) {
      if v'.saved != v.saved { AgesOfReconciled(cfg, v.saved, v.dirs, v'.saved, t); }
    }
  }
}
