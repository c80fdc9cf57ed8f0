/** The two stores of the TeX Live mirror, `state/state.json` and `snapshots/`, and what
    `load_state` and `reconcile_state` say about them
    (deploy/texlive-mirror/texlive_mirror.py).  Times are seconds. */
module MirrorState {
  import opened Wrappers
  import opened SnapshotNames

  datatype Config = Config(
    activeYear: int,
    architectures: set<string>,
    keepGenerations: nat,
    keepHours: nat,
    syncTimeout: nat,
    reservationTtl: nat,
    maxReserved: nat)

  /** What `Config.load` guarantees about the fields used here. */
  predicate ValidConfig(cfg: Config) {
    && 1 <= cfg.keepGenerations && 1 <= cfg.keepHours && 60 <= cfg.syncTimeout
    && 3600 <= cfg.reservationTtl <= 8 * 3600 && 1 <= cfg.maxReserved
  }

  datatype Date = Date(year: int, day: nat)

  datatype Status = Published | Deleting

  datatype Record = Record(
    publishedAt: int,
    lastVerifiedAt: Option<int>,
    status: Status,
    canonicalDate: Date,
    canonicalDates: set<Date>)

  datatype Protection = Protection(snapshotId: SnapshotId, createdAt: int, expiresAt: int)

  /** The contents of `state.json`. */
  datatype State = State(
    latest: Option<SnapshotId>,
    snapshots: map<SnapshotId, Record>,
    protections: map<string, Protection>)

  /** `.snapshot.json` of a snapshot directory; `intact` says whether every listed file
      and alias still verifies. */
  datatype Manifest = Manifest(
    snapshotId: SnapshotId,
    year: int,
    publishedAt: int,
    canonicalDate: Date,
    architectures: set<string>,
    intact: bool)

  /** `reservation_token`: a hash of these three, taken as injective. */
  datatype Token = Token(owner: string, architecture: string, snapshotId: SnapshotId)

  datatype Lease = Lease(
    token: Token,
    snapshotId: SnapshotId,
    owner: string,
    architecture: string,
    createdAt: int,
    expiresAt: int)

  predicate RecordOk(id: SnapshotId, r: Record) {
    && (r.lastVerifiedAt.Some? ==> r.publishedAt <= r.lastVerifiedAt.value)
    && r.canonicalDate in r.canonicalDates
    && forall d :: d in r.canonicalDates ==> d.year == id.year
  }

  predicate IsPublished(st: State, id: SnapshotId) {
    id in st.snapshots && st.snapshots[id].status == Published
  }

  predicate IsActive(cfg: Config, st: State, id: SnapshotId) {
    IsPublished(st, id) && id.year == cfg.activeYear
  }

  /** `load_state` accepts the file. */
  predicate LoadOk(cfg: Config, st: State) {
    && (forall id :: id in st.snapshots ==> RecordOk(id, st.snapshots[id]))
    && (forall run :: run in st.protections ==>
          && st.protections[run].createdAt < st.protections[run].expiresAt
          && IsPublished(st, st.protections[run].snapshotId))
    && (st.latest.Some? ==> IsPublished(st, st.latest.value))
    && (forall id :: id in st.snapshots && IsActive(cfg, st, id) ==>
         st.latest.Some? && IsActive(cfg, st, st.latest.value))
  }

  /** What `load_state` asks of the file, written out: every record was verified no earlier than
      published and its dates, its own among them, are of the year in its name; every
      protection lasts and names a published snapshot, and so does the latest pointer, which
      names one of the active year if there is any. */
  lemma LoadOkMeans(cfg: Config, st: State)
    ensures LoadOk(cfg, st) <==>
            && (forall id :: id in st.snapshots ==>
                  var r := st.snapshots[id];
                  && (r.lastVerifiedAt == None || r.publishedAt <= r.lastVerifiedAt.value)
                  && r.canonicalDate.year == id.year && r.canonicalDate in r.canonicalDates
                  && forall d :: d in r.canonicalDates ==> d.year == id.year)
            && (forall run :: run in st.protections ==>
                  var p := st.protections[run];
                  p.createdAt < p.expiresAt && p.snapshotId in st.snapshots
                  && st.snapshots[p.snapshotId].status == Published)
            && (st.latest.Some? ==>
                  st.latest.value in st.snapshots && st.snapshots[st.latest.value].status == Published)
            && ((exists id :: id in st.snapshots && st.snapshots[id].status == Published && id.year == cfg.activeYear)
                  ==> st.latest.Some? && st.latest.value.year == cfg.activeYear)
  {
    forall id | id in st.snapshots ensures st.snapshots[id].status == Published <==> IsPublished(st, id) { }
  }

  /** A directory without a record that `reconcile_state` takes over. */
  predicate Adoptable(id: SnapshotId, m: Manifest) {
    m.snapshotId == id && m.intact && m.year == id.year && m.canonicalDate.year == id.year
  }

  lemma AdoptableMeans(id: SnapshotId, m: Manifest)
    ensures !Adoptable(id, m) <==>
            m.snapshotId != id || !m.intact || m.year != id.year || m.canonicalDate.year != id.year
  {
  }

  function Adopted(m: Manifest): Record {
    Record(m.publishedAt, None, Published, m.canonicalDate, {m.canonicalDate})
  }

  /** The invariant of the two stores and the lease files at rest, whoever died where. */
  ghost predicate Consistent(cfg: Config, st: State, dirs: map<SnapshotId, Manifest>, leases: map<Token, Lease>) {
    && LoadOk(cfg, st)
    && (forall id :: IsPublished(st, id) ==> id in dirs)
    && (forall id :: id in dirs && id !in st.snapshots ==> Adoptable(id, dirs[id]))
    && (forall t :: t in leases ==> LeaseOk(t, leases[t]) && IsPublished(st, leases[t].snapshotId))
  }

  predicate LeaseOk(t: Token, l: Lease) {
    && l.token == t && t == Token(l.owner, l.architecture, l.snapshotId)
    && l.createdAt < l.expiresAt <= l.createdAt + 8 * 3600
  }

  function ReconciledSnapshots(st: State, dirs: map<SnapshotId, Manifest>): map<SnapshotId, Record> {
    map id | id in dirs :: if id in st.snapshots then st.snapshots[id].(status := Published) else Adopted(dirs[id])
  }

  /** What `reconcile_state` makes of a loaded state: records and directories agree. */
  ghost predicate Reconciles(cfg: Config, st: State, dirs: map<SnapshotId, Manifest>, st': State) {
    && st'.protections == st.protections
    && st'.snapshots == ReconciledSnapshots(st, dirs)
    && (if NeedsLatest(cfg, st'.snapshots, st.latest) then st'.latest.Some?
         && IsNewest(cfg, st'.snapshots, st'.latest.value)
        else st'.latest == st.latest)
  }

  ghost predicate NeedsLatest(cfg: Config, snapshots: map<SnapshotId, Record>, latest: Option<SnapshotId>) {
    && (exists id :: id in snapshots && id.year == cfg.activeYear)
    && !(latest.Some? && latest.value in snapshots && latest.value.year == cfg.activeYear)
  }

  predicate NotAfter(snapshots: map<SnapshotId, Record>, a: SnapshotId, b: SnapshotId)
    requires a in snapshots && b in snapshots
  {
    || snapshots[a].publishedAt < snapshots[b].publishedAt
    || (snapshots[a].publishedAt == snapshots[b].publishedAt &&
        (a.year < b.year || (a.year == b.year && a.digest <= b.digest)))
  }

  ghost predicate IsNewest(cfg: Config, snapshots: map<SnapshotId, Record>, id: SnapshotId) {
    && id in snapshots && id.year == cfg.activeYear
    && forall other :: other in snapshots && other.year == cfg.activeYear ==> NotAfter(snapshots, other, id)
  }

  lemma ReconciledRecords(cfg: Config, st: State, dirs: map<SnapshotId, Manifest>, leases: map<Token, Lease>,
                          st': State)
    requires Consistent(cfg, st, dirs, leases) && Reconciles(cfg, st, dirs, st')
    ensures forall id :: id in dirs <==> IsPublished(st', id)
    ensures forall id :: id in st'.snapshots ==> id in dirs && RecordOk(id, st'.snapshots[id])
    ensures forall id :: IsPublished(st, id) ==> IsPublished(st', id)
  {
    forall id | id in dirs ensures IsPublished(st', id) && RecordOk(id, st'.snapshots[id]) {
      if id in st.snapshots { assert RecordOk(id, st.snapshots[id]); }
    }
  }

  lemma ReconciledLatest(cfg: Config, st: State, dirs: map<SnapshotId, Manifest>, leases: map<Token, Lease>, st': State)
    requires Consistent(cfg, st, dirs, leases) && Reconciles(cfg, st, dirs, st')
    ensures st'.latest.Some? ==> IsPublished(st', st'.latest.value)
    ensures forall id :: IsActive(cfg, st', id) ==> st'.latest.Some? && IsActive(cfg, st', st'.latest.value)
    ensures st.latest.Some? && st.latest.value.year == cfg.activeYear ==> st'.latest == st.latest
  {
    ReconciledRecords(cfg, st, dirs, leases, st');
    if st.latest.Some? { assert IsPublished(st, st.latest.value); }
    forall id | IsActive(cfg, st', id)
      ensures st'.latest.Some? && IsActive(cfg, st', st'.latest.value)
    {
      assert id in st'.snapshots && id.year == cfg.activeYear;
    }
  }

  /** From every consistent pair of stores reconciliation yields a loadable state whose
      records are exactly the directories, all published, with a valid active latest. */
  lemma ReconcileRestores(cfg: Config, st: State, dirs: map<SnapshotId, Manifest>, leases: map<Token, Lease>,
                          st': State)
    requires Consistent(cfg, st, dirs, leases) && Reconciles(cfg, st, dirs, st')
    ensures Consistent(cfg, st', dirs, leases)
    ensures st'.snapshots.Keys == dirs.Keys && forall id :: id in dirs ==> IsPublished(st', id)
    ensures (exists id :: id in dirs && id.year == cfg.activeYear) ==>
              st'.latest.Some? && IsActive(cfg, st', st'.latest.value)
    // A latest that load_state accepted is never replaced by another one of its year.
    ensures st.latest.Some? && st.latest.value.year == cfg.activeYear ==> st'.latest == st.latest
    // A missing one becomes the newest of the year.
    ensures st'.latest != st.latest ==>
              st'.latest.Some? && forall id :: id in dirs && id.year == cfg.activeYear ==>
                var newest := st'.latest.value;
                && st'.snapshots[id].publishedAt <= st'.snapshots[newest].publishedAt
                && (st'.snapshots[id].publishedAt == st'.snapshots[newest].publishedAt ==> id.digest <= newest.digest)
    // Adopted records say what the manifest says; the others change in nothing but the status.
    ensures forall id :: id in dirs && id !in st.snapshots ==>
              && st'.snapshots[id].publishedAt == dirs[id].publishedAt
              && st'.snapshots[id].lastVerifiedAt == None
              && st'.snapshots[id].canonicalDate == dirs[id].canonicalDate
              && st'.snapshots[id].canonicalDates == {dirs[id].canonicalDate}
    ensures forall id :: id in dirs && id in st.snapshots ==>
              && st'.snapshots[id].publishedAt == st.snapshots[id].publishedAt
              && st'.snapshots[id].lastVerifiedAt == st.snapshots[id].lastVerifiedAt
              && st'.snapshots[id].canonicalDate == st.snapshots[id].canonicalDate
              && st'.snapshots[id].canonicalDates == st.snapshots[id].canonicalDates
    ensures st'.protections == st.protections
  {
    ReconciledRecords(cfg, st, dirs, leases, st');
    ReconciledLatest(cfg, st, dirs, leases, st');
    if id :| id in dirs && id.year == cfg.activeYear {
      assert IsActive(cfg, st', id);
    }
  }

  /** Reconciliation is the identity on its own results. */
  lemma ReconcileTwice(cfg: Config, st: State, dirs: map<SnapshotId, Manifest>, st1: State, st2: State)
    requires Reconciles(cfg, st, dirs, st1) && Reconciles(cfg, st1, dirs, st2)
    ensures st2 == st1
  {
    assert st2.snapshots == st1.snapshots;
  }

  /** The record set while a snapshot is on its way to the trash, and after. */
  function Marked(st: State, id: SnapshotId): State
    requires id in st.snapshots
  {
    st.(snapshots := st.snapshots[id := st.snapshots[id].(status := Deleting)],
        latest := if st.latest == Some(id) then None else st.latest)
  }

  function Dropped(st: State, id: SnapshotId): State {
    st.(snapshots := st.snapshots - {id}, latest := if st.latest == Some(id) then None else st.latest)
  }

  /** Snapshots the mirror must keep at this time: leased, protected by an unfinished run,
      or the latest of the active year. */
  ghost predicate Protected(cfg: Config, st: State, leases: map<Token, Lease>, now: int, id: SnapshotId) {
    || (exists t :: t in leases && leases[t].snapshotId == id && now < leases[t].expiresAt)
    || (exists run :: run in st.protections && st.protections[run].snapshotId == id
         && now < st.protections[run].expiresAt)
    || (st.latest == Some(id) && IsActive(cfg, st, id))
  }

  /** Past the keep period, or outside the newest generations: that many other published
      snapshots are no older. */
  ghost predicate InExcess(cfg: Config, snapshots: map<SnapshotId, Record>, now: int, id: SnapshotId)
    requires id in snapshots
  {
    || snapshots[id].publishedAt < now - cfg.keepHours * 3600
    || exists newer: set<SnapshotId> :: |newer| == cfg.keepGenerations && NoOlder(snapshots, newer, id)
  }

  predicate NoOlder(snapshots: map<SnapshotId, Record>, newer: set<SnapshotId>, id: SnapshotId)
    requires id in snapshots
  {
    && id !in newer
    && forall x :: x in newer ==>
         x in snapshots && snapshots[x].status == Published && snapshots[id].publishedAt <= snapshots[x].publishedAt
  }

  /** Past the keep period, or with enough newer snapshots to be outside the newest generations
      however equal publication times are ordered. */
  ghost predicate Overdue(cfg: Config, snapshots: map<SnapshotId, Record>, now: int, id: SnapshotId)
    requires id in snapshots
  {
    || snapshots[id].publishedAt < now - cfg.keepHours * 3600
    || exists newer: set<SnapshotId> :: |newer| == cfg.keepGenerations && AllNewer(snapshots, newer, id)
  }

  predicate AllNewer(snapshots: map<SnapshotId, Record>, newer: set<SnapshotId>, id: SnapshotId)
    requires id in snapshots
  {
    forall x :: x in newer ==>
      x in snapshots && snapshots[x].status == Published && snapshots[id].publishedAt < snapshots[x].publishedAt
  }

  ghost predicate Deletable(cfg: Config, st: State, leases: map<Token, Lease>, id: SnapshotId) {
    && IsPublished(st, id)
    && (forall t :: t in leases ==> leases[t].snapshotId != id)
    && (forall run :: run in st.protections ==> st.protections[run].snapshotId != id)
    && !(st.latest == Some(id) && id.year == cfg.activeYear)
  }

  /** Marking is safe, and so is dying before or after the rename that follows. */
  lemma MarkedConsistent(cfg: Config, st: State, dirs: map<SnapshotId, Manifest>, leases: map<Token, Lease>,
                         id: SnapshotId, dirs': map<SnapshotId, Manifest>)
    requires Consistent(cfg, st, dirs, leases) && Deletable(cfg, st, leases, id)
    requires dirs' == dirs || dirs' == dirs - {id}
    ensures Consistent(cfg, Marked(st, id), dirs', leases)
  {
    var st' := Marked(st, id);
    assert !IsPublished(st', id);
    forall x | x != id ensures IsPublished(st', x) == IsPublished(st, x) { }
    forall x | IsActive(cfg, st', x) ensures st'.latest.Some? && IsActive(cfg, st', st'.latest.value) {
      assert IsActive(cfg, st, x);
    }
  }

  /** The deletion is complete once the record is gone with its directory. */
  lemma DroppedConsistent(cfg: Config, st: State, dirs: map<SnapshotId, Manifest>, leases: map<Token, Lease>,
                          id: SnapshotId)
    requires Consistent(cfg, st, dirs, leases) && Deletable(cfg, st, leases, id)
    ensures Consistent(cfg, Dropped(st, id), dirs - {id}, leases)
  {
    var st' := Dropped(st, id);
    assert !IsPublished(st', id);
    forall x | x != id ensures IsPublished(st', x) == IsPublished(st, x) { }
    forall x | IsActive(cfg, st', x) ensures st'.latest.Some? && IsActive(cfg, st', st'.latest.value) {
      assert IsActive(cfg, st, x);
    }
  }

  /** Reverting the order, directory first and record second, would not survive a death in
      between: the record would name a missing directory. */
  lemma RenameBeforeMarkingIsUnsafe(cfg: Config, st: State, dirs: map<SnapshotId, Manifest>,
                                    leases: map<Token, Lease>, id: SnapshotId)
    requires Consistent(cfg, st, dirs, leases) && IsPublished(st, id)
    ensures !Consistent(cfg, st, dirs - {id}, leases)
  {
    assert id !in dirs - {id};
  }

  /** `protected_ids` drops expired protections from the state it is given. */
  function Unexpired(st: State, now: int): State {
    st.(protections := map run | run in st.protections && now < st.protections[run].expiresAt :: st.protections[run])
  }

  /** Distinct snapshots under a live lease. */
  function LiveIds(leases: map<Token, Lease>, now: int): set<SnapshotId> {
    set t | t in leases && now < leases[t].expiresAt :: leases[t].snapshotId
  }

  /** Time alone never adds a live snapshot. */
  lemma LiveIdsShrink(leases: map<Token, Lease>, now: int, later: int)
    requires now <= later
    ensures LiveIds(leases, later) <= LiveIds(leases, now)
  {
  }

  /** All publication times lie before this instant. */
  ghost predicate AgesWithin(st: State, dirs: map<SnapshotId, Manifest>, t: int) {
    && (forall id :: id in st.snapshots ==> st.snapshots[id].publishedAt <= t)
    && (forall id :: id in dirs ==> dirs[id].publishedAt <= t)
  }

  lemma AgesOfReconciled(cfg: Config, st: State, dirs: map<SnapshotId, Manifest>, st': State, t: int)
    requires Reconciles(cfg, st, dirs, st') && AgesWithin(st, dirs, t)
    ensures AgesWithin(st', dirs, t)
  {
  }
}
