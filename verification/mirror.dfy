/** The TeX Live mirror as one object: every management-lock section of
    deploy/texlive-mirror/texlive_mirror.py as a method over the two stores.

    The process may die before any write, rename or unlink: `fate(k)` says whether the
    k-th such operation still happens.  The lock makes sections run one after another;
    everything a section reads it reads anew, so their order is arbitrary. */
module Mirror {
  import opened Wrappers
  import opened SnapshotNames
  import opened MirrorState
  import Retention

  datatype Stop = Interrupted | Rejected

  /** Why `reserve` turns a caller away. */
  datatype Denial = Died | Unsafe | NotReservable | NotFound | CapacityBlocked

  function ListedIds(l: seq<Retention.Snapshot>): set<SnapshotId> {
    set s | s in l :: s.id
  }

  /** Insertion into a newest-first listing. */
  function Insert(l: seq<Retention.Snapshot>, s: Retention.Snapshot): seq<Retention.Snapshot> {
    if l == [] then [s]
    else if s.publishedAt <= l[|l| - 1].publishedAt then l + [s]
    else Insert(l[..|l| - 1], s) + [l[|l| - 1]]
  }

  lemma {:induction false} InsertAt(l: seq<Retention.Snapshot>, s: Retention.Snapshot) returns (k: nat)
    ensures k <= |l| && Insert(l, s) == l[..k] + [s] + l[k..]
    ensures k > 0 ==> s.publishedAt <= l[k - 1].publishedAt
    ensures forall i :: k <= i < |l| ==> l[i].publishedAt < s.publishedAt
    decreases |l|
  {
    k := |l|;
    if l != [] && l[|l| - 1].publishedAt < s.publishedAt {
      var n := |l| - 1;
      k := InsertAt(l[..n], s);
      MoreBehind(l, n, k, s);
    }
  }

  lemma MoreBehind(l: seq<Retention.Snapshot>, n: nat, k: nat, s: Retention.Snapshot)
    requires k <= n && n + 1 == |l|
    ensures l[..n][..k] + [s] + l[..n][k..] + [l[n]] == l[..k] + [s] + l[k..]
  {
  }

  /** Where an element of the longer listing was in the shorter one. */
  function Old(k: nat, i: nat): nat
    requires i != k
  {
    if i < k then i else i - 1
  }

  lemma OldBefore(l: seq<Retention.Snapshot>, i: nat, j: nat)
    requires Retention.Listing(l) && i <= j < |l|
    ensures l[j].publishedAt <= l[i].publishedAt
  {
    assert i == j || Retention.Before(l, i, j);
  }

  lemma InsertIsListing(l: seq<Retention.Snapshot>, s: Retention.Snapshot)
    requires Retention.Listing(l) && s.id !in ListedIds(l)
    ensures Retention.Listing(Insert(l, s))
  {
    var k := InsertAt(l, s);
    var r := l[..k] + [s] + l[k..];
    forall i, j | 0 <= i < j < |r| ensures Retention.Before(r, i, j) {
      assert i != k ==> r[i] == l[Old(k, i)];
      assert j != k ==> r[j] == l[Old(k, j)];
      if i == k {
        assert l[Old(k, j)] in l;
      } else if j == k {
        assert l[i] in l;
        OldBefore(l, i, k - 1);
      } else {
        assert Retention.Before(l, Old(k, i), Old(k, j));
      }
    }
  }

  lemma InsertMembers(l: seq<Retention.Snapshot>, s: Retention.Snapshot)
    ensures forall x :: x in Insert(l, s) <==> x in l || x == s
  {
    var k := InsertAt(l, s);
    assert l == l[..k] + l[k..];
  }

  /** The published snapshots newest first (`published.sort` in `delete_candidates`). */
  method SortPublished(st: State) returns (l: seq<Retention.Snapshot>)
    ensures Retention.Listing(l)
    ensures forall s :: s in l <==> IsPublished(st, s.id) && s.publishedAt == st.snapshots[s.id].publishedAt
  {
    l := [];
    var ids := st.snapshots.Keys;
    while ids != {}
      invariant ids <= st.snapshots.Keys && Retention.Listing(l)
      invariant forall s :: s in l <==>
                  IsPublished(st, s.id) && s.id !in ids && s.publishedAt == st.snapshots[s.id].publishedAt
      decreases ids
    {
      var id :| id in ids;
      if st.snapshots[id].status == Published {
        var s := Retention.Snapshot(id, st.snapshots[id].publishedAt);
        InsertIsListing(l, s);
        InsertMembers(l, s);
        l := Insert(l, s);
      }
      ids := ids - {id};
    }
  }

  /** The listed excess is the excess of the records. */
  lemma ExcessInState(cfg: Config, st: State, policy: Retention.Policy, list: seq<Retention.Snapshot>,
                      kept: set<SnapshotId>, now: int)
    requires Retention.Listing(list) && policy == Retention.Policy(cfg.keepGenerations, now - cfg.keepHours * 3600)
    requires forall s :: s in list <==> IsPublished(st, s.id) && s.publishedAt == st.snapshots[s.id].publishedAt
    requires Retention.Normal(policy, list, kept) != []
    ensures var id := Retention.Normal(policy, list, kept)[0];
            id in st.snapshots && InExcess(cfg, st.snapshots, now, id)
  {
    var i := Retention.NormalIsExcess(policy, list, kept);
    assert list[i] in list;
    if cfg.keepGenerations <= i {
      var newer := Retention.Newest(list, cfg.keepGenerations);
      Retention.NewestCount(list, cfg.keepGenerations);
      forall x | x in newer
        ensures x != list[i].id && IsPublished(st, x)
                  && st.snapshots[list[i].id].publishedAt <= st.snapshots[x].publishedAt
      {
        var k :| 0 <= k < cfg.keepGenerations && list[k].id == x;
        assert list[k] in list && Retention.Before(list, k, i);
      }
      assert NoOlder(st.snapshots, newer, list[i].id);
    }
  }

  /** An overdue snapshot is listed in excess. */
  lemma OverdueIsListed(cfg: Config, st: State, policy: Retention.Policy, list: seq<Retention.Snapshot>, i: nat,
                        now: int)
    requires Retention.Listing(list) && policy == Retention.Policy(cfg.keepGenerations, now - cfg.keepHours * 3600)
    requires forall s :: s in list <==> IsPublished(st, s.id) && s.publishedAt == st.snapshots[s.id].publishedAt
    requires i < |list| && list[i].id in st.snapshots && Overdue(cfg, st.snapshots, now, list[i].id)
    ensures Retention.Excess(policy, list, i)
  {
    assert list[i] in list;
    if newer: set<SnapshotId> :|
      |newer| == cfg.keepGenerations && AllNewer(st.snapshots, newer, list[i].id)
    {
      forall x | x in newer ensures x in Retention.Newest(list, i) {
        var s := Retention.Snapshot(x, st.snapshots[x].publishedAt);
        assert s in list;
        var k :| 0 <= k < |list| && list[k] == s;
        if i <= k { OldBefore(list, i, k); }
      }
      Retention.NewestCount(list, i);
      FewerIds(newer, Retention.Newest(list, i));
    }
  }

  lemma NotListedNotOverdue(cfg: Config, st: State, policy: Retention.Policy, list: seq<Retention.Snapshot>,
                            kept: set<SnapshotId>, now: int, x: SnapshotId)
    requires Retention.Listing(list) && policy == Retention.Policy(cfg.keepGenerations, now - cfg.keepHours * 3600)
    requires forall s :: s in list <==> IsPublished(st, s.id) && s.publishedAt == st.snapshots[s.id].publishedAt
    requires Retention.Normal(policy, list, kept) == [] && IsPublished(st, x) && x !in kept
    ensures !Overdue(cfg, st.snapshots, now, x)
  {
    var s := Retention.Snapshot(x, st.snapshots[x].publishedAt);
    assert s in list;
    var i :| 0 <= i < |list| && list[i] == s;
    Retention.NoneInExcess(policy, list, kept, i);
    if Overdue(cfg, st.snapshots, now, x) { OverdueIsListed(cfg, st, policy, list, i, now); }
  }

  lemma FewerIds(a: set<SnapshotId>, b: set<SnapshotId>)
    requires a <= b
    ensures |a| <= |b|
  {
    assert b == a + (b - a);
  }

  /** No unprotected snapshot on disk is older. */
  ghost predicate Oldest(cfg: Config, st: State, dirs: map<SnapshotId, Manifest>, leases: map<Token, Lease>, now: int,
                         id: SnapshotId) {
    && id in st.snapshots
    && forall x :: x in dirs && !Protected(cfg, st, leases, now, x) ==>
         x in st.snapshots && st.snapshots[id].publishedAt <= st.snapshots[x].publishedAt
  }

  /** Of the snapshots on disk all unprotected ones may stay; under pressure there are none. */
  ghost predicate NothingDue(cfg: Config, st: State, dirs: map<SnapshotId, Manifest>, leases: map<Token, Lease>,
                             now: int, pressed: bool) {
    forall x :: x in dirs && !Protected(cfg, st, leases, now, x) ==>
      !pressed && x in st.snapshots && !Overdue(cfg, st.snapshots, now, x)
  }

  /** A published snapshot recorded for this canonical date. */
  predicate Carries(st: State, id: SnapshotId, date: Date) {
    IsPublished(st, id) && date in st.snapshots[id].canonicalDates
  }

  /** The snapshot a request names, or the one its date stands for. */
  predicate Asked(st: State, snapshot: Option<SnapshotId>, date: Option<Date>, x: SnapshotId) {
    if snapshot.Some? then x == snapshot.value && (date.Some? ==> Carries(st, x, date.value))
    else date.Some? && Carries(st, x, date.value) && (st.latest == Some(x) || OnlyMatch(st, x, date.value))
  }

  predicate OnlyMatch(st: State, x: SnapshotId, date: Date) {
    forall y :: y in st.snapshots && Carries(st, y, date) ==> y == x
  }

  predicate Reservable(st: State, dirs: map<SnapshotId, Manifest>, snapshot: Option<SnapshotId>, date: Option<Date>,
                       architecture: string, x: SnapshotId) {
    && Asked(st, snapshot, date, x) && IsPublished(st, x)
    && x in dirs && architecture in dirs[x].architectures
  }

  /** Lease files only disappear, and only once they have expired. */
  ghost predicate Purged(before: map<Token, Lease>, after: map<Token, Lease>, now: int) {
    && (forall t :: t in after ==> t in before && after[t] == before[t])
    && (forall t :: t in before && t !in after ==> before[t].expiresAt <= now)
  }

  /** The state a publication writes. */
  function PublishedState(st: State, id: SnapshotId, date: Date, run: string, now: int): State {
    State(Some(id), st.snapshots[id := Record(now, Some(now), Published, date, {date})], st.protections - {run})
  }

  /** `.operation.json` of a directory below `staging/`. */
  datatype Marker = Marker(run: string, deadline: int)

  predicate Alphanumeric(c: char) {
    'A' <= c <= 'Z' || 'a' <= c <= 'z' || '0' <= c <= '9'
  }

  predicate SafeName(name: string) {
    && 1 <= |name| <= 200 && Alphanumeric(name[0])
    && forall i :: 0 <= i < |name| ==> Alphanumeric(name[i]) || name[i] in "_.-"
  }

  predicate Digits(s: string) {
    s != [] && forall i :: 0 <= i < |s| ==> '0' <= s[i] <= '9'
  }

  /** The names syncs give their directories are safe; a safe name is a single file name, not
      hidden and not too long. */
  lemma SyncNamesAreSafe(stamp: string, pid: string)
    requires Digits(stamp) && Digits(pid) && |stamp| + |pid| <= 194
    ensures SafeName("sync-" + stamp + "-" + pid)
  {
    var name := "sync-" + stamp + "-" + pid;
    forall i | 0 <= i < |name| ensures Alphanumeric(name[i]) || name[i] in "_.-" {
      assert name[i] == if i < 5 then "sync-"[i] else if i < 5 + |stamp| then stamp[i - 5]
                        else if i == 5 + |stamp| then '-' else pid[i - 6 - |stamp|];
    }
  }

  lemma SafeNamesAreFileNames(name: string)
    requires SafeName(name)
    ensures name != [] && |name| < 201 && name[0] !in "._-/" && '/' !in name && '\\' !in name && ' ' !in name
  {
    forall c | c in name ensures c !in "/\\ " {
      var i :| 0 <= i < |name| && name[i] == c;
    }
  }

  /** The sync that owns the directory is over: its deadline has passed, and its protection too. */
  predicate Abandoned(protections: map<string, Protection>, m: Marker, now: int) {
    && !(m.run in protections && now < protections[m.run].expiresAt)
    && m.deadline <= now
  }

  /** The directory at which `recover_staging` gives up. */
  predicate Stops(protections: map<string, Protection>, trash: set<(string, int)>, name: string,
                  marker: Option<Marker>, now: int) {
    || marker == None
    || (Abandoned(protections, marker.value, now) && (!SafeName(name) || (name, now) in trash))
  }

  /** Some directory below `staging/` stops every recovery at this time. */
  ghost predicate Blocked(staging: map<string, Option<Marker>>, protections: map<string, Protection>,
                          trash: set<(string, int)>, now: int) {
    exists name :: name in staging && Stops(protections, trash, name, staging[name], now)
  }

  /** Every directory below `staging/` has its marker. */
  ghost predicate AllMarked(staging: map<string, Option<Marker>>) {
    forall name :: name in staging ==> staging[name].Some?
  }

  class Store {
    const config: Config
    const fate: nat -> bool
    var clock: nat
    var saved: State
    var dirs: map<SnapshotId, Manifest>
    var trash: set<(SnapshotId, int)>
    var staging: map<string, Option<Marker>>
    var stagingTrash: set<(string, int)>
    var leases: map<Token, Lease>
    var pointer: Option<SnapshotId>

    ghost predicate Valid()
      reads this
    {
      ValidConfig(config) && Consistent(config, saved, dirs, leases)
    }

    /** `default_state` over empty directories. */
    constructor (config: Config, fate: nat -> bool)
      requires ValidConfig(config)
      ensures Valid() && this.config == config && this.fate == fate
      ensures dirs == map[] && leases == map[] && saved == State(None, map[], map[])
      ensures staging == map[] && stagingTrash == {} && clock == 0
    {
      this.config, this.fate := config, fate;
      clock, saved, dirs, trash, leases, pointer := 0, State(None, map[], map[]), map[], {}, map[], None;
      staging, stagingTrash := map[], {};
    }

    /** No process dies from here on. */
    ghost predicate Steady()
      reads this`clock
    {
      forall k: nat :: clock <= k ==> fate(k)
    }

    method Proceed() returns (alive: bool)
      modifies this`clock
      ensures alive == fate(old(clock)) && clock == old(clock) + 1
    {
      alive := fate(clock);
      clock := clock + 1;
    }

    method ActiveReservations(now: int) returns (r: Result<map<Token, Lease>, Stop>)
      modifies this`leases, this`clock
      ensures old(clock) <= clock && (old(Steady()) ==> r.Ok? || r == Err(Rejected))
      ensures r.Ok? ==> forall t :: t in old(leases) ==>
                LeaseOk(t, old(leases)[t]) && old(leases)[t].createdAt <= now
      ensures Purged(old(leases), leases, now)
      ensures r.Ok? ==> r.value == leases && forall t :: t in leases ==>
                LeaseOk(t, leases[t]) && leases[t].createdAt <= now < leases[t].expiresAt
      ensures r == Err(Rejected) ==> exists t :: t in leases && (!LeaseOk(t, leases[t]) || now < leases[t].createdAt)
    {
      var active := map[];
      var files := leases.Keys;
      while files != {}
        invariant files <= leases.Keys && Purged(old(leases), leases, now) && old(clock) <= clock
        invariant forall t :: t in old(leases) && t !in files ==>
                    LeaseOk(t, old(leases)[t]) && old(leases)[t].createdAt <= now
        invariant active == leases - files
        invariant forall t :: t in active ==> LeaseOk(t, active[t]) && active[t].createdAt <= now < active[t].expiresAt
        decreases files
      {
        var t :| t in files;
        var value := leases[t];
        if value.token != t || t != Token(value.owner, value.architecture, value.snapshotId) {
          return Err(Rejected);
        }
        if value.createdAt > now || value.expiresAt <= value.createdAt || value.expiresAt > value.createdAt + 8 * 3600 {
          return Err(Rejected);
        }
        files := files - {t};
        if value.expiresAt <= now {
          var alive := Proceed();
          if !alive { return Err(Interrupted); }
          leases := leases - {t};
        } else {
          active := active[t := value];
        }
      }
      r := Ok(active);
    }

    /** First loop of `reconcile_state`: completed directories without a record. */
    method AdoptOrphans(known: map<SnapshotId, Record>) returns (r: Result<map<SnapshotId, Record>, Stop>)
      ensures r.Ok? ==> r.value == known + (map id | id in dirs && id !in known :: Adopted(dirs[id]))
      // Only a complete, intact directory of its own name and year is adopted.
      ensures r.Ok? ==> forall id :: id in dirs && id !in known ==>
                && dirs[id].intact && dirs[id].snapshotId == id
                && dirs[id].year == id.year && dirs[id].canonicalDate.year == id.year
      ensures r.Err? ==> r == Err(Rejected) && exists id :: id in dirs && id !in known && !Adoptable(id, dirs[id])
    {
      var snapshots := known;
      var todo := dirs.Keys;
      while todo != {}
        invariant todo <= dirs.Keys
        invariant forall id :: id in dirs && id !in todo && id !in known ==> Adoptable(id, dirs[id])
        invariant snapshots == known + (map id | id in dirs && id !in todo && id !in known :: Adopted(dirs[id]))
        decreases todo
      {
        var id :| id in todo;
        if id !in snapshots {
          if !Adoptable(id, dirs[id]) { return Err(Rejected); }
          snapshots := snapshots[id := Adopted(dirs[id])];
        }
        todo := todo - {id};
      }
      r := Ok(snapshots);
    }

    /** Second loop: interrupted deletions are finished or undone. */
    method SettleDeletions(adopted: map<SnapshotId, Record>) returns (r: Result<map<SnapshotId, Record>, Stop>)
      requires dirs.Keys <= adopted.Keys
      ensures r.Ok? ==> r.value == (map id | id in dirs :: adopted[id].(status := Published))
      ensures r.Err? ==>
                r == Err(Rejected) && exists id :: id in adopted && adopted[id].status == Published && id !in dirs
    {
      var snapshots := adopted;
      var todo := adopted.Keys;
      while todo != {}
        invariant todo <= adopted.Keys
        invariant snapshots == map id | id in adopted && (id in todo || id in dirs) ::
                    if id in todo then adopted[id] else adopted[id].(status := Published)
        decreases todo
      {
        var id :| id in todo;
        if snapshots[id].status == Deleting && id !in dirs {
          snapshots := snapshots - {id};
        } else if snapshots[id].status == Deleting {
          snapshots := snapshots[id := snapshots[id].(status := Published)];
        } else if id !in dirs {
          return Err(Rejected);
        }
        todo := todo - {id};
      }
      r := Ok(snapshots);
    }

    method ReconcileState(st: State) returns (r: Result<State, Stop>)
      modifies this`pointer, this`clock
      ensures r.Ok? ==> Reconciles(config, st, dirs, r.value) && pointer == r.value.latest
      ensures old(clock) <= clock && (old(Steady()) ==> r.Ok? || r == Err(Rejected))
      ensures r == Err(Rejected) ==>
                || (exists id :: id in dirs && id !in st.snapshots && !Adoptable(id, dirs[id]))
                || (exists id :: IsPublished(st, id) && id !in dirs)
    {
      var adopted := AdoptOrphans(st.snapshots);
      if adopted.Err? { return Err(Rejected); }
      var settled := SettleDeletions(adopted.value);
      if settled.Err? {
        assert exists id :: IsPublished(st, id) && id !in dirs by {
          var id :| id in adopted.value && adopted.value[id].status == Published && id !in dirs;
          assert IsPublished(st, id);
        }
        return Err(Rejected);
      }
      assert settled.value == (map id | id in dirs ::
                                 if id in st.snapshots then st.snapshots[id].(status := Published)
                                     else Adopted(dirs[id]));
      var latest := ChooseLatest(settled.value, st.latest);
      var alive := Proceed();
      if !alive { return Err(Interrupted); }
      pointer := latest;
      r := Ok(State(latest, settled.value, st.protections));
    }

    method ChooseLatest(snapshots: map<SnapshotId, Record>, latest: Option<SnapshotId>)
      returns (chosen: Option<SnapshotId>)
      ensures if NeedsLatest(config, snapshots, latest)
              then chosen.Some? && IsNewest(config, snapshots, chosen.value)
              else chosen == latest
    {
      var active := set id | id in snapshots && id.year == config.activeYear;
      assert NeedsLatest(config, snapshots, latest) <==> active != {} && !(latest.Some? && latest.value in active) by {
        if active != {} { var id :| id in active; assert id in snapshots && id.year == config.activeYear; }
        if id :| id in snapshots && id.year == config.activeYear { assert id in active; }
      }
      if active == {} || (latest.Some? && latest.value in active) { return latest; }
      var newest :| newest in active;
      var todo := active;
      while todo != {}
        invariant todo <= active && newest in active
        invariant forall id :: id in active && id !in todo ==> NotAfter(snapshots, id, newest)
        decreases todo
      {
        var id :| id in todo;
        if NotAfter(snapshots, newest, id) { newest := id; }
        todo := todo - {id};
      }
      chosen := Some(newest);
    }

    method RecordsValid() returns (ok: bool)
      ensures ok <==> forall id :: id in saved.snapshots ==> RecordOk(id, saved.snapshots[id])
    {
      var todo := saved.snapshots.Keys;
      while todo != {}
        invariant todo <= saved.snapshots.Keys
        invariant forall id :: id in saved.snapshots && id !in todo ==> RecordOk(id, saved.snapshots[id])
        decreases todo
      {
        var id :| id in todo;
        if !RecordOk(id, saved.snapshots[id]) { return false; }
        todo := todo - {id};
      }
      ok := true;
    }

    method ProtectionsValid() returns (ok: bool)
      ensures ok <==> forall run :: run in saved.protections ==>
                        && saved.protections[run].createdAt < saved.protections[run].expiresAt
                        && IsPublished(saved, saved.protections[run].snapshotId)
    {
      var todo := saved.protections.Keys;
      while todo != {}
        invariant todo <= saved.protections.Keys
        invariant forall run :: run in saved.protections && run !in todo ==>
                    && saved.protections[run].createdAt < saved.protections[run].expiresAt
                    && IsPublished(saved, saved.protections[run].snapshotId)
        decreases todo
      {
        var run :| run in todo;
        var p := saved.protections[run];
        if p.expiresAt <= p.createdAt || !IsPublished(saved, p.snapshotId) { return false; }
        todo := todo - {run};
      }
      ok := true;
    }

    method LoadState() returns (r: Result<State, Stop>)
      ensures r == if LoadOk(config, saved) then Ok(saved) else Err(Rejected)
    {
      var records := RecordsValid();
      if !records { return Err(Rejected); }
      var protections := ProtectionsValid();
      if !protections { return Err(Rejected); }
      if saved.latest.Some? && !IsPublished(saved, saved.latest.value) { return Err(Rejected); }
      var active := set id | id in saved.snapshots && IsActive(config, saved, id);
      if active != {} && !(saved.latest.Some? && saved.latest.value in active) {
        ghost var id :| id in active;
        return Err(Rejected);
      }
      assert forall id :: id in saved.snapshots && IsActive(config, saved, id) ==> id in active;
      r := Ok(saved);
    }

    method SaveState(st: State) returns (alive: bool)
      modifies this`saved, this`clock
      ensures saved == if alive then st else old(saved)
      ensures clock == old(clock) + 1 && alive == fate(old(clock))
    {
      alive := Proceed();
      if alive { saved := st; }
    }

    /** `recover_staging`: directories of finished syncs go to the trash. */
    method RecoverStaging(protections: map<string, Protection>, now: int)
      returns (r: Result<(), Stop>, ghost moved: set<string>)
      modifies this`staging, this`stagingTrash, this`clock
      ensures staging == old(staging) - moved && moved <= old(staging).Keys
      ensures stagingTrash == old(stagingTrash) + set name | name in moved :: (name, now)
      // Only what a finished sync left goes, and all of it unless something stops the walk.
      ensures forall name :: name in moved ==>
                && old(staging)[name].Some? && old(staging)[name].value.deadline <= now
                && (old(staging)[name].value.run in protections ==>
                      protections[old(staging)[name].value.run].expiresAt <= now)
      ensures r.Ok? ==> forall name :: name in staging ==>
                && staging[name].Some?
                && (now < staging[name].value.deadline ||
                    (staging[name].value.run in protections && now < protections[staging[name].value.run].expiresAt))
      ensures r == Err(Rejected) ==> Blocked(old(staging), protections, old(stagingTrash), now)
      ensures r.Ok? ==> !Blocked(old(staging), protections, old(stagingTrash), now)
      ensures old(clock) <= clock && (old(Steady()) ==> r.Ok? || r == Err(Rejected))
    {
      moved := {};
      var todo := staging.Keys;
      while todo != {}
        invariant todo <= old(staging).Keys && moved !! todo && moved <= old(staging).Keys
        invariant staging == old(staging) - moved
        invariant stagingTrash == old(stagingTrash) + set name | name in moved :: (name, now)
        invariant forall name :: name in moved ==>
                    old(staging)[name].Some? && Abandoned(protections, old(staging)[name].value, now)
        invariant forall name :: name in old(staging) && name !in todo ==>
                    && !Stops(protections, old(stagingTrash), name, old(staging)[name], now)
                    && (name in moved <==> Abandoned(protections, old(staging)[name].value, now))
        invariant old(clock) <= clock
        decreases todo
      {
        var name :| name in todo;
        if staging[name] == None { return Err(Rejected), moved; }
        if Abandoned(protections, staging[name].value, now) {
          if !SafeName(name) || (name, now) in stagingTrash { return Err(Rejected), moved; }
          var alive := Proceed();
          if !alive { return Err(Interrupted), moved; }
          staging, stagingTrash, moved := staging - {name}, stagingTrash + {(name, now)}, moved + {name};
        }
        todo := todo - {name};
      }
      r := Ok(());
    }

    /** First section of a garbage collection: recover, then record the recovery.  It fails
        exactly when a directory below `staging/` stops it, and then records nothing. */
    method RecoverSection(now: int, syncRunning: bool) returns (r: Result<(), Stop>)
      requires Valid()
      modifies this`saved, this`pointer, this`staging, this`stagingTrash, this`clock
      ensures Valid()
      ensures saved == old(saved) || Reconciles(config, old(saved), dirs, saved)
      ensures r.Ok? ==> saved.snapshots.Keys == dirs.Keys && pointer == saved.latest
      ensures r == Err(Rejected) ==>
                saved == old(saved) && !syncRunning
                && Blocked(old(staging), old(saved).protections, old(stagingTrash), now)
      ensures r.Ok? && !syncRunning ==> !Blocked(old(staging), old(saved).protections, old(stagingTrash), now)
      ensures old(Steady()) ==>
                && Steady()
                && if !syncRunning && Blocked(old(staging), old(saved).protections, old(stagingTrash), now)
                   then r == Err(Rejected) else r.Ok?
      // Directories without a marker stay where they are.
      ensures forall name :: name in staging ==> name in old(staging) && staging[name] == old(staging)[name]
      ensures forall name :: name in old(staging) && old(staging)[name] == None ==> name in staging
      ensures syncRunning ==> staging == old(staging)
    {
      var st := LoadState();
      var fixed := ReconcileState(st.value);
      if fixed.Err? { return Err(fixed.error); }
      ReconcileRestores(config, saved, dirs, leases, fixed.value);
      if !syncRunning {
        var recovery, _ := RecoverStaging(fixed.value.protections, now);
        if recovery.Err? { return recovery; }
      }
      var alive := SaveState(fixed.value);
      r := if alive then Ok(()) else Err(Interrupted);
    }

    /** The start of a sync: its directory, then the marker in it. */
    method OpenStaging(run: string, now: int) returns (r: Result<(), Stop>)
      modifies this`staging, this`clock
      ensures r.Ok? ==> run !in old(staging)
      ensures r.Ok? ==> staging == old(staging)[run := Some(Marker(run, now + config.syncTimeout))]
      ensures r == Err(Rejected) <==> run in old(staging)
      ensures r == Err(Rejected) ==> staging == old(staging)
      ensures r == Err(Interrupted) <==> run !in old(staging) && !(fate(old(clock)) && fate(old(clock) + 1))
      // A death between the two leaves a directory without a marker.
      ensures r == Err(Interrupted) ==> staging == if fate(old(clock)) then old(staging)[run := None] else old(staging)
      ensures r == Err(Interrupted) && fate(old(clock)) ==> clock == old(clock) + 2
      ensures old(Steady()) ==> r.Ok? || r == Err(Rejected)
    {
      if run in staging { return Err(Rejected); }
      var alive := Proceed();
      if !alive { return Err(Interrupted); }
      staging := staging[run := None];
      alive := Proceed();
      if !alive { return Err(Interrupted); }
      staging := staging[run := Some(Marker(run, now + config.syncTimeout))];
      r := Ok(());
    }

    /** `safe_rmtree` on the staging directory of an unsuccessful sync; the marker may go first. */
    method CloseStaging(run: string) returns (r: Result<(), Stop>)
      modifies this`staging, this`clock
      ensures r.Ok? ==> staging == old(staging) - {run}
      ensures r.Err? ==> r == Err(Interrupted) && run in old(staging)
      ensures r.Err? ==> staging == if fate(old(clock)) then old(staging)[run := None] else old(staging)
      ensures run in old(staging) && !(fate(old(clock)) && fate(old(clock) + 1)) ==> r.Err?
      ensures old(Steady()) ==> r.Ok?
    {
      if run in staging {
        var alive := Proceed();
        if !alive { return Err(Interrupted); }
        staging := staging[run := None];
        alive := Proceed();
        if !alive { return Err(Interrupted); }
      }
      assert staging - {run} == old(staging) - {run};
      staging := staging - {run};
      r := Ok(());
    }

    method ProtectedIds(st: State, now: int) returns (r: Result<set<SnapshotId>, Stop>)
      modifies this`leases, this`clock
      ensures old(clock) <= clock && (old(Steady()) ==> r.Ok? || r == Err(Rejected))
      ensures Purged(old(leases), leases, now)
      ensures r.Ok? ==> forall t :: t in leases ==> LeaseOk(t, leases[t]) && now < leases[t].expiresAt
      ensures r.Ok? ==> forall id :: id in r.value <==> Protected(config, st, leases, now, id)
      ensures r == Err(Rejected) ==>
                exists t :: t in leases &&
                  (!LeaseOk(t, leases[t]) || now < leases[t].createdAt || !IsPublished(st, leases[t].snapshotId))
    {
      var active := ActiveReservations(now);
      if active.Err? { return Err(active.error); }
      var kept: set<SnapshotId> := {};
      var tokens := leases.Keys;
      while tokens != {}
        invariant tokens <= leases.Keys
        invariant forall id :: id in kept <==> exists t :: t in leases && t !in tokens && leases[t].snapshotId == id
        decreases tokens
      {
        var t :| t in tokens;
        if !IsPublished(st, leases[t].snapshotId) { return Err(Rejected); }
        kept := kept + {leases[t].snapshotId};
        tokens := tokens - {t};
      }
      if st.latest.Some? && IsActive(config, st, st.latest.value) {
        kept := kept + {st.latest.value};
      }
      kept := kept + set run | run in st.protections
          && now < st.protections[run].expiresAt :: st.protections[run].snapshotId;
      r := Ok(kept);
    }

    /** The snapshot `delete_candidates` puts first, if any. */
    method ChooseCandidate(st: State, kept: set<SnapshotId>, now: int, pressure: bool, onTarget: bool)
      returns (id: Option<SnapshotId>)
      ensures id.Some? ==> IsPublished(st, id.value) && id.value !in kept
      ensures id.Some? ==> forall x :: IsPublished(st, x) && x !in kept ==>
                st.snapshots[id.value].publishedAt <= st.snapshots[x].publishedAt
      ensures id == None && pressure && !onTarget ==> forall x :: IsPublished(st, x) ==> x in kept
      ensures id.Some? && !(pressure && !onTarget) ==> InExcess(config, st.snapshots, now, id.value)
      // Nothing that is overdue is passed over.
      ensures id == None ==> forall x :: IsPublished(st, x) && x !in kept ==> !Overdue(config, st.snapshots, now, x)
    {
      var list := SortPublished(st);
      var policy := Retention.Policy(config.keepGenerations, now - config.keepHours * 3600);
      var candidates := Retention.Decide(policy, list, kept, pressure, onTarget);
      Retention.MembersAreUnprotected(list, kept);
      ghost var u := Retention.Unprotected(list, kept);
      if candidates == [] {
        forall x | pressure && !onTarget && IsPublished(st, x) ensures x in kept {
          assert Retention.Snapshot(x, st.snapshots[x].publishedAt) in list;
        }
        forall x | IsPublished(st, x) && x !in kept ensures !Overdue(config, st.snapshots, now, x) {
          NotListedNotOverdue(config, st, policy, list, kept, now, x);
        }
        return None;
      }
      assert u[0] in u;
      id := Some(candidates[0]);
      if !(pressure && !onTarget) { ExcessInState(config, st, policy, list, kept, now); }
      forall x | IsPublished(st, x) && x !in kept
        ensures st.snapshots[id.value].publishedAt <= st.snapshots[x].publishedAt
      {
        var s, o := Retention.Snapshot(x, st.snapshots[x].publishedAt),
            Retention.Snapshot(u[0], st.snapshots[u[0]].publishedAt);
        assert s in list && o in list && x in u;
        var k :| 0 <= k < |u| && u[k] == x;
        if k > 0 { Retention.OldestFirst(list, kept, 0, k, o, s); }
      }
    }

    /** The stores are consistent at every point of a deletion. */
    ghost predicate DeletionSafe(st: State, id: SnapshotId)
      reads this
    {
      && id in st.snapshots
      && Consistent(config, Marked(st, id), dirs, leases)
      && Consistent(config, Marked(st, id), dirs - {id}, leases)
      && Consistent(config, Dropped(st, id), dirs - {id}, leases)
    }

    /** The second half of a deletion: rename, then forget. */
    method MoveAndForget(st: State, id: SnapshotId, now: int)
      returns (r: Result<(), Stop>, ghost moved: set<SnapshotId>)
      requires Valid() && DeletionSafe(st, id)
      requires saved == Marked(st, id)
      modifies this`saved, this`dirs, this`trash, this`pointer, this`clock
      ensures Valid() && dirs == old(dirs) - moved && moved <= {id}
      ensures old(Steady()) ==> r.Ok? || r == Err(Rejected)
      ensures r.Ok? ==> moved == {id} && saved == Dropped(st, id) && trash == old(trash) + {(id, now)}
      ensures r.Ok? && st.latest == Some(id) ==> pointer == None
      ensures r == Err(Rejected) ==> (id, now) in old(trash)
      ensures saved == Marked(st, id) || saved == Dropped(st, id)
      // The rename, the pointer and the record are one operation each.
      ensures r.Ok? ==> clock == old(clock) + if st.latest == Some(id) then 3 else 2
    {
      moved := {};
      if (id, now) in trash { return Err(Rejected), moved; }
      var alive := Proceed();
      if !alive { return Err(Interrupted), moved; }
      dirs, trash, moved := dirs - {id}, trash + {(id, now)}, {id};
      if st.latest == Some(id) {
        alive := Proceed();
        if !alive { return Err(Interrupted), moved; }
        pointer := None;
      }
      alive := SaveState(Dropped(st, id));
      r := if alive then Ok(()) else Err(Interrupted);
    }

    /** The two-phase deletion of one snapshot: mark, rename, forget. */
    method DeleteSnapshot(st: State, id: SnapshotId, now: int)
      returns (r: Result<(), Stop>, ghost moved: set<SnapshotId>)
      requires ValidConfig(config) && Consistent(config, st, dirs, leases) && Deletable(config, st, leases, id)
      requires Valid()
      modifies this`saved, this`dirs, this`trash, this`pointer, this`clock
      ensures Valid() && dirs == old(dirs) - moved && moved <= {id}
      ensures old(Steady()) ==> r.Ok? || r == Err(Rejected)
      ensures r.Ok? ==> moved == {id} && saved == Dropped(st, id) && trash == old(trash) + {(id, now)}
      ensures r.Ok? && st.latest == Some(id) ==> pointer == None
      ensures r == Err(Rejected) ==> (id, now) in old(trash)
      ensures saved == old(saved) || saved == Marked(st, id) || saved == Dropped(st, id)
      ensures saved.protections in {old(saved).protections, st.protections}
      ensures forall t :: AgesWithin(old(saved), old(dirs), t) && AgesWithin(st, old(dirs), t) ==>
                AgesWithin(saved, dirs, t)
    {
      assert DeletionSafe(st, id) by {
        MarkedConsistent(config, st, dirs, leases, id, dirs);
        MarkedConsistent(config, st, dirs, leases, id, dirs - {id});
        DroppedConsistent(config, st, dirs, leases, id);
      }
      var alive := SaveState(Marked(st, id));
      if !alive { return Err(Interrupted), {}; }
      r, moved := MoveAndForget(st, id, now);
      DeletionKeepsAges(st, id, old(dirs), dirs);
    }

    /** The reading half of a deletion section: the state it works on and what to keep.
        `seen` is the reconciled state. */
    method Survey(now: int) returns (r: Result<(State, set<SnapshotId>), Stop>, ghost seen: State)
      requires Valid()
      modifies this`leases, this`pointer, this`clock
      ensures Valid() && Purged(old(leases), leases, now)
      ensures old(clock) <= clock && (old(Steady()) ==> r.Ok? || r == Err(Rejected))
      ensures r.Ok? ==> Reconciles(config, saved, dirs, seen) && r.value.0 == Unexpired(seen, now)
      ensures r.Ok? ==> Consistent(config, r.value.0, dirs, leases) && r.value.0.snapshots.Keys == dirs.Keys
      ensures r.Ok? ==> forall id :: id in dirs ==> IsPublished(r.value.0, id)
      ensures r.Ok? ==> forall id :: id in r.value.1 <==> Protected(config, seen, old(leases), now, id)
      ensures r.Ok? ==> forall id :: IsPublished(r.value.0, id) && id !in r.value.1 ==>
                          Deletable(config, r.value.0, leases, id) && !Protected(config, saved, old(leases), now, id)
      ensures r == Err(Rejected) ==> exists t :: t in old(leases) && now < old(leases)[t].createdAt
      ensures r.Ok? ==> forall t :: AgesWithin(saved, dirs, t) ==> AgesWithin(r.value.0, dirs, t)
    {
      var st := LoadState();
      seen := st.value;
      var fixed := ReconcileState(st.value);
      if fixed.Err? { return Err(fixed.error), seen; }
      seen := fixed.value;
      ReconcileRestores(config, saved, dirs, leases, fixed.value);
      var kept := ProtectedIds(fixed.value, now);
      PurgeConsistent(config, saved, dirs, old(leases), leases, now);
      PurgeConsistent(config, fixed.value, dirs, old(leases), leases, now);
      if kept.Err? { return Err(kept.error), seen; }
      PurgeProtects(config, seen, old(leases), leases, now);
      var live := Unexpired(fixed.value, now);
      UnexpiredConsistent(config, fixed.value, dirs, leases, now);
      forall id | IsPublished(live, id) && id !in kept.value
        ensures Deletable(config, live, leases, id) && !Protected(config, saved, old(leases), now, id)
      {
        KeptIsProtected(config, saved, fixed.value, dirs, old(leases), leases, now, id);
      }
      forall t | AgesWithin(saved, dirs, t) ensures AgesWithin(live, dirs, t) {
        AgesOfReconciled(config, saved, dirs, fixed.value, t);
      }
      r := Ok((live, kept.value));
    }

    /** The deciding half: the snapshot to delete, if any. */
    method Pick(now: int, pressure: bool, onTarget: bool)
      returns (r: Result<(State, Option<SnapshotId>), Stop>, ghost seen: State)
      requires Valid()
      modifies this`leases, this`pointer, this`clock
      ensures Valid() && Purged(old(leases), leases, now)
      ensures old(clock) <= clock && (old(Steady()) ==> r.Ok? || r == Err(Rejected))
      ensures r.Ok? ==> Reconciles(config, saved, dirs, seen) && r.value.0 == Unexpired(seen, now)
      ensures r.Ok? ==> Consistent(config, r.value.0, dirs, leases) && r.value.0.snapshots.Keys == dirs.Keys
      ensures r.Ok? && r.value.1.Some? ==>
                && Deletable(config, r.value.0, leases, r.value.1.value)
                && !Protected(config, saved, old(leases), now, r.value.1.value)
                && r.value.1.value in dirs
                && Oldest(config, seen, dirs, old(leases), now, r.value.1.value)
                && (!(pressure && !onTarget) ==> InExcess(config, seen.snapshots, now, r.value.1.value))
      ensures r.Ok? && r.value.1 == None ==>
                NothingDue(config, seen, dirs, old(leases), now, pressure && !onTarget)
      ensures r == Err(Rejected) ==> exists t :: t in old(leases) && now < old(leases)[t].createdAt
      ensures r.Ok? ==> forall t :: AgesWithin(saved, dirs, t) ==> AgesWithin(r.value.0, dirs, t)
    {
      var survey;
      survey, seen := Survey(now);
      if survey.Err? { return Err(survey.error), seen; }
      var (live, kept) := survey.value;
      var id := ChooseCandidate(live, kept, now, pressure, onTarget);
      r := Ok((live, id));
    }

    /** One deletion section of `_gc_locked`: reload, reconcile, decide, delete.  `seen` is the
        state it decides on. */
    method CollectOne(now: int, pressure: bool, onTarget: bool)
      returns (r: Result<Option<SnapshotId>, Stop>, ghost moved: set<SnapshotId>, ghost seen: State)
      requires Valid()
      modifies this`saved, this`dirs, this`trash, this`leases, this`pointer, this`clock
      ensures Valid() && Purged(old(leases), leases, now)
      ensures r.Ok? || moved != {} ==> Reconciles(config, old(saved), old(dirs), seen)
      // At most one directory goes, never one the mirror must keep, and the oldest of the others.
      ensures dirs == old(dirs) - moved
      ensures forall id :: id in moved ==>
                && id in old(dirs) && !Protected(config, old(saved), old(leases), now, id)
                && Oldest(config, seen, old(dirs), old(leases), now, id)
      // Without pressure, or on target, it is past the keep period or outside the newest
      // generations.
      ensures !(pressure && !onTarget) ==> forall id :: id in moved ==>
                id in seen.snapshots && InExcess(config, seen.snapshots, now, id)
      ensures r.Ok? ==> moved == if r.value.Some? then {r.value.value} else {}
      // It stops only with nothing overdue left, and under pressure with nothing unprotected.
      ensures r == Ok(None) ==> NothingDue(config, seen, old(dirs), old(leases), now, pressure && !onTarget)
      // What stays keeps its record, and only the deleted latest stops being it.
      ensures r.Ok? && r.value.Some? ==>
                && saved.snapshots.Keys == dirs.Keys
                && (forall x :: x in dirs ==> x in seen.snapshots && saved.snapshots[x] == seen.snapshots[x])
                && saved.latest == (if seen.latest == r.value then None else seen.latest)
      // It fails only for a lease from the future or a taken trash name.
      ensures r == Err(Rejected) ==>
                (exists t :: t in old(leases) && now < old(leases)[t].createdAt)
                    || (exists id :: (id, now) in old(trash))
      ensures old(Steady()) ==> r.Ok? || r == Err(Rejected)
      ensures saved.protections in {old(saved).protections, Unexpired(old(saved), now).protections}
      ensures forall t :: AgesWithin(old(saved), old(dirs), t) ==> AgesWithin(saved, dirs, t)
    {
      moved := {};
      var pick;
      pick, seen := Pick(now, pressure, onTarget);
      if pick.Err? { return Err(pick.error), moved, seen; }
      var (live, id) := pick.value;
      if id == None { return Ok(None), moved, seen; }
      var deletion;
      deletion, moved := DeleteSnapshot(live, id.value, now);
      r := if deletion.Ok? then Ok(id) else Err(deletion.error);
    }

    /** A canonical date names the latest snapshot if that carries it, else the only one. */
    method ResolveDate(st: State, date: Date) returns (id: Option<SnapshotId>)
      ensures id.Some? ==> Carries(st, id.value, date)
      ensures id.Some? ==> st.latest == id || forall x :: Carries(st, x, date) ==> x == id.value
      ensures id == None ==> forall x :: Carries(st, x, date) ==>
                st.latest != Some(x) && exists y :: y != x && Carries(st, y, date)
    {
      var matches := set x | x in st.snapshots && Carries(st, x, date);
      assert forall x :: x in matches <==> Carries(st, x, date);
      if st.latest.Some? && st.latest.value in matches { return st.latest; }
      if |matches| == 1 {
        var only :| only in matches;
        assert |matches - {only}| == 0;
        assert forall x :: x in matches && x != only ==> x in matches - {only};
        return Some(only);
      }
      forall x | x in matches ensures exists y :: y != x && Carries(st, y, date) {
        assert |matches - {x}| == |matches| - 1 > 0;
        var y :| y in matches - {x};
      }
      id := None;
    }

    /** The part of `reserve` after the snapshot is known to be reservable. */
    method Acquire(id: SnapshotId, owner: string, architecture: string, now: int) returns (r: Result<Lease, Denial>)
      requires Valid() && IsPublished(saved, id)
      modifies this`leases, this`clock
      ensures Valid()
      ensures r.Ok? ==>
                var token := Token(owner, architecture, id);
                && token in leases && leases[token] == r.value
                // Taking the same lease again neither changes nor extends it.
                && (if token in old(leases) && now < old(leases)[token].expiresAt
                    then r.value == old(leases)[token]
                    else r.value == Lease(token, id, owner, architecture, now, now + config.reservationTtl))
                && (Purged(old(leases), leases, now) || Purged(old(leases), leases - {token}, now))
      ensures !r.Ok? ==> Purged(old(leases), leases, now)
      ensures |LiveIds(old(leases), now)| <= config.maxReserved ==> |LiveIds(leases, now)| <= config.maxReserved
      ensures r == Err(CapacityBlocked) ==>
                id !in LiveIds(old(leases), now) && config.maxReserved <= |LiveIds(old(leases), now)|
      ensures r == Err(Unsafe) ==> exists t :: t in old(leases) && now < old(leases)[t].createdAt
      ensures r.Err? ==> r.error in {Died, Unsafe, CapacityBlocked}
      ensures old(Steady()) ==> r != Err(Died)
    {
      var token := Token(owner, architecture, id);
      ghost var before := leases;
      var active := ActiveReservations(now);
      LivePurged(before, leases, now);
      PurgeConsistent(config, saved, dirs, before, leases, now);
      if active.Err? { return Err(if active.error == Interrupted then Died else Unsafe); }
      if token in leases { return Ok(leases[token]); }
      var distinct := set t | t in leases :: leases[t].snapshotId;
      assert distinct == LiveIds(leases, now);
      if id !in distinct && |distinct| >= config.maxReserved { return Err(CapacityBlocked); }
      var lease := Lease(token, id, owner, architecture, now, now + config.reservationTtl);
      var alive := Proceed();
      if !alive { return Err(Died); }
      ConsistentWithLease(config, saved, dirs, leases, lease);
      LiveWithLease(leases, lease, now);
      leases := leases[token := lease];
      r := Ok(lease);
    }

    method Reserve(snapshot: Option<SnapshotId>, date: Option<Date>, owner: string, architecture: string, now: int)
      returns (r: Result<Lease, Denial>)
      requires Valid()
      modifies this`leases, this`clock
      ensures Valid()
      ensures r.Ok? ==>
                && IsPublished(saved, r.value.snapshotId) && r.value.snapshotId in dirs
                && architecture in dirs[r.value.snapshotId].architectures
                && (snapshot.Some? ==> r.value.snapshotId == snapshot.value)
                && (date.Some? ==> Carries(saved, r.value.snapshotId, date.value))
                // Without a name the choice is forced: the latest one, or the only match.
                && (snapshot == None && saved.latest != Some(r.value.snapshotId) ==>
                      date.Some? && forall x :: Carries(saved, x, date.value) ==> x == r.value.snapshotId)
      ensures r.Ok? ==>
                var token := Token(owner, architecture, r.value.snapshotId);
                && token in leases && leases[token] == r.value && now < r.value.expiresAt
                && (if token in old(leases) && now < old(leases)[token].expiresAt then r.value == old(leases)[token]
                    else r.value.createdAt == now && r.value.expiresAt == now + config.reservationTtl)
                && Purged(old(leases) - {token}, leases - {token}, now)
      ensures r.Err? ==> Purged(old(leases), leases, now)
      // Whoever asks for a reservable snapshot gets it, unless a process dies, a lease comes
      // from the future or too many snapshots are reserved.
      ensures old(Steady()) && r.Err? ==>
                || (exists t :: t in old(leases) && now < old(leases)[t].createdAt)
                || (r == Err(CapacityBlocked) && config.maxReserved <= |LiveIds(old(leases), now)|)
                || architecture !in config.architectures
                || forall x :: !Reservable(saved, dirs, snapshot, date, architecture, x)
      ensures |LiveIds(old(leases), now)| <= config.maxReserved ==> |LiveIds(leases, now)| <= config.maxReserved
    {
      if (snapshot == None && date == None) || architecture !in config.architectures { return Err(NotFound); }
      var st := LoadState();
      var id := snapshot;
      if id == None {
        id := ResolveDate(st.value, date.value);
        if id == None { return Err(NotFound); }
      }
      if !IsPublished(st.value, id.value) || id.value !in dirs { return Err(NotReservable); }
      if date.Some? && date.value !in st.value.snapshots[id.value].canonicalDates { return Err(NotReservable); }
      if architecture !in dirs[id.value].architectures { return Err(NotReservable); }
      r := Acquire(id.value, owner, architecture, now);
      PurgedWithout(old(leases), leases, Token(owner, architecture, id.value), now);
    }

    method ReleaseLease(token: Token, owner: string) returns (r: Result<bool, Denial>)
      requires Valid()
      modifies this`leases, this`clock
      ensures Valid()
      ensures r.Ok? ==> r.value == (token in old(leases)) && leases == old(leases) - {token}
      ensures r.Err? ==> leases == old(leases)
      ensures old(Steady()) ==> (r.Ok? <==> token !in old(leases) || old(leases)[token].owner == owner)
      // Only the owner of a lease can give it back.
      ensures leases != old(leases) ==> token in old(leases) && old(leases)[token].owner == owner
    {
      if token !in leases {
        assert leases - {token} == leases;
        return Ok(false);
      }
      if leases[token].owner != owner || leases[token].token != token { return Err(Unsafe); }
      var alive := Proceed();
      if !alive { return Err(Died); }
      leases := leases - {token};
      r := Ok(true);
    }

    /** First management section of a sync: protect the snapshot it reads from. */
    method BeginSync(id: SnapshotId, run: string, now: int) returns (r: Result<bool, Stop>)
      requires Valid()
      modifies this`saved, this`clock
      ensures Valid() && r != Err(Rejected)
      ensures r.Err? ==> saved == old(saved)
      ensures r.Ok? ==> r.value == IsPublished(old(saved), id)
      ensures r.Ok? ==> var source := if r.value then Some(id) else old(saved).latest;
                        && saved == old(saved).(protections := saved.protections)
                        && saved.protections - {run} == old(saved).protections - {run}
                        && (source.Some? ==>
                              && Protected(config, saved, leases, now, source.value)
                              && run in saved.protections && saved.protections[run] ==
                                 Protection(source.value, now, now + config.syncTimeout + 900))
      ensures old(Steady()) ==> r.Ok?
    {
      var st := LoadState();
      var present := IsPublished(st.value, id) && id in dirs;
      var source := if present then Some(id) else st.value.latest;
      var next := st.value;
      if source.Some? {
        var protection := Protection(source.value, now, now + config.syncTimeout + 900);
        next := next.(protections := next.protections[run := protection]);
        assert next.protections[run] == protection;
      }
      PublishedSame(config, st.value, next);
      var alive := SaveState(next);
      r := if alive then Ok(present) else Err(Interrupted);
    }

    /** `save_state`, then `publish_latest_metadata`. */
    method SaveAndAnnounce(st: State, id: SnapshotId) returns (r: Result<(), Stop>)
      modifies this`saved, this`pointer, this`clock
      ensures r.Ok? ==> pointer == Some(id)
      ensures r == if fate(old(clock)) && fate(old(clock) + 1) then Ok(()) else Err(Interrupted)
      ensures saved == if fate(old(clock)) then st else old(saved)
      ensures clock == old(clock) + if fate(old(clock)) then 2 else 1
    {
      var alive := SaveState(st);
      if !alive { return Err(Interrupted); }
      alive := Proceed();
      if !alive { return Err(Interrupted); }
      pointer := Some(id);
      r := Ok(());
    }

    /** The upstream archive is the one already published: refresh its record. */
    method FinishUnchanged(id: SnapshotId, date: Date, run: string, now: int) returns (r: Result<(), Stop>)
      requires Valid()
      requires id.year == config.activeYear && date.year == config.activeYear
      modifies this`saved, this`pointer, this`clock
      ensures r == Err(Rejected) <==> !IsPublished(old(saved), id)
      ensures saved != old(saved) ==>
                && IsPublished(old(saved), id) && saved.latest == Some(id)
                && saved.snapshots == old(saved).snapshots[id := old(saved).snapshots[id].(
                     canonicalDates := old(saved).snapshots[id].canonicalDates + {date}, lastVerifiedAt := Some(now))]
                && saved.protections == old(saved).protections - {run}
      ensures r.Ok? ==>
                && saved.latest == Some(id) && pointer == Some(id) && id in saved.snapshots
                && saved.snapshots[id].lastVerifiedAt == Some(now)
                && saved.snapshots[id].canonicalDates == old(saved).snapshots[id].canonicalDates + {date}
      ensures old(Steady()) && r != Err(Rejected) ==> r.Ok?
      // The written file loads again exactly when the clock has not run backwards.
      ensures r.Ok? ==> (LoadOk(config, saved) <==> old(saved).snapshots[id].publishedAt <= now)
      ensures saved == old(saved) || old(saved).snapshots[id].publishedAt <= now ==> Valid()
      ensures forall t :: AgesWithin(old(saved), dirs, t) ==> AgesWithin(saved, dirs, t)
    {
      var st := LoadState();
      if !IsPublished(st.value, id) { return Err(Rejected); }
      var record := st.value.snapshots[id];
      var refreshed := record.(canonicalDates := record.canonicalDates + {date}, lastVerifiedAt := Some(now));
      var next := State(Some(id), st.value.snapshots[id := refreshed], st.value.protections - {run});
      RefreshConsistent(config, st.value, dirs, leases, id, date, run, now);
      r := SaveAndAnnounce(next, id);
    }

    /** The rename of the completed staging directory. */
    method MoveIntoPlace(m: Manifest, id: SnapshotId, run: string) returns (alive: bool)
      requires id !in dirs
      modifies this`dirs, this`staging, this`clock
      ensures alive == fate(old(clock)) && clock == old(clock) + 1
      ensures alive ==> dirs == old(dirs)[id := m] && dirs - {id} == old(dirs) && staging == old(staging) - {run}
      ensures !alive ==> dirs == old(dirs) && staging == old(staging)
    {
      alive := Proceed();
      if alive { dirs, staging := dirs[id := m], staging - {run}; }
    }

    /** Publication: rename the completed staging directory, then record it. */
    method Publish(id: SnapshotId, date: Date, architectures: set<string>, run: string, now: int)
      returns (r: Result<(), Stop>)
      requires Valid()
      requires id.year == config.activeYear && date.year == config.activeYear
      modifies this`saved, this`dirs, this`staging, this`pointer, this`clock
      ensures Valid()
      ensures staging == if dirs == old(dirs) then old(staging) else old(staging) - {run}
      ensures r == Err(Rejected) <==> id in old(dirs) || id in old(saved).snapshots
      ensures r == Err(Rejected) ==> saved == old(saved) && dirs == old(dirs)
      // An existing directory is never replaced, and the record follows the directory.
      ensures dirs == old(dirs)
                || (id !in old(dirs) && id in dirs && dirs - {id} == old(dirs) && Adoptable(id, dirs[id]))
      ensures saved == old(saved) || (id in dirs && saved == PublishedState(old(saved), id, date, run, now))
      ensures r.Ok? ==> saved == PublishedState(old(saved), id, date, run, now) && pointer == Some(id)
      ensures old(Steady()) && r != Err(Rejected) ==> r.Ok?
      // A death before the second write leaves the directory alone.
      ensures r != Err(Rejected) && fate(old(clock)) ==> dirs != old(dirs)
      ensures r != Err(Rejected) && fate(old(clock)) && !fate(old(clock) + 1) ==>
                r == Err(Interrupted) && saved == old(saved) && clock == old(clock) + 2
      // The directory says what the record will say, should nobody be left to write it.
      ensures dirs != old(dirs) ==> id in dirs && dirs[id] == Manifest(id, id.year, now, date, architectures, true)
      ensures forall t :: AgesWithin(old(saved), old(dirs), t) && now <= t ==> AgesWithin(saved, dirs, t)
    {
      var st := LoadState();
      if id in dirs || id in st.value.snapshots { return Err(Rejected); }
      var alive := MoveIntoPlace(Manifest(id, id.year, now, date, architectures, true), id, run);
      if !alive { return Err(Interrupted); }
      var next := PublishedState(st.value, id, date, run, now);
      PublishConsistent(config, st.value, old(dirs), leases, id, dirs[id], next.snapshots[id], run);
      r := SaveAndAnnounce(next, id);
    }

    /** The error path of a sync gives its protection back. */
    method AbandonSync(run: string) returns (r: Result<(), Stop>)
      requires Valid()
      modifies this`saved, this`clock
      ensures Valid() && r != Err(Rejected)
      ensures saved == old(saved) || saved == old(saved).(protections := old(saved).protections - {run})
      ensures r.Ok? ==> run !in saved.protections
      ensures old(Steady()) ==> r.Ok?
    {
      var st := LoadState();
      var next := st.value.(protections := st.value.protections - {run});
      PublishedSame(config, st.value, next);
      var alive := SaveState(next);
      r := if alive then Ok(()) else Err(Interrupted);
    }
  }

  /** A snapshot is published, and an attempt whose clock is behind finds it unchanged: the
      state file it writes is rejected from then on. */
  method ClockRunsBack(config: Config, id: SnapshotId, date: Date, publishedAt: int, startedAt: int)
    returns (published: Result<(), Stop>, refreshed: Result<(), Stop>, reloaded: Result<State, Stop>)
    requires ValidConfig(config) && id.year == config.activeYear && date.year == config.activeYear
    ensures published.Ok? && refreshed.Ok?
    ensures startedAt < publishedAt <==> reloaded == Err(Rejected)
  {
    var m := new Store(config, k => true);
    published := m.Publish(id, date, config.architectures, "first", publishedAt);
    refreshed := m.FinishUnchanged(id, date, "second", startedAt);
    reloaded := m.LoadState();
  }

  /** A refreshed snapshot is found under the date of the refresh as well. */
  method RefreshedDateIsReservable(config: Config, id: SnapshotId, first: Date, second: Date, owner: string,
                                   architecture: string, times: (int, int, int))
    returns (lease: Result<Lease, Denial>)
    requires ValidConfig(config) && architecture in config.architectures && times.0 <= times.1
    requires id.year == first.year == second.year == config.activeYear
    ensures lease.Ok? && lease.value.snapshotId == id && lease.value.owner == owner
    ensures lease.value.createdAt == times.2 && lease.value.expiresAt == times.2 + config.reservationTtl
  {
    var m := new Store(config, k => true);
    var published := m.Publish(id, first, config.architectures, "first", times.0);
    var refreshed := m.FinishUnchanged(id, second, "second", times.1);
    assert Reservable(m.saved, m.dirs, None, Some(second), architecture, id);
    lease := m.Reserve(None, Some(second), owner, architecture, times.2);
  }

  /** A sync that dies between the rename and the record. */
  method DyingPublish(config: Config, id: SnapshotId, date: Date, now: int)
    returns (m: Store, published: Result<(), Stop>)
    requires ValidConfig(config) && id.year == date.year == config.activeYear
    ensures fresh(m) && m.Valid() && m.Steady() && m.config == config && published == Err(Interrupted)
    ensures m.saved == State(None, map[], map[]) && m.leases == map[] && m.staging == map[]
    ensures m.dirs == map[id := Manifest(id, id.year, now, date, config.architectures, true)]
  {
    m := new Store(config, k => k != 1);
    published := m.Publish(id, date, config.architectures, "sync", now);
    assert m.dirs - {id} == map[] && m.dirs.Keys == {id};
  }

  /** A snapshot whose sync died before recording it is taken over by the next collection, and
      is then found under its date. */
  method AdoptedSnapshotIsReservable(config: Config, id: SnapshotId, date: Date, owner: string, architecture: string,
                                     times: (int, int, int))
    returns (published: Result<(), Stop>, collected: Result<(), Stop>, lease: Result<Lease, Denial>)
    requires ValidConfig(config) && architecture in config.architectures
    requires id.year == date.year == config.activeYear
    ensures published == Err(Interrupted) && collected.Ok?
    ensures lease.Ok? && lease.value.snapshotId == id && lease.value.architecture == architecture
  {
    var m;
    m, published := DyingPublish(config, id, date, times.0);
    collected := m.RecoverSection(times.1, false);
    assert Reservable(m.saved, m.dirs, None, Some(date), architecture, id);
    lease := m.Reserve(None, Some(date), owner, architecture, times.2);
  }

  /** A sync that dies between making its staging directory and writing the marker stops every
      later collection that no sync is running beside, whenever it comes, until somebody
      removes the directory. */
  method DeathStopsCollections(config: Config, run: string, startedAt: int, times: seq<int>)
    returns (began: Result<(), Stop>, collections: seq<Result<(), Stop>>)
    requires ValidConfig(config)
    ensures began == Err(Interrupted) && |collections| == |times|
    ensures forall i :: 0 <= i < |times| ==> collections[i] == Err(Rejected)
  {
    var m := new Store(config, k => k != 1);
    began := m.OpenStaging(run, startedAt);
    collections := [];
    for i := 0 to |times|
      invariant m.Valid() && m.Steady() && |collections| == i
      invariant run in m.staging && m.staging[run] == None
      invariant forall k :: 0 <= k < i ==> collections[k] == Err(Rejected)
    {
      assert Stops(m.saved.protections, m.stagingTrash, run, m.staging[run], times[i]);
      assert Blocked(m.staging, m.saved.protections, m.stagingTrash, times[i]);
      var r := m.RecoverSection(times[i], false);
      collections := collections + [r];
    }
  }

  /** Neither marking nor forgetting a snapshot makes anything newer. */
  lemma DeletionKeepsAges(st: State, id: SnapshotId, dirs: map<SnapshotId, Manifest>, left: map<SnapshotId, Manifest>)
    requires id in st.snapshots && left.Keys <= dirs.Keys && forall x :: x in left ==> left[x] == dirs[x]
    ensures forall t :: AgesWithin(st, dirs, t) ==> AgesWithin(Marked(st, id), left, t)
    ensures forall t :: AgesWithin(st, dirs, t) ==> AgesWithin(Dropped(st, id), left, t)
  {
  }

  /** What the record of a publication says. */
  lemma PublishedStateMeans(st: State, id: SnapshotId, date: Date, run: string, now: int)
    ensures var st' := PublishedState(st, id, date, run, now);
            && IsPublished(st', id) && st'.latest == Some(id)
            && st'.snapshots - {id} == st.snapshots - {id} && st'.protections == st.protections - {run}
            && st'.snapshots[id].publishedAt == now && st'.snapshots[id].lastVerifiedAt == Some(now)
            && st'.snapshots[id].canonicalDate == date && st'.snapshots[id].canonicalDates == {date}
  {
  }

  /** Changing protections alone changes neither what is published nor what is active. */
  lemma PublishedSame(cfg: Config, st: State, st': State)
    requires st' == st.(protections := st'.protections)
    ensures forall id :: IsPublished(st', id) == IsPublished(st, id) && IsActive(cfg, st', id) == IsActive(cfg, st, id)
  {
  }

  lemma RefreshConsistent(cfg: Config, st: State, dirs: map<SnapshotId, Manifest>, leases: map<Token, Lease>,
                          id: SnapshotId, date: Date, run: string, now: int)
    requires Consistent(cfg, st, dirs, leases) && IsPublished(st, id)
    requires id.year == cfg.activeYear && date.year == cfg.activeYear
    ensures var r := st.snapshots[id].(canonicalDates := st.snapshots[id].canonicalDates + {date},
              lastVerifiedAt := Some(now));
            var st' := State(Some(id), st.snapshots[id := r], st.protections - {run});
            if st.snapshots[id].publishedAt <= now then Consistent(cfg, st', dirs, leases) else !LoadOk(cfg, st')
  {
    var r := st.snapshots[id].(canonicalDates := st.snapshots[id].canonicalDates + {date}, lastVerifiedAt := Some(now));
    var st' := State(Some(id), st.snapshots[id := r], st.protections - {run});
    assert st'.snapshots[id] == r;
    forall x ensures IsPublished(st', x) == IsPublished(st, x) { }
  }

  lemma PublishConsistent(cfg: Config, st: State, dirs: map<SnapshotId, Manifest>, leases: map<Token, Lease>,
                          id: SnapshotId, m: Manifest, r: Record, run: string)
    requires Consistent(cfg, st, dirs, leases) && id !in dirs && id !in st.snapshots
    requires id.year == cfg.activeYear && Adoptable(id, m) && RecordOk(id, r) && r.status == Published
    ensures Consistent(cfg, st, dirs[id := m], leases)
    ensures Consistent(cfg, State(Some(id), st.snapshots[id := r], st.protections - {run}), dirs[id := m], leases)
  {
    var st' := State(Some(id), st.snapshots[id := r], st.protections - {run});
    forall x | x != id ensures IsPublished(st', x) == IsPublished(st, x) { }
    assert IsPublished(st', id);
  }

  lemma LivePurged(before: map<Token, Lease>, after: map<Token, Lease>, now: int)
    requires Purged(before, after, now)
    ensures LiveIds(before, now) == LiveIds(after, now)
  {
    assert forall t :: t in before && now < before[t].expiresAt ==> t in after;
  }

  lemma ConsistentWithLease(cfg: Config, st: State, dirs: map<SnapshotId, Manifest>, leases: map<Token, Lease>,
                            lease: Lease)
    requires Consistent(cfg, st, dirs, leases) && LeaseOk(lease.token, lease) && IsPublished(st, lease.snapshotId)
    ensures Consistent(cfg, st, dirs, leases[lease.token := lease])
  {
  }

  lemma LiveWithLease(leases: map<Token, Lease>, lease: Lease, now: int)
    requires lease.token !in leases && now < lease.expiresAt
    ensures var more := leases[lease.token := lease];
            && LiveIds(more, now) == LiveIds(leases, now) + {lease.snapshotId}
            && more - {lease.token} == leases
            && (lease.snapshotId in LiveIds(leases, now) ==> LiveIds(more, now) == LiveIds(leases, now))
            && (lease.snapshotId !in LiveIds(leases, now) ==> |LiveIds(more, now)| == |LiveIds(leases, now)| + 1)
  {
    var more := leases[lease.token := lease];
    assert lease.token in more;
    forall t | t in leases ensures t in more && more[t] == leases[t] { }
  }

  lemma PurgedWithout(before: map<Token, Lease>, after: map<Token, Lease>, token: Token, now: int)
    requires Purged(before, after, now) || Purged(before, after - {token}, now)
    ensures Purged(before - {token}, after - {token}, now)
  {
  }

  lemma PurgeConsistent(cfg: Config, st: State, dirs: map<SnapshotId, Manifest>, before: map<Token, Lease>,
                        after: map<Token, Lease>, now: int)
    requires Consistent(cfg, st, dirs, before) && Purged(before, after, now)
    ensures Consistent(cfg, st, dirs, after)
  {
  }

  lemma UnexpiredConsistent(cfg: Config, st: State, dirs: map<SnapshotId, Manifest>, leases: map<Token, Lease>,
                            now: int)
    requires Consistent(cfg, st, dirs, leases)
    ensures Consistent(cfg, Unexpired(st, now), dirs, leases)
  {
    var st' := Unexpired(st, now);
    forall id ensures IsPublished(st', id) == IsPublished(st, id) && IsActive(cfg, st', id) == IsActive(cfg, st, id) { }
  }

  lemma PurgeProtects(cfg: Config, st: State, before: map<Token, Lease>, after: map<Token, Lease>, now: int)
    requires Purged(before, after, now)
    ensures forall id :: Protected(cfg, st, before, now, id) <==> Protected(cfg, st, after, now, id)
  {
    assert forall t :: t in before && now < before[t].expiresAt ==> t in after;
  }

  /** Whatever the loaded state protects, the reconciled one with purged leases protects. */
  lemma KeptIsProtected(cfg: Config, st: State, fixed: State, dirs: map<SnapshotId, Manifest>,
                        before: map<Token, Lease>, after: map<Token, Lease>, now: int, id: SnapshotId)
    requires Consistent(cfg, st, dirs, before) && Reconciles(cfg, st, dirs, fixed) && Purged(before, after, now)
    requires !Protected(cfg, fixed, after, now, id)
    ensures !Protected(cfg, st, before, now, id)
  {
    ReconcileRestores(cfg, st, dirs, before, fixed);
    assert forall t :: t in before && now < before[t].expiresAt ==> t in after;
  }
}
