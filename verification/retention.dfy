/** Names of published snapshots (`ID_RE`, `make_snapshot_id`): the year is part of the
    name, the rest identifies database, installer and selection. */
module SnapshotNames {

  datatype SnapshotId = SnapshotId(year: int, digest: nat)
}

/** The snapshot retention policy of the TeX Live mirror
    (`delete_candidates` and the loop of `_gc_locked` in
    deploy/texlive-mirror/texlive_mirror.py).

    A run deletes one snapshot, looks at the disk again, and decides afresh.  The list
    is kept newest first, as the source sorts it; times are seconds. */
module Retention {
  import opened SnapshotNames

  datatype Snapshot = Snapshot(id: SnapshotId, publishedAt: int)

  /** `keep_generations`, and the instant `keep_hours` before the run's clock. */
  datatype Policy = Policy(keep: nat, cutoff: int)

  predicate Before(l: seq<Snapshot>, i: nat, j: nat)
    requires i < j < |l|
  {
    l[j].publishedAt <= l[i].publishedAt && l[i].id != l[j].id
  }

  /** Newest first, every snapshot once. */
  predicate Listing(l: seq<Snapshot>) {
    forall i, j :: 0 <= i < j < |l| ==> Before(l, i, j)
  }

  /** Whether the snapshot in this position may be deleted without capacity pressure. */
  predicate Excess(p: Policy, l: seq<Snapshot>, i: nat)
    requires i < |l|
  {
    l[i].publishedAt < p.cutoff || p.keep <= i
  }

  /** Unprotected snapshots, oldest first. */
  function Unprotected(l: seq<Snapshot>, kept: set<SnapshotId>): seq<SnapshotId> {
    if l == [] then [] else
      var n := |l| - 1;
      (if l[n].id in kept then [] else [l[n].id]) + Unprotected(l[..n], kept)
  }

  /** Those past the keep period or outside the newest generations, oldest first. */
  function Normal(p: Policy, l: seq<Snapshot>, kept: set<SnapshotId>): seq<SnapshotId> {
    if l == [] then [] else
      var n := |l| - 1;
      (if l[n].id in kept || !Excess(p, l, n) then [] else [l[n].id]) + Normal(p, l[..n], kept)
  }

  /** The remaining unprotected ones, deleted under pressure only. */
  function Extra(p: Policy, l: seq<Snapshot>, kept: set<SnapshotId>): seq<SnapshotId> {
    if l == [] then [] else
      var n := |l| - 1;
      (if l[n].id in kept || Excess(p, l, n) then [] else [l[n].id]) + Extra(p, l[..n], kept)
  }

  function Without(l: seq<Snapshot>, id: SnapshotId): seq<Snapshot> {
    if l == [] then []
    else if l[|l| - 1].id == id then l[..|l| - 1]
    else Without(l[..|l| - 1], id) + [l[|l| - 1]]
  }

  lemma UnfoldAt(p: Policy, l: seq<Snapshot>, kept: set<SnapshotId>, i: nat)
    requires i < |l|
    ensures Normal(p, l[..i + 1], kept) ==
            (if l[i].id in kept || !Excess(p, l, i) then [] else [l[i].id]) + Normal(p, l[..i], kept)
    ensures Extra(p, l[..i + 1], kept) ==
            (if l[i].id in kept || Excess(p, l, i) then [] else [l[i].id]) + Extra(p, l[..i], kept)
  {
    assert l[..i + 1][..i] == l[..i];
  }

  function WithoutAll(l: seq<Snapshot>, ids: seq<SnapshotId>): seq<Snapshot> {
    if ids == [] then l else Without(WithoutAll(l, ids[..|ids| - 1]), ids[|ids| - 1])
  }

  lemma ShiftHead(all: seq<SnapshotId>, done: seq<SnapshotId>, left: seq<SnapshotId>, id: SnapshotId,
                  later: seq<SnapshotId>)
    requires all == done + left && left == [id] + later
    ensures all == (done + [id]) + later
  {
  }

  /** What examining one more snapshot adds to the two lists. */
  lemma CandidateStep(p: Policy, l: seq<Snapshot>, kept: set<SnapshotId>, i: nat, normal: seq<SnapshotId>,
                      extra: seq<SnapshotId>)
    requires i < |l|
    ensures (normal + if l[i].id !in kept && Excess(p, l, i) then [l[i].id] else []) + Normal(p, l[..i], kept)
            == normal + Normal(p, l[..i + 1], kept)
    ensures (extra + if l[i].id !in kept && !Excess(p, l, i) then [l[i].id] else []) + Extra(p, l[..i], kept)
            == extra + Extra(p, l[..i + 1], kept)
  {
    UnfoldAt(p, l, kept, i);
  }

  method DeleteCandidates(p: Policy, published: seq<Snapshot>, kept: set<SnapshotId>, pressure: bool)
    returns (candidates: seq<SnapshotId>)
    ensures candidates == Normal(p, published, kept) + if pressure then Extra(p, published, kept) else []
  {
    var normal: seq<SnapshotId>, extra: seq<SnapshotId> := [], [];
    var i := |published|;
    assert published[..i] == published;
    ghost var allNormal, allExtra := Normal(p, published, kept), Extra(p, published, kept);
    while i > 0
      invariant 0 <= i <= |published|
      invariant allNormal == normal + Normal(p, published[..i], kept)
      invariant if pressure then allExtra == extra + Extra(p, published[..i], kept) else extra == []
    {
      i := i - 1;
      CandidateStep(p, published, kept, i, normal, extra);
      var s := published[i];
      if s.id !in kept {
        if s.publishedAt < p.cutoff || i >= p.keep {
          normal := normal + [s.id];
        } else if pressure {
          extra := extra + [s.id];
        }
      }
    }
    candidates := normal + extra;
  }

  lemma ListingPrefix(l: seq<Snapshot>, n: nat)
    requires Listing(l) && n <= |l|
    ensures Listing(l[..n])
  {
    forall i, j | 0 <= i < j < n ensures Before(l[..n], i, j) { assert Before(l, i, j); }
  }

  /** If the oldest unprotected snapshot may stay, no snapshot is in excess. */
  lemma {:induction false} NothingNormal(p: Policy, l: seq<Snapshot>, kept: set<SnapshotId>, cut: nat)
    requires Listing(l) && cut < |l| && !Excess(p, l, cut)
    ensures Normal(p, l[..cut + 1], kept) == [] && Extra(p, l[..cut + 1], kept) == Unprotected(l[..cut + 1], kept)
    decreases cut
  {
    assert l[..cut + 1][..cut] == l[..cut];
    if cut > 0 {
      assert Before(l, cut - 1, cut);
      NothingNormal(p, l, kept, cut - 1);
    }
  }

  /** Excess is downward closed: the unprotected list is the excess ones followed by the
      others, so deleting in candidate order is deleting oldest first. */
  lemma {:induction false} NormalThenExtra(p: Policy, l: seq<Snapshot>, kept: set<SnapshotId>)
    requires Listing(l)
    ensures Unprotected(l, kept) == Normal(p, l, kept) + Extra(p, l, kept)
    decreases |l|
  {
    if l != [] {
      var n := |l| - 1;
      if Excess(p, l, n) {
        ListingPrefix(l, n);
        NormalThenExtra(p, l[..n], kept);
      } else {
        assert l[..n + 1] == l;
        NothingNormal(p, l, kept, n);
      }
    }
  }

  lemma {:induction false} WithoutAt(l: seq<Snapshot>, k: nat)
    requires Listing(l) && k < |l|
    ensures Without(l, l[k].id) == l[..k] + l[k + 1..]
    decreases |l|
  {
    var n := |l| - 1;
    if k < n {
      assert Before(l, k, n);
      ListingPrefix(l, n);
      WithoutAt(l[..n], k);
      assert l[..n][..k] + l[..n][k + 1..] + [l[n]] == l[..k] + l[k + 1..];
    }
  }

  lemma WithoutIsListing(l: seq<Snapshot>, k: nat)
    requires Listing(l) && k < |l|
    ensures Listing(l[..k] + l[k + 1..])
  {
    var rest := l[..k] + l[k + 1..];
    forall i, j | 0 <= i < j < |rest| ensures Before(rest, i, j) {
      assert Before(l, if i < k then i else i + 1, if j < k then j else j + 1);
    }
  }

  lemma WithoutMembers(l: seq<Snapshot>, k: nat)
    requires Listing(l) && k < |l|
    ensures var rest := l[..k] + l[k + 1..];
            forall s :: s in rest <==> s in l && s.id != l[k].id
  {
    var rest := l[..k] + l[k + 1..];
    forall s | s in rest ensures s in l && s.id != l[k].id {
      var i :| 0 <= i < |rest| && rest[i] == s;
      assert if i < k then Before(l, i, k) else Before(l, k, i + 1);
    }
    forall s | s in l && s.id != l[k].id ensures s in rest {
      var i :| 0 <= i < |l| && l[i] == s;
      assert if i < k then rest[i] == s else rest[i - 1] == s;
    }
  }

  lemma {:induction false} ProtectedTail(p: Policy, l: seq<Snapshot>, kept: set<SnapshotId>, k: nat)
    requires k <= |l| && forall i :: k <= i < |l| ==> l[i].id in kept
    ensures Normal(p, l, kept) == Normal(p, l[..k], kept) && Unprotected(l, kept) == Unprotected(l[..k], kept)
    decreases |l|
  {
    var n := |l| - 1;
    if k <= n {
      ProtectedTail(p, l[..n], kept, k);
      assert l[..n][..k] == l[..k];
    } else {
      assert l[..k] == l;
    }
  }

  lemma {:induction false} OldestUnprotected(l: seq<Snapshot>, kept: set<SnapshotId>) returns (k: nat)
    requires Unprotected(l, kept) != []
    ensures k < |l| && l[k].id !in kept && Unprotected(l, kept)[0] == l[k].id
    ensures forall i :: k < i < |l| ==> l[i].id in kept
    decreases |l|
  {
    k := |l| - 1;
    if l[k].id in kept {
      k := OldestUnprotected(l[..|l| - 1], kept);
    }
  }

  /** Deleting the oldest unprotected snapshot promotes nothing into excess: the other
      unprotected snapshots keep their standing. */
  lemma RemoveOldest(p: Policy, l: seq<Snapshot>, kept: set<SnapshotId>)
    requires Listing(l) && Unprotected(l, kept) != []
    ensures var id := Unprotected(l, kept)[0];
            var rest := Without(l, id);
            && |rest| == |l| - 1 && Listing(rest)
            && Unprotected(l, kept) == [id] + Unprotected(rest, kept)
            && |Normal(p, rest, kept)| == if Normal(p, l, kept) == [] then 0 else |Normal(p, l, kept)| - 1
  {
    var k := OldestUnprotected(l, kept);
    WithoutIsListing(l, k);
    WithoutAt(l, k);
    var rest := l[..k] + l[k + 1..];
    ProtectedTail(p, l, kept, k + 1);
    assert rest[..k] == l[..k];
    ProtectedTail(p, rest, kept, k);
    UnfoldAt(p, l, kept, k);
    assert l[..k + 1][..k] == l[..k];
    if !Excess(p, l, k) {
      NothingNormal(p, l, kept, k);
    }
  }

  datatype Capacity = Capacity(start: nat, target: nat, peak: nat, reserve: nat)

  predicate Pressed(c: Capacity, usage: nat) {
    c.start <= usage || c.peak < usage + c.reserve
  }

  predicate OnTarget(c: Capacity, usage: nat) {
    usage <= c.target && usage + c.reserve <= c.peak
  }

  /** Pressure starts at the threshold or when the reserve does not fit; it is off only at or
      below the target with the reserve fitting. */
  lemma PressureMeans(c: Capacity, usage: nat)
    ensures !Pressed(c, usage) <==> usage < c.start && usage + c.reserve <= c.peak
    ensures !OnTarget(c, usage) <==> c.target < usage || c.peak < usage + c.reserve
  {
  }

  /** Whether the first size or one of the first `n` readings of the loop showed pressure. */
  ghost predicate EverPressed(c: Capacity, before: nat, usage: nat -> nat, n: nat) {
    Pressed(c, before) || exists k: nat :: k < n && Pressed(c, usage(k))
  }

  lemma NextReading(c: Capacity, before: nat, usage: nat -> nat, n: nat)
    ensures EverPressed(c, before, usage, n + 1) <==> EverPressed(c, before, usage, n) || Pressed(c, usage(n))
  {
  }

  /** The loop goes beyond the excess only under pressure and off target. */
  ghost predicate Driven(c: Capacity, usage: nat -> nat, excess: nat, n: nat) {
    forall k: nat :: excess <= k < n ==> !OnTarget(c, usage(k))
  }

  /** What the deletion loop has achieved after some iterations. */
  ghost predicate Progress(p: Policy, published: seq<Snapshot>, kept: set<SnapshotId>, deleted: seq<SnapshotId>,
                           rest: seq<Snapshot>) {
    && Listing(rest)
    && Unprotected(published, kept) == deleted + Unprotected(rest, kept)
    && rest == WithoutAll(published, deleted)
    && |Normal(p, rest, kept)| ==
       if |deleted| <= |Normal(p, published, kept)| then |Normal(p, published, kept)| - |deleted| else 0
  }

  lemma Advance(p: Policy, published: seq<Snapshot>, kept: set<SnapshotId>, deleted: seq<SnapshotId>,
                rest: seq<Snapshot>)
    requires Progress(p, published, kept, deleted, rest) && Unprotected(rest, kept) != []
    ensures var id := Unprotected(rest, kept)[0];
            Progress(p, published, kept, deleted + [id], Without(rest, id)) && |Without(rest, id)| < |rest|
  {
    var id := Unprotected(rest, kept)[0];
    RemoveOldest(p, rest, kept);
    ShiftHead(Unprotected(published, kept), deleted, Unprotected(rest, kept), id, Unprotected(Without(rest, id), kept));
    assert WithoutAll(published, deleted + [id]) == Without(rest, id) by {
      assert (deleted + [id])[..|deleted|] == deleted;
    }
  }

  lemma Finished(p: Policy, published: seq<Snapshot>, kept: set<SnapshotId>, deleted: seq<SnapshotId>,
                 rest: seq<Snapshot>)
    requires Listing(published) && Progress(p, published, kept, deleted, rest) && Normal(p, rest, kept) == []
    ensures Normal(p, published, kept) <= deleted
    ensures |deleted| <= |Normal(p, published, kept)| ==> deleted == Normal(p, published, kept)
  {
    NormalThenExtra(p, published, kept);
    var all, normal := Unprotected(published, kept), Normal(p, published, kept);
    assert deleted == all[..|deleted|] && normal == all[..|normal|];
  }

  /** The candidate lists decide on the oldest unprotected snapshot. */
  lemma FirstCandidate(p: Policy, l: seq<Snapshot>, kept: set<SnapshotId>)
    requires Listing(l)
    ensures Normal(p, l, kept) != [] ==> Unprotected(l, kept) != [] && Normal(p, l, kept)[0] == Unprotected(l, kept)[0]
    ensures Normal(p, l, kept) + Extra(p, l, kept) == Unprotected(l, kept)
  {
    NormalThenExtra(p, l, kept);
  }

  lemma {:induction false} NormalIsExcess(p: Policy, l: seq<Snapshot>, kept: set<SnapshotId>) returns (i: nat)
    requires Normal(p, l, kept) != []
    ensures i < |l| && l[i].id == Normal(p, l, kept)[0] && l[i].id !in kept && Excess(p, l, i)
    decreases |l|
  {
    i := |l| - 1;
    if l[i].id in kept || !Excess(p, l, i) {
      i := NormalIsExcess(p, l[..i], kept);
    }
  }

  lemma {:induction false} NoneInExcess(p: Policy, l: seq<Snapshot>, kept: set<SnapshotId>, i: nat)
    requires Normal(p, l, kept) == [] && i < |l| && l[i].id !in kept
    ensures !Excess(p, l, i)
    decreases |l|
  {
    if i < |l| - 1 { NoneInExcess(p, l[..|l| - 1], kept, i); }
  }

  /** The ids of the newest snapshots. */
  function Newest(l: seq<Snapshot>, n: nat): set<SnapshotId>
    requires n <= |l|
  {
    set i | 0 <= i < n :: l[i].id
  }

  lemma {:induction false} NewestCount(l: seq<Snapshot>, n: nat)
    requires Listing(l) && n <= |l|
    ensures |Newest(l, n)| == n
    decreases n
  {
    if n > 0 {
      NewestCount(l, n - 1);
      forall i | 0 <= i < n - 1 ensures l[i].id != l[n - 1].id { assert Before(l, i, n - 1); }
      assert Newest(l, n) == Newest(l, n - 1) + {l[n - 1].id};
    }
  }

  /** One decision of the loop: nothing to delete, or the snapshot to delete now. */
  method Decide(p: Policy, rest: seq<Snapshot>, kept: set<SnapshotId>, pressure: bool, onTarget: bool)
    returns (candidates: seq<SnapshotId>)
    requires Listing(rest)
    ensures candidates == [] <==>
              Normal(p, rest, kept) == [] && (!pressure || onTarget || Unprotected(rest, kept) == [])
    ensures candidates != [] ==> Unprotected(rest, kept) != [] && candidates[0] == Unprotected(rest, kept)[0]
    ensures candidates != [] && !(pressure && !onTarget) ==>
              Normal(p, rest, kept) != [] && candidates[0] == Normal(p, rest, kept)[0]
  {
    FirstCandidate(p, rest, kept);
    candidates := DeleteCandidates(p, rest, kept, false);
    if candidates == [] && pressure && !onTarget {
      candidates := DeleteCandidates(p, rest, kept, true);
    }
  }

  /** One round of the loop: the oldest unprotected snapshot goes, or nothing does.  Beyond the
      excess it goes only under pressure and off target. */
  method DeleteNext(p: Policy, ghost published: seq<Snapshot>, kept: set<SnapshotId>, deleted: seq<SnapshotId>,
                    rest: seq<Snapshot>, pressure: bool, onTarget: bool)
    returns (more: bool, deleted': seq<SnapshotId>, rest': seq<Snapshot>)
    requires Progress(p, published, kept, deleted, rest)
    ensures Progress(p, published, kept, deleted', rest')
    ensures more ==> |deleted'| == |deleted| + 1 && |rest'| < |rest|
    ensures more && |Normal(p, published, kept)| <= |deleted| ==> pressure && !onTarget
    ensures !more ==> deleted' == deleted && rest' == rest && Normal(p, rest, kept) == []
    ensures !more ==> !pressure || onTarget || Unprotected(rest, kept) == []
  {
    deleted', rest' := deleted, rest;
    var candidates := Decide(p, rest, kept, pressure, onTarget);
    more := candidates != [];
    if more {
      Advance(p, published, kept, deleted, rest);
      deleted', rest' := deleted + [candidates[0]], Without(rest, candidates[0]);
    }
  }

  /** The deletion loop with protections and clock fixed.  `usage(k)` is the managed size
      read after k deletions, whatever it may be; `before` is the size at the start. */
  method DeletionLoop(p: Policy, c: Capacity, published: seq<Snapshot>, kept: set<SnapshotId>, before: nat,
                      usage: nat -> nat)
    returns (deleted: seq<SnapshotId>, rest: seq<Snapshot>, pressure: bool)
    requires Listing(published)
    // Only unprotected snapshots go, oldest first and with no gap.
    ensures Progress(p, published, kept, deleted, rest)
    // Everything in excess at the start goes; without pressure nothing else does.
    ensures Normal(p, published, kept) <= deleted
    ensures !pressure ==> deleted == Normal(p, published, kept)
    ensures pressure <==> EverPressed(c, before, usage, |deleted| + 1)
    // Under pressure it stops only on target or with nothing unprotected left, and never
    // deletes anything beyond the excess once it is on target.
    ensures pressure ==> OnTarget(c, usage(|deleted|)) || Unprotected(rest, kept) == []
    ensures Driven(c, usage, |Normal(p, published, kept)|, |deleted|)
  {
    deleted, rest := [], published;
    ghost var excess := |Normal(p, published, kept)|;
    pressure := Pressed(c, before);
    while true
      invariant Progress(p, published, kept, deleted, rest)
      invariant excess < |deleted| ==> pressure
      invariant pressure <==> EverPressed(c, before, usage, |deleted|)
      invariant Driven(c, usage, excess, |deleted|)
      decreases |rest|
    {
      var current := usage(|deleted|);
      NextReading(c, before, usage, |deleted|);
      pressure := pressure || Pressed(c, current);
      var more;
      more, deleted, rest := DeleteNext(p, published, kept, deleted, rest, pressure, OnTarget(c, current));
      if !more { break; }
    }
    Finished(p, published, kept, deleted, rest);
  }

  lemma {:induction false} MembersAreUnprotected(l: seq<Snapshot>, kept: set<SnapshotId>)
    ensures forall id :: id in Unprotected(l, kept) <==> id !in kept && exists s :: s in l && s.id == id
    decreases |l|
  {
    if l != [] {
      var n := |l| - 1;
      MembersAreUnprotected(l[..n], kept);
      assert l == l[..n] + [l[n]];
    }
  }

  lemma SameId(l: seq<Snapshot>, x: Snapshot, y: Snapshot)
    requires Listing(l) && x in l && y in l && x.id == y.id
    ensures x == y
  {
    var i :| 0 <= i < |l| && l[i] == x;
    var j :| 0 <= j < |l| && l[j] == y;
    assert i == j || if i < j then Before(l, i, j) else Before(l, j, i);
  }

  lemma InFront(l: seq<Snapshot>, kept: set<SnapshotId>, x: Snapshot)
    requires Listing(l) && l != [] && x in l && x.id in Unprotected(l[..|l| - 1], kept)
    ensures x in l[..|l| - 1]
  {
    var front := l[..|l| - 1];
    MembersAreUnprotected(front, kept);
    var s :| s in front && s.id == x.id;
    assert s in l;
    SameId(l, s, x);
  }

  lemma {:induction false} OldestFirst(l: seq<Snapshot>, kept: set<SnapshotId>, i: nat, j: nat, x: Snapshot,
                                       y: Snapshot)
    requires Listing(l) && i < j < |Unprotected(l, kept)|
    requires x in l && y in l && x.id == Unprotected(l, kept)[i] && y.id == Unprotected(l, kept)[j]
    ensures x.publishedAt <= y.publishedAt
    decreases |l|
  {
    var n := |l| - 1;
    var u := Unprotected(l[..n], kept);
    ListingPrefix(l, n);
    if l[n].id in kept {
      assert u[i] in u && u[j] in u;
      InFront(l, kept, x);
      InFront(l, kept, y);
      OldestFirst(l[..n], kept, i, j, x, y);
    } else if i == 0 {
      SameId(l, x, l[n]);
      var k :| 0 <= k < |l| && l[k] == y;
      assert k == n || Before(l, k, n);
    } else {
      assert u[i - 1] in u && u[j - 1] in u;
      InFront(l, kept, x);
      InFront(l, kept, y);
      OldestFirst(l[..n], kept, i - 1, j - 1, x, y);
    }
  }

  /** No deleted snapshot is newer than an unprotected survivor. */
  lemma DeletedNotNewer(p: Policy, published: seq<Snapshot>, kept: set<SnapshotId>,
                        deleted: seq<SnapshotId>, rest: seq<Snapshot>, x: Snapshot, y: Snapshot)
    requires Listing(published) && Progress(p, published, kept, deleted, rest)
    requires x in published && y in published && x.id in deleted && y.id in Unprotected(rest, kept)
    ensures x.publishedAt <= y.publishedAt
  {
    var i :| 0 <= i < |deleted| && deleted[i] == x.id;
    var k :| 0 <= k < |Unprotected(rest, kept)| && Unprotected(rest, kept)[k] == y.id;
    OldestFirst(published, kept, i, |deleted| + k, x, y);
  }

  /** What is left after deleting some listed snapshots one by one. */
  lemma {:induction false} Survivors(l: seq<Snapshot>, ids: seq<SnapshotId>)
    requires Listing(l)
    ensures Listing(WithoutAll(l, ids))
    ensures forall s :: s in WithoutAll(l, ids) <==> s in l && s.id !in ids
    decreases |ids|
  {
    if ids != [] {
      var m := |ids| - 1;
      Survivors(l, ids[..m]);
      var before := WithoutAll(l, ids[..m]);
      assert ids == ids[..m] + [ids[m]];
      if k: nat :| k < |before| && before[k].id == ids[m] {
        WithoutAt(before, k);
        WithoutIsListing(before, k);
        WithoutMembers(before, k);
      } else {
        WithoutAbsent(before, ids[m]);
      }
    }
  }

  lemma {:induction false} WithoutAbsent(l: seq<Snapshot>, id: SnapshotId)
    requires forall k :: 0 <= k < |l| ==> l[k].id != id
    ensures Without(l, id) == l
    decreases |l|
  {
    if l != [] {
      WithoutAbsent(l[..|l| - 1], id);
    }
  }
}
