/** Upload tickets are used once (`claimNonce`, `extendNonceClaim`, `consumeNonce`,
    `releaseNonce` in packages/database/src/index.ts, and the same statements on
    `source_upload_nonces`).

    One row of the table; every operation is one guarded UPDATE whose change count decides
    its outcome.  Times stand for the ISO timestamps the statements compare. */
module UploadNonces {
  import opened Wrappers

  datatype Status = Unused | Claimed | Consumed | Released | Expired

  datatype Row = Row(jobId: string, state: Status, owner: Option<string>, claimExpiresAt: Option<int>, expiresAt: int)

  datatype Op =
    | Claim(jobId: string, owner: string, until: int, at: int)
    | Extend(owner: string, until: int, at: int)
    | Consume(owner: string, at: int)
    | Release(owner: string, at: int)

  /** This owner's claim is in force. */
  predicate Holds(r: Row, owner: string, at: int) {
    r.state == Claimed && r.owner == Some(owner) && r.claimExpiresAt.Some? && r.claimExpiresAt.value > at
  }

  predicate Succeeds(r: Row, op: Op) {
    match op
    case Claim(jobId, _, _, at) => r.jobId == jobId && r.state in {Unused, Released} && r.expiresAt > at
    case Extend(owner, _, at) => Holds(r, owner, at)
    case Consume(owner, at) => Holds(r, owner, at)
    case Release(owner, at) => Holds(r, owner, at)
  }

  function After(r: Row, op: Op): Row {
    if !Succeeds(r, op) then r
    else match op
         case Claim(_, owner, until, _) => r.(state := Claimed, owner := Some(owner), claimExpiresAt := Some(until))
         case Extend(_, until, _) => r.(claimExpiresAt := Some(until))
         case Consume(_, _) => r.(state := Consumed, claimExpiresAt := None)
         case Release(_, _) => r.(state := Released, owner := None, claimExpiresAt := None)
  }

  /** Any history of operations by any owners, at any times. */
  ghost predicate Run(rows: seq<Row>, ops: seq<Op>) {
    |rows| == |ops| + 1 && forall k :: 0 <= k < |ops| ==> rows[k + 1] == After(rows[k], ops[k])
  }

  /** Between these two points only extensions succeed. */
  ghost predicate Undisputed(rows: seq<Row>, ops: seq<Op>, i: nat, j: nat)
    requires |rows| == |ops| + 1 && j <= |ops|
  {
    forall k :: i < k < j && Succeeds(rows[k], ops[k]) ==> ops[k].Extend?
  }

  /** The claim at `i` succeeded for this owner, and up to `n` only extensions did since. */
  ghost predicate HolderSince(rows: seq<Row>, ops: seq<Op>, i: nat, n: nat, owner: string) {
    && |rows| == |ops| + 1 && i < n <= |ops|
    && ops[i].Claim? && ops[i].owner == owner && Succeeds(rows[i], ops[i])
    && Undisputed(rows, ops, i, n)
  }

  /** The claim at `i` was given back by its owner. */
  ghost predicate ReleasedSince(rows: seq<Row>, ops: seq<Op>, i: nat)
    requires |rows| == |ops| + 1 && i < |ops| && ops[i].Claim?
  {
    exists k :: i < k < |ops| && ops[k].Release? && Succeeds(rows[k], ops[k]) && ops[k].owner == ops[i].owner
  }

  ghost predicate AllReleased(rows: seq<Row>, ops: seq<Op>) {
    && |rows| == |ops| + 1
    && forall i :: 0 <= i < |ops| && ops[i].Claim? && Succeeds(rows[i], ops[i]) ==> ReleasedSince(rows, ops, i)
  }

  lemma LongerRun(rows: seq<Row>, ops: seq<Op>, op: Op)
    requires Run(rows, ops)
    ensures Run(rows + [After(rows[|ops|], op)], ops + [op])
  {
  }

  /** A claimed row was claimed by its owner, and nobody claimed, released or consumed it
      since. */
  lemma {:induction false} LatestClaim(rows: seq<Row>, ops: seq<Op>, j: nat) returns (i: nat)
    requires Run(rows, ops) && rows[0].state == Unused && j <= |ops| && rows[j].state == Claimed
    ensures i < j && ops[i].Claim? && Succeeds(rows[i], ops[i]) && rows[j].owner == Some(ops[i].owner)
    ensures Undisputed(rows, ops, i, j)
    decreases j
  {
    i := j - 1;
    assert rows[j] == After(rows[i], ops[i]);
    if !(ops[i].Claim? && Succeeds(rows[i], ops[i])) {
      i := LatestClaim(rows, ops, j - 1);
    }
  }

  /** Only the owner of the latest claim consumes a nonce, while that claim is in force. */
  lemma ConsumerHoldsLatestClaim(rows: seq<Row>, ops: seq<Op>, j: nat) returns (i: nat)
    requires Run(rows, ops) && rows[0].state == Unused && j < |ops| && ops[j].Consume? && Succeeds(rows[j], ops[j])
    ensures i < j && ops[i].Claim? && Succeeds(rows[i], ops[i]) && ops[i].owner == ops[j].owner
    ensures Undisputed(rows, ops, i, j) && Holds(rows[j], ops[i].owner, ops[j].at)
  {
    i := LatestClaim(rows, ops, j);
  }

  /** A consumed nonce never changes again; in particular it is consumed at most once. */
  lemma {:induction false} ConsumedForever(rows: seq<Row>, ops: seq<Op>, i: nat, j: nat)
    requires Run(rows, ops) && i < j <= |ops| && ops[i].Consume? && Succeeds(rows[i], ops[i])
    ensures rows[j] == rows[i + 1] && rows[j].state == Consumed
    ensures j < |ops| ==> !Succeeds(rows[j], ops[j])
    decreases j - i
  {
    if i + 1 < j {
      ConsumedForever(rows, ops, i, j - 1);
    }
  }

  /** A claimed row that is free again was released by its claimant. */
  lemma ReleaseBetween(rows: seq<Row>, ops: seq<Op>, i: nat, j: nat) returns (k: nat)
    requires Run(rows, ops) && i < j <= |ops| && ops[i].Claim? && Succeeds(rows[i], ops[i])
    requires rows[j].state in {Unused, Released}
    ensures i < k < j && ops[k].Release? && Succeeds(rows[k], ops[k]) && ops[k].owner == ops[i].owner
  {
    k := i + 1;
    while rows[k + 1].state == Claimed
      invariant i < k < j && rows[k].state == Claimed && rows[k].owner == Some(ops[i].owner)
      decreases j - k
    {
      assert rows[k + 1] == After(rows[k], ops[k]);
      assert k + 1 != j;
      k := k + 1;
    }
    if ops[k].Consume? && Succeeds(rows[k], ops[k]) {
      ConsumedForever(rows, ops, k, j);
    }
  }

  lemma FreeMeansReleased(rows: seq<Row>, ops: seq<Op>)
    requires Run(rows, ops) && rows[|ops|].state in {Unused, Released}
    ensures AllReleased(rows, ops)
  {
    forall i | 0 <= i < |ops| && ops[i].Claim? && Succeeds(rows[i], ops[i]) ensures ReleasedSince(rows, ops, i) {
      var k := ReleaseBetween(rows, ops, i, |ops|);
    }
  }

  /** And the other way round: a nonce all of whose claims were given back is free. */
  lemma ReleasedMeansFree(rows: seq<Row>, ops: seq<Op>)
    requires Run(rows, ops) && rows[0].state == Unused && AllReleased(rows, ops)
    ensures rows[|ops|].state in {Unused, Released}
  {
    var n := |ops|;
    if rows[n].state !in {Unused, Released} {
      var j := n;
      if rows[n].state != Claimed { j := Consumption(rows, ops, n); }
      var i := LatestClaim(rows, ops, j);
      assert ReleasedSince(rows, ops, i);
      var k :| i < k < n && ops[k].Release? && Succeeds(rows[k], ops[k]) && ops[k].owner == ops[i].owner;
      assert j <= k;
      if k > j { ConsumedForever(rows, ops, j, k); }
    }
  }

  /** A row that is neither free nor claimed was consumed. */
  lemma {:induction false} Consumption(rows: seq<Row>, ops: seq<Op>, n: nat) returns (j: nat)
    requires Run(rows, ops) && rows[0].state == Unused && n <= |ops|
    requires rows[n].state !in {Unused, Released, Claimed}
    ensures j < n && ops[j].Consume? && Succeeds(rows[j], ops[j]) && rows[j].state == Claimed
    decreases n
  {
    j := n - 1;
    assert rows[n] == After(rows[j], ops[j]);
    if rows[j].state !in {Unused, Released, Claimed} { j := Consumption(rows, ops, n - 1); }
  }

  /** The latest claimant has the row. */
  lemma {:induction false} HolderHas(rows: seq<Row>, ops: seq<Op>, i: nat, n: nat, owner: string)
    requires Run(rows, ops) && HolderSince(rows, ops, i, n, owner)
    ensures rows[n].state == Claimed && rows[n].owner == Some(owner) && rows[n].claimExpiresAt.Some?
    decreases n
  {
    assert rows[n] == After(rows[n - 1], ops[n - 1]);
    if i + 1 < n { HolderHas(rows, ops, i, n - 1, owner); }
  }

  lemma HoldsMeansHolder(rows: seq<Row>, ops: seq<Op>, owner: string, at: int)
    requires Run(rows, ops) && rows[0].state == Unused
    ensures var r := rows[|ops|];
            Holds(r, owner, at) <==>
            && (exists i :: HolderSince(rows, ops, i, |ops|, owner))
            && r.claimExpiresAt.Some? && at < r.claimExpiresAt.value
  {
    if i: nat :| HolderSince(rows, ops, i, |ops|, owner) { HolderHas(rows, ops, i, |ops|, owner); }
    if rows[|ops|].state == Claimed && rows[|ops|].owner == Some(owner) {
      var i := LatestClaim(rows, ops, |ops|);
      assert HolderSince(rows, ops, i, |ops|, owner);
    }
  }

  /** Two successful claims are separated by a release of the first one by its owner. */
  lemma ClaimsAreSeparated(rows: seq<Row>, ops: seq<Op>, i: nat, j: nat) returns (k: nat)
    requires Run(rows, ops) && i < j < |ops| && ops[i].Claim? && ops[j].Claim?
    requires Succeeds(rows[i], ops[i]) && Succeeds(rows[j], ops[j])
    ensures i < k < j && ops[k].Release? && Succeeds(rows[k], ops[k]) && ops[k].owner == ops[i].owner
  {
    k := ReleaseBetween(rows, ops, i, j);
  }

  lemma NotYetConsumed(rows: seq<Row>, ops: seq<Op>)
    requires Run(rows, ops) && rows[|ops|].state != Consumed
    ensures forall i :: 0 <= i < |ops| && ops[i].Consume? ==> !Succeeds(rows[i], ops[i])
  {
    forall i | 0 <= i < |ops| && ops[i].Consume? ensures !Succeeds(rows[i], ops[i]) {
      if Succeeds(rows[i], ops[i]) { ConsumedForever(rows, ops, i, |ops|); }
    }
  }

  /** A lapsed claim stays as it is, whoever tries what afterwards. */
  lemma {:induction false} LapsedIsFinal(rows: seq<Row>, ops: seq<Op>, i: nat, j: nat)
    requires Run(rows, ops) && i <= j <= |ops| && rows[i].state == Claimed
    requires rows[i].claimExpiresAt.Some? && forall k :: i <= k < j ==> rows[i].claimExpiresAt.value <= ops[k].at
    ensures rows[j] == rows[i]
    decreases j - i
  {
    if i < j {
      LapsedIsFinal(rows, ops, i, j - 1);
    }
  }

  /** One row and, as ghosts, its whole history: `rows[k]` is the row before `ops[k]`. */
  class NonceRow {
    var jobId: string
    var state: Status
    var claimOwner: Option<string>
    var claimExpiresAt: Option<int>
    var expiresAt: int
    ghost var rows: seq<Row>
    ghost var ops: seq<Op>

    function View(): Row
      reads this
    {
      Row(jobId, state, claimOwner, claimExpiresAt, expiresAt)
    }

    ghost predicate Valid()
      reads this
    {
      Run(rows, ops) && rows[0].state == Unused && rows[|ops|] == View()
    }

    /** This operation was the last one, and `changed` says whether it took effect. */
    twostate predicate Records(op: Op, changed: bool)
      reads this
    {
      && Valid() && |old(rows)| == |old(ops)| + 1
      && ops == old(ops) + [op] && rows == old(rows) + [View()]
      && changed == Succeeds(old(View()), op)
    }

    constructor (jobId: string, expiresAt: int)
      ensures Valid() && ops == [] && View() == Row(jobId, Unused, None, None, expiresAt)
    {
      this.jobId, this.expiresAt, state, claimOwner, claimExpiresAt := jobId, expiresAt, Unused, None, None;
      rows, ops := [Row(jobId, Unused, None, None, expiresAt)], [];
    }

    /** A claim succeeds exactly for the right job, on a ticket that has not expired, when every
        earlier claimant gave the nonce back. */
    method ClaimNonce(job: string, owner: string, claimUntil: int, timestamp: int) returns (changed: bool)
      requires Valid()
      modifies this
      ensures Records(Claim(job, owner, claimUntil, timestamp), changed)
      ensures changed <==> job == jobId && timestamp < expiresAt && AllReleased(old(rows), old(ops))
      ensures changed ==> HolderSince(rows, ops, |old(ops)|, |ops|, owner)
      ensures jobId == old(jobId) && expiresAt == old(expiresAt)
      ensures changed ==> forall t :: Holds(View(), owner, t) <==> t < claimUntil
      ensures !changed ==> View() == old(View())
    {
      ghost var op := Claim(job, owner, claimUntil, timestamp);
      LongerRun(rows, ops, op);
      if AllReleased(rows, ops) { ReleasedMeansFree(rows, ops); }
      changed := jobId == job && (state == Unused || state == Released) && expiresAt > timestamp;
      if changed {
        FreeMeansReleased(rows, ops);
        state, claimOwner, claimExpiresAt := Claimed, Some(owner), Some(claimUntil);
      }
      rows, ops := rows + [View()], ops + [op];
    }

    /** Only the latest claimant extends, and only a claim in force. */
    method ExtendNonceClaim(owner: string, timestamp: int, claimUntil: int) returns (changed: bool)
      requires Valid()
      modifies this`claimExpiresAt, this`rows, this`ops
      ensures Records(Extend(owner, claimUntil, timestamp), changed)
      ensures changed <==>
                && (exists i :: HolderSince(old(rows), old(ops), i, |old(ops)|, owner))
                && old(claimExpiresAt).Some? && timestamp < old(claimExpiresAt).value
      ensures changed ==> forall t :: Holds(View(), owner, t) <==> t < claimUntil
      ensures !changed ==> View() == old(View())
    {
      ghost var op := Extend(owner, claimUntil, timestamp);
      LongerRun(rows, ops, op);
      changed := Holds(View(), owner, timestamp);
      HoldsMeansHolder(rows, ops, owner, timestamp);
      if changed {
        claimExpiresAt := Some(claimUntil);
      }
      rows, ops := rows + [View()], ops + [op];
    }

    /** Only the latest claimant consumes, only a claim in force, and only once. */
    method ConsumeNonce(owner: string, timestamp: int) returns (changed: bool)
      requires Valid()
      modifies this`state, this`claimExpiresAt, this`rows, this`ops
      ensures Records(Consume(owner, timestamp), changed)
      ensures changed <==>
                && (exists i :: HolderSince(old(rows), old(ops), i, |old(ops)|, owner))
                && old(claimExpiresAt).Some? && timestamp < old(claimExpiresAt).value
      ensures changed ==> forall i :: 0 <= i < |old(ops)| && old(ops)[i].Consume? ==>
                !Succeeds(old(rows)[i], old(ops)[i])
      ensures !changed ==> View() == old(View())
    {
      ghost var op := Consume(owner, timestamp);
      LongerRun(rows, ops, op);
      changed := Holds(View(), owner, timestamp);
      HoldsMeansHolder(rows, ops, owner, timestamp);
      if changed {
        NotYetConsumed(rows, ops);
        state, claimExpiresAt := Consumed, None;
      }
      rows, ops := rows + [View()], ops + [op];
    }

    /** Only the latest claimant gives the nonce back; then every claim before is released. */
    method ReleaseNonce(owner: string, timestamp: int) returns (changed: bool)
      requires Valid()
      modifies this`state, this`claimOwner, this`claimExpiresAt, this`rows, this`ops
      ensures Records(Release(owner, timestamp), changed)
      ensures changed <==>
                && (exists i :: HolderSince(old(rows), old(ops), i, |old(ops)|, owner))
                && old(claimExpiresAt).Some? && timestamp < old(claimExpiresAt).value
      ensures changed ==> AllReleased(rows, ops) && forall o, t :: !Holds(View(), o, t)
      ensures !changed ==> View() == old(View())
    {
      ghost var op := Release(owner, timestamp);
      LongerRun(rows, ops, op);
      changed := Holds(View(), owner, timestamp);
      HoldsMeansHolder(rows, ops, owner, timestamp);
      if changed {
        state, claimOwner, claimExpiresAt := Released, None, None;
      }
      rows, ops := rows + [View()], ops + [op];
      if changed { FreeMeansReleased(rows, ops); }
    }
  }
}
