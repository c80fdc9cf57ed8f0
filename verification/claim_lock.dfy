/** Mutual exclusion from uniquely named claim directories
    (`acquire` in packages/client-core/src/artifact-transaction.ts).

    Any number of callers, in any number of processes, take one file operation at a
    time.  A process may be killed between two operations and its process id may be
    reused; a claim name (process id and UUID) never is. */
module ClaimLock {

  datatype Caller = Caller(pid: nat, uuid: nat)

  /** Where the inspection of one listed name stands: after `stat`, after `kill(pid, 0)`. */
  datatype Focus = Idle | Present(other: Caller) | Condemned(other: Caller)

  datatype Phase =
    | Claimed
    | Inspecting(pending: set<Caller>, focus: Focus)
    | Holding
    | Leaving
    | Gone

  /** `log` records which caller performed each file operation under the lock. */
  datatype State = State(
    claims: set<Caller>,
    phases: map<Caller, Phase>,
    live: set<nat>,
    dead: set<Caller>,
    log: seq<Caller>)

  datatype Action =
    | Spawn(pid: nat)
    | Die(pid: nat)
    | Claim(caller: Caller)
    | List(caller: Caller)
    | GiveUp(caller: Caller)
    | Stat(caller: Caller, other: Caller)
    | Probe(caller: Caller)
    | Remove(caller: Caller)
    | Enter(caller: Caller)
    | Operate(caller: Caller)
    | Release(caller: Caller)

  predicate Running(s: State, c: Caller) {
    c in s.phases && s.phases[c] != Gone && c !in s.dead
  }

  predicate Holds(s: State, c: Caller) {
    Running(s, c) && s.phases[c] == Holding
  }

  function Move(s: State, c: Caller, p: Phase): State {
    s.(phases := s.phases[c := p])
  }

  predicate Enabled(s: State, a: Action) {
    match a
    case Spawn(pid) => pid !in s.live
    case Die(pid) => pid in s.live
    case Claim(c) => c !in s.phases && c.pid in s.live
    case List(c) => Running(s, c) && s.phases[c] == Claimed
    case GiveUp(c) => Running(s, c) && (s.phases[c] == Claimed || s.phases[c].Inspecting?)
    case Stat(c, d) => Running(s, c) && s.phases[c].Inspecting? && s.phases[c].focus == Idle && d in s.phases[c].pending
    case Probe(c) => Running(s, c) && s.phases[c].Inspecting? && s.phases[c].focus.Present?
    case Remove(c) => Running(s, c) && s.phases[c].Inspecting? && s.phases[c].focus.Condemned?
    case Enter(c) => Running(s, c) && s.phases[c] == Inspecting({}, Idle)
    case Operate(c) => Holds(s, c)
    case Release(c) => Running(s, c) && (s.phases[c] == Holding || s.phases[c] == Leaving)
  }

  function Apply(s: State, a: Action): State
    requires Enabled(s, a)
  {
    match a
    case Spawn(pid) => s.(live := s.live + {pid})
    case Die(pid) => s.(live := s.live - {pid}, dead := s.dead + set c | c in s.phases && c.pid == pid)
    case Claim(c) => Move(s, c, Claimed).(claims := s.claims + {c})
    case List(c) => Move(s, c, Inspecting(s.claims - {c}, Idle))
    case GiveUp(c) => Move(s, c, Leaving)
    case Stat(c, d) =>
      var p := s.phases[c];
      if d in s.claims then Move(s, c, p.(focus := Present(d))) else Move(s, c, p.(pending := p.pending - {d}))
    case Probe(c) =>
      var d := s.phases[c].focus.other;
      if d.pid in s.live then Move(s, c, Leaving) else Move(s, c, s.phases[c].(focus := Condemned(d)))
    case Remove(c) =>
      var d := s.phases[c].focus.other;
      Move(s, c, Inspecting(s.phases[c].pending - {d}, Idle)).(claims := s.claims - {d})
    case Enter(c) => Move(s, c, Holding)
    case Operate(c) => s.(log := s.log + [c])
    case Release(c) => Move(s, c, Gone).(claims := s.claims - {c})
  }

  /** States and actions of one run, starting on an empty control directory. */
  ghost predicate Run(states: seq<State>, actions: seq<Action>) {
    && |states| == |actions| + 1
    && states[0] == State({}, map[], {}, {}, [])
    && forall i :: 0 <= i < |actions| ==>
         Enabled(states[i], actions[i]) && states[i + 1] == Apply(states[i], actions[i])
  }

  /** A caller past its listing, and the listed names it has not cleared yet. */
  predicate Listed(s: State, c: Caller) {
    Running(s, c) && (s.phases[c].Inspecting? || s.phases[c] == Holding)
  }

  function Pending(s: State, c: Caller): set<Caller>
    requires Listed(s, c)
  {
    if s.phases[c].Inspecting? then s.phases[c].pending else {}
  }

  /** A running caller's claim is on disk and its process exists, and nobody leaves a claim
      behind except by dying; whoever is about to be removed is gone for good. */
  ghost predicate ClaimsInv(s: State) {
    && s.claims <= s.phases.Keys
    && (forall c :: c in s.claims ==> s.phases[c] != Gone)
    && (forall c :: Running(s, c) ==> c in s.claims && c.pid in s.live)
    && (forall c :: Running(s, c) && s.phases[c].Inspecting? ==>
          && s.phases[c].pending <= s.phases.Keys
          && (s.phases[c].focus != Idle ==> s.phases[c].focus.other in s.phases)
          && (s.phases[c].focus.Condemned? ==> !Running(s, s.phases[c].focus.other)))
  }

  /** Of two callers past their listing, one still has the other ahead of it. */
  ghost predicate Ordered(s: State) {
    forall c, d :: Listed(s, c) && Listed(s, d) && c != d ==> d in Pending(s, c) || c in Pending(s, d)
  }

  /** The operations of the present holder are the last ones of the log, and nobody who
      has operated is still looking for the lock. */
  ghost predicate LogInv(s: State) {
    && (forall i, j :: 0 <= i <= j < |s.log| && Holds(s, s.log[i]) ==> s.log[j] == s.log[i])
    && (forall i :: 0 <= i < |s.log| && Running(s, s.log[i]) ==> s.phases[s.log[i]] in {Holding, Leaving})
    && (forall i :: 0 <= i < |s.log| ==> s.log[i] in s.phases)
  }

  /** Operations of one caller form one uninterrupted stretch of the log. */
  ghost predicate Serial(log: seq<Caller>) {
    forall i, j, k :: 0 <= i <= j <= k < |log| && log[i] == log[k] ==> log[j] == log[i]
  }

  ghost predicate Inv(s: State) {
    ClaimsInv(s) && Ordered(s) && LogInv(s) && Serial(s.log)
  }

  lemma StepKeepsClaims(s: State, a: Action)
    requires ClaimsInv(s) && Enabled(s, a)
    ensures ClaimsInv(Apply(s, a))
  {
  }

  lemma StepKeepsOrder(s: State, a: Action)
    requires ClaimsInv(s) && Ordered(s) && Enabled(s, a)
    ensures Ordered(Apply(s, a))
  {
    var s' := Apply(s, a);
    forall c, d | Listed(s', c) && Listed(s', d) && c != d
      ensures d in Pending(s', c) || c in Pending(s', d)
    {
      assert Running(s, c) && Running(s, d);
      assert Listed(s, c) || a == List(c);
      assert Listed(s, d) || a == List(d);
    }
  }

  lemma AtMostOneHolder(s: State, c: Caller, d: Caller)
    requires Ordered(s) && Holds(s, c) && Holds(s, d)
    ensures c == d
  {
    assert Listed(s, c) && Listed(s, d);
  }

  lemma OperateKeepsLog(s: State, h: Caller)
    requires Ordered(s) && LogInv(s) && Serial(s.log) && Holds(s, h)
    ensures LogInv(Apply(s, Operate(h))) && Serial(Apply(s, Operate(h)).log)
  {
    var s' := Apply(s, Operate(h));
    assert forall c :: Holds(s', c) ==> Holds(s, c);
    forall c | Holds(s, c) ensures c == h { AtMostOneHolder(s, h, c); }
    forall i, j, k | 0 <= i <= j <= k < |s'.log| && s'.log[i] == s'.log[k]
      ensures s'.log[j] == s'.log[i]
    {
      if k == |s.log| && j < k {
        assert s.log[i] == h && s.log[j] == s'.log[j];
      }
    }
  }

  lemma StepKeepsLog(s: State, a: Action)
    requires LogInv(s) && Enabled(s, a) && !a.Operate?
    ensures LogInv(Apply(s, a)) && Apply(s, a).log == s.log
  {
    var s' := Apply(s, a);
    forall i | 0 <= i < |s.log|
      ensures s.log[i] in s'.phases
      ensures Running(s', s.log[i]) ==> s'.phases[s.log[i]] in {Holding, Leaving}
      ensures Holds(s', s.log[i]) ==> Holds(s, s.log[i])
    {
      assert s.log[i] in s.phases;
    }
  }

  lemma {:induction false} RunKeepsInv(states: seq<State>, actions: seq<Action>)
    requires Run(states, actions)
    ensures Inv(states[|actions|])
    decreases |actions|
  {
    if actions != [] {
      var n := |actions| - 1;
      RunKeepsInv(states[..n + 1], actions[..n]);
      StepKeepsClaims(states[n], actions[n]);
      StepKeepsOrder(states[n], actions[n]);
      if actions[n].Operate? {
        OperateKeepsLog(states[n], actions[n].caller);
      } else {
        StepKeepsLog(states[n], actions[n]);
      }
    }
  }

  /** However many callers contend and die, at most one live caller holds the lock. */
  lemma MutualExclusion(states: seq<State>, actions: seq<Action>, c: Caller, d: Caller)
    requires Run(states, actions)
    requires Holds(states[|actions|], c) && Holds(states[|actions|], d)
    ensures c == d
  {
    RunKeepsInv(states, actions);
    AtMostOneHolder(states[|actions|], c, d);
  }

  /** File operations of different callers never interleave: between two operations of one
      caller nobody else operates.  This is why publications and recoveries may be studied
      as a sequence of (possibly cut short) calls. */
  lemma SessionsNeverInterleave(states: seq<State>, actions: seq<Action>, i: nat, j: nat, k: nat)
    requires Run(states, actions)
    requires i <= j <= k < |states[|actions|].log|
    requires states[|actions|].log[i] == states[|actions|].log[k]
    ensures states[|actions|].log[j] == states[|actions|].log[i]
  {
    RunKeepsInv(states, actions);
  }

  /** Releasing never fails: the caller's own claim is still there to be removed. */
  lemma ReleaseFindsClaim(states: seq<State>, actions: seq<Action>, c: Caller)
    requires Run(states, actions) && Running(states[|actions|], c)
    ensures c in states[|actions|].claims
  {
    RunKeepsInv(states, actions);
  }

  ghost predicate Steps(c: Caller, states: seq<State>, actions: seq<Action>) {
    && |states| == |actions| + 1
    && forall i :: 0 <= i < |actions| ==>
         !actions[i].Spawn? && !actions[i].Die? && actions[i].caller == c
         && Enabled(states[i], actions[i]) && states[i + 1] == Apply(states[i], actions[i])
  }

  ghost predicate AloneWith(s: State, c: Caller, pending: set<Caller>) {
    && Running(s, c) && s.phases[c] == Inspecting(pending, Idle)
    && s.claims == pending + {c} && c !in pending
    && forall d :: d in pending ==> d.pid !in s.live
  }

  lemma ClearDeadClaim(s: State, c: Caller, pending: set<Caller>, d: Caller) returns (states: seq<State>)
    requires AloneWith(s, c, pending) && d in pending
    ensures |states| == 4 && states[0] == s && Steps(c, states, [Stat(c, d), Probe(c), Remove(c)])
    ensures AloneWith(states[3], c, pending - {d})
  {
    var s1 := Apply(s, Stat(c, d));
    var s2 := Apply(s1, Probe(c));
    states := [s, s1, s2, Apply(s2, Remove(c))];
  }

  lemma StepsCompose(c: Caller, xs: seq<State>, first: seq<Action>, ys: seq<State>, second: seq<Action>)
    requires Steps(c, xs, first) && Steps(c, ys, second) && xs[|first|] == ys[0]
    ensures Steps(c, xs + ys[1..], first + second) && (xs + ys[1..])[|first + second|] == ys[|second|]
  {
    var states, actions := xs + ys[1..], first + second;
    forall i | 0 <= i < |actions|
      ensures !actions[i].Spawn? && !actions[i].Die? && actions[i].caller == c
      ensures Enabled(states[i], actions[i]) && states[i + 1] == Apply(states[i], actions[i])
    {
      if i < |first| {
        assert states[i] == xs[i] && states[i + 1] == xs[i + 1] && actions[i] == first[i];
      } else {
        var k := i - |first|;
        assert states[i] == ys[k] && states[i + 1] == ys[k + 1] && actions[i] == second[k];
      }
    }
  }

  lemma {:induction false} InspectionEnters(s: State, c: Caller, pending: set<Caller>)
    returns (states: seq<State>, actions: seq<Action>)
    requires AloneWith(s, c, pending)
    ensures Steps(c, states, actions) && states[0] == s
    ensures Holds(states[|actions|], c) && states[|actions|].claims == {c}
    decreases pending
  {
    if pending == {} {
      states, actions := [s, Apply(s, Enter(c))], [Enter(c)];
    } else {
      var d :| d in pending;
      var xs := ClearDeadClaim(s, c, pending, d);
      var first := [Stat(c, d), Probe(c), Remove(c)];
      var ys, second := InspectionEnters(xs[3], c, pending - {d});
      StepsCompose(c, xs, first, ys, second);
      states, actions := xs + ys[1..], first + second;
    }
  }

  /** A claim on disk belongs to a running caller or to one whose process died under it; a
      caller that gave the lock back, or gave up, has left none. */
  lemma ClaimsAreOpen(states: seq<State>, actions: seq<Action>, d: Caller)
    requires Run(states, actions) && d in states[|actions|].claims
    ensures var s := states[|actions|]; d in s.phases && s.phases[d] != Gone && (Running(s, d) || d in s.dead)
  {
    RunKeepsInv(states, actions);
  }

  /** The lock is free once everybody has released it or died, also while the processes of
      those that released it live on: a newcomer then gets it by its own steps. */
  lemma ReleasedLockIsFree(states: seq<State>, actions: seq<Action>, c: Caller)
    returns (next: seq<State>, steps: seq<Action>)
    requires Run(states, actions)
    requires var s := states[|actions|];
             && Running(s, c) && s.phases[c] == Claimed
             && forall d :: d in s.phases && d != c ==> s.phases[d] == Gone || d.pid !in s.live
    ensures Steps(c, next, steps) && next[0] == states[|actions|]
    ensures Holds(next[|steps|], c) && next[|steps|].claims == {c}
  {
    RunKeepsInv(states, actions);
    next, steps := CallerAmongDeadClaimsEnters(states[|actions|], c);
  }

  /** Nobody is stuck: a newcomer can claim, and every running caller can take a step that
      brings it closer to holding or to giving back the lock. */
  lemma EveryCallerMoves(s: State, c: Caller)
    ensures c !in s.phases && c.pid in s.live ==> Enabled(s, Claim(c))
    ensures Running(s, c) ==>
              match s.phases[c]
              case Claimed => Enabled(s, List(c)) && Enabled(s, GiveUp(c))
              case Inspecting(pending, focus) =>
                Enabled(s, GiveUp(c)) &&
                (if focus.Present? then Enabled(s, Probe(c))
                 else if focus.Condemned? then Enabled(s, Remove(c))
                 else if pending == {} then Enabled(s, Enter(c))
                 else forall d :: d in pending ==> Enabled(s, Stat(c, d)))
              case Holding => Enabled(s, Operate(c)) && Enabled(s, Release(c))
              case Leaving => Enabled(s, Release(c))
              case Gone => true
  {
  }

  /** A process starts, and its first caller takes the lock. */
  lemma FirstCallerHolds(c: Caller) returns (states: seq<State>, actions: seq<Action>)
    ensures Run(states, actions) && Holds(states[|actions|], c) && states[|actions|].claims == {c}
    ensures forall a :: a in actions ==> a == Spawn(c.pid) || (a.Claim? || a.List? || a.Enter?)
  {
    var s0 := State({}, map[], {}, {}, []);
    var s1 := Apply(s0, Spawn(c.pid));
    var s2 := Apply(s1, Claim(c));
    var s3 := Apply(s2, List(c));
    assert s2.claims - {c} == {};
    states, actions := [s0, s1, s2, s3, Apply(s3, Enter(c))], [Spawn(c.pid), Claim(c), List(c), Enter(c)];
  }

  /** Giving the lock back, or giving up, removes the caller's claim and nobody else's. */
  lemma ReleaseRemovesOwnClaim(states: seq<State>, actions: seq<Action>, i: nat, c: Caller)
    requires Run(states, actions) && i < |actions| && actions[i] == Release(c)
    ensures c in states[i].claims && states[i + 1].claims == states[i].claims - {c}
    ensures !Running(states[i + 1], c)
  {
    assert Enabled(states[i], actions[i]) && states[i + 1] == Apply(states[i], actions[i]);
    RunKeepsInv(states[..i + 1], actions[..i]);
  }

  /** A claim that vanished after the listing is passed over. */
  lemma VanishedClaimIsSkipped(s: State, c: Caller, d: Caller)
    requires Enabled(s, Stat(c, d)) && d !in s.claims
    ensures var s' := Apply(s, Stat(c, d));
            s'.phases[c] == Inspecting(s.phases[c].pending - {d}, Idle) && s'.claims == s.claims
  {
  }

  /** A caller is turned away for a claim only if the process of that claim exists. */
  lemma BusyMeansAlive(states: seq<State>, actions: seq<Action>, i: nat, c: Caller)
    requires Run(states, actions) && i < |actions| && actions[i] == Probe(c)
    requires states[i + 1].phases[c] == Leaving
    ensures var d := states[i].phases[c].focus.other; d in states[i].phases && d.pid in states[i].live
  {
    assert Enabled(states[i], actions[i]);
    RunKeepsInv(states[..i + 1], actions[..i]);
    assert Running(states[i], c);
  }

  /** The lock is not lost with its holders: a caller whose rivals' claims all belong to
      processes that no longer exist clears them and enters. */
  lemma CallerAmongDeadClaimsEnters(s: State, c: Caller) returns (states: seq<State>, actions: seq<Action>)
    requires ClaimsInv(s) && Running(s, c) && s.phases[c] == Claimed
    requires forall d :: d in s.claims && d != c ==> d.pid !in s.live
    ensures Steps(c, states, actions) && states[0] == s
    ensures Holds(states[|actions|], c) && states[|actions|].claims == {c}
  {
    var s1 := Apply(s, List(c));
    var rest, more := InspectionEnters(s1, c, s.claims - {c});
    states, actions := [s] + rest, [List(c)] + more;
  }
}
