/** Pending logins of the OpenID Connect client (`begin`, `callback`, `pruneFlows`,
    `consumeFlowStart`, `idleBlockedUntil` in packages/auth/src/oidc.ts).

    Calls overlap only where they await the provider: `begin` between its two checks,
    `callback` after it took its flow out.  Each method below is one stretch of code
    between awaits; the stretches run in any order.  States and client addresses stand for
    their hashes; times are milliseconds. */
module OidcFlows {
  import opened Wrappers
  import opened FixedWindow
  import opened WindowCounters

  const FLOW_LIFETIME := 5 * 60_000
  const WINDOW := 15 * 60_000
  const STARTS_PER_CLIENT := 20
  const CLIENTS := 10_000
  const PENDING := 1_000

  datatype Start = Continuing | Busy | RateLimited

  function LiveFlows(flows: map<string, int>, now: int): map<string, int> {
    map s | s in flows && now < flows[s] :: flows[s]
  }

  /** `order` is the insertion order of the windows: every key once, oldest window first. */
  ghost predicate InOrder(order: seq<string>, windows: Entries) {
    && (forall k :: k in order <==> k in windows)
    && (forall i, j :: 0 <= i < j < |order| ==> Earlier(order, windows, i, j))
  }

  predicate Earlier(order: seq<string>, windows: Entries, i: nat, j: nat)
    requires i < j < |order|
  {
    && order[i] != order[j]
    && (order[i] in windows && order[j] in windows ==>
         windows[order[i]].windowStartedAt <= windows[order[j]].windowStartedAt)
  }

  function Remaining(order: seq<string>, live: Entries): seq<string> {
    if order == [] then [] else
      var n := |order| - 1;
      Remaining(order[..n], live) + if order[n] in live then [order[n]] else []
  }

  lemma {:induction false} RemainingAre(order: seq<string>, live: Entries)
    ensures forall k :: k in Remaining(order, live) <==> k in order && k in live
    decreases |order|
  {
    if order != [] {
      var n := |order| - 1;
      RemainingAre(order[..n], live);
      assert order == order[..n] + [order[n]];
    }
  }

  lemma {:induction false} RemainingEarlier(order: seq<string>, windows: Entries, live: Entries)
    requires forall i, j :: 0 <= i < j < |order| ==> Earlier(order, windows, i, j)
    requires forall k :: k in live ==> k in windows && live[k].windowStartedAt == windows[k].windowStartedAt
    ensures forall i, j :: 0 <= i < j < |Remaining(order, live)| ==> Earlier(Remaining(order, live), live, i, j)
    decreases |order|
  {
    if order != [] {
      var n := |order| - 1;
      var front := order[..n];
      forall i, j | 0 <= i < j < n ensures Earlier(front, windows, i, j) { assert Earlier(order, windows, i, j); }
      RemainingEarlier(front, windows, live);
      RemainingAre(front, live);
      var rest, all := Remaining(front, live), Remaining(order, live);
      forall i, j | 0 <= i < j < |all| ensures Earlier(all, live, i, j) {
        if j < |rest| {
          assert Earlier(rest, live, i, j);
        } else {
          assert all[i] == rest[i] && rest[i] in front;
          var k :| 0 <= k < n && order[k] == rest[i];
          assert Earlier(order, windows, k, n);
        }
      }
    }
  }

  /** Every running window belongs to the oldest-first order, and the deadline covers it. */
  ghost predicate WindowsInv(windows: Entries, order: seq<string>, log: map<string, History>, last: int,
                             deadline: int) {
    && |windows| <= CLIENTS && InOrder(order, windows)
    && AllOk(windows, log, STARTS_PER_CLIENT, WINDOW, last)
    && (forall k :: k in windows ==>
         windows[k].windowStartedAt <= last && windows[k].windowStartedAt + WINDOW <= deadline)
  }

  lemma LaterInv(windows: Entries, order: seq<string>, log: map<string, History>, last: int, deadline: int, now: int,
                 deadline': int)
    requires WindowsInv(windows, order, log, last, deadline) && last <= now && deadline <= deadline'
    ensures WindowsInv(windows, order, log, now, deadline')
  {
    forall k ensures KeyOk(windows, log, STARTS_PER_CLIENT, WINDOW, now, k) {
      assert KeyOk(windows, log, STARTS_PER_CLIENT, WINDOW, last, k);
    }
  }

  lemma PrunedInv(windows: Entries, order: seq<string>, log: map<string, History>, last: int, deadline: int, now: int)
    requires WindowsInv(windows, order, log, last, deadline) && last <= now && |Live(windows, WINDOW, now)| <= |windows|
    ensures WindowsInv(Live(windows, WINDOW, now), Remaining(order, Live(windows, WINDOW, now)), log, now, deadline)
  {
    var live := Live(windows, WINDOW, now);
    PrunedOk(windows, log, STARTS_PER_CLIENT, WINDOW, last, now);
    RemainingAre(order, live);
    RemainingEarlier(order, windows, live);
  }

  /** The first key of the order has the oldest window. */
  lemma FirstIsOldest(order: seq<string>, windows: Entries)
    requires InOrder(order, windows) && windows != map[]
    ensures order != [] && Oldest(windows, order[0])
    ensures InOrder(order[1..], windows - {order[0]})
  {
    var k :| k in windows;
    assert k in order;
    var rest, others := order[1..], windows - {order[0]};
    assert order == [order[0]] + rest && order[0] in order;
    forall k | k in windows ensures windows[order[0]].windowStartedAt <= windows[k].windowStartedAt {
      var i :| 0 <= i < |order| && order[i] == k;
      assert i == 0 || Earlier(order, windows, 0, i);
    }
    forall i, j | 0 <= i < j < |rest| ensures Earlier(rest, others, i, j) {
      assert Earlier(order, windows, i + 1, j + 1);
    }
    forall k | k in rest ensures k in others {
      var i :| 0 <= i < |rest| && rest[i] == k;
      assert Earlier(order, windows, 0, i + 1) && k in order;
    }
  }

  lemma EvictedInv(windows: Entries, order: seq<string>, log: map<string, History>, last: int, deadline: int)
    requires WindowsInv(windows, order, log, last, deadline) && windows != map[]
    ensures order != [] && WindowsInv(windows - {order[0]}, order[1..], log - {order[0]}, last, deadline)
    ensures Oldest(windows, order[0]) && |windows - {order[0]}| == |windows| - 1
  {
    FirstIsOldest(order, windows);
    EvictedOk(windows, log, STARTS_PER_CLIENT, WINDOW, last, order[0]);
    assert (windows - {order[0]}).Keys == windows.Keys - {order[0]};
    assert |windows.Keys| == |windows| && |(windows - {order[0]}).Keys| == |windows - {order[0]}|;
  }

  lemma AppendNewest(order: seq<string>, windows: Entries, client: string, now: int)
    requires InOrder(order, windows) && client !in windows
    requires forall k :: k in windows ==> windows[k].windowStartedAt <= now
    ensures InOrder(order + [client], windows[client := Entry(1, now)])
  {
    var more, windows' := order + [client], windows[client := Entry(1, now)];
    forall i, j | 0 <= i < j < |more| ensures Earlier(more, windows', i, j) {
      if j < |order| { assert Earlier(order, windows, i, j); } else { assert order[i] in order; }
    }
  }

  lemma OneMoreWindow(windows: Entries, client: string, e: Entry)
    ensures |windows[client := e]| == if client in windows then |windows| else |windows| + 1
  {
    assert windows[client := e].Keys == windows.Keys + {client};
    assert |windows.Keys| == |windows| && |windows[client := e].Keys| == |windows[client := e]|;
  }

  lemma OpenedInv(windows: Entries, order: seq<string>, log: map<string, History>, now: int, deadline: int,
                  client: string)
    requires WindowsInv(windows, order, log, now, deadline) && client !in windows && |windows| < CLIENTS
               && now + WINDOW <= deadline
    ensures var h := HistoryOf(log, client);
            WindowsInv(windows[client := Entry(1, now)], order + [client], log[client := Append(h, now, |h.times|)],
                now, deadline)
  {
    OpenedOk(windows, log, STARTS_PER_CLIENT, WINDOW, now, client);
    AppendNewest(order, windows, client, now);
    OneMoreWindow(windows, client, Entry(1, now));
  }

  lemma CountedInv(windows: Entries, order: seq<string>, log: map<string, History>, now: int, deadline: int,
                   client: string)
    requires WindowsInv(windows, order, log, now, deadline) && client in windows
               && windows[client].count < STARTS_PER_CLIENT
    requires now < windows[client].windowStartedAt + WINDOW
    ensures WindowsInv(windows[client := Counted(windows[client])], order,
              log[client := Joined(HistoryOf(log, client), windows[client], now)], now, deadline)
  {
    CountedOk(windows, log, STARTS_PER_CLIENT, WINDOW, now, client);
    var windows' := windows[client := Counted(windows[client])];
    forall i, j | 0 <= i < j < |order| ensures Earlier(order, windows', i, j) { assert Earlier(order, windows, i, j); }
    OneMoreWindow(windows, client, Counted(windows[client]));
  }

  /** Every pending flow was issued and not taken yet, and the deadline covers it. */
  ghost predicate FlowsInv(flows: map<string, int>, issued: map<string, int>, taken: set<string>, deadline: int) {
    && |flows| <= PENDING && taken <= issued.Keys
    && (forall s :: s in flows ==> s in issued && s !in taken && flows[s] == issued[s] <= deadline)
  }

  lemma FewerFlows(flows: map<string, int>, fewer: map<string, int>)
    requires fewer.Keys <= flows.Keys
    ensures |fewer| <= |flows|
  {
    FewerKeys(fewer.Keys, flows.Keys);
    assert |fewer.Keys| == |fewer| && |flows.Keys| == |flows|;
  }

  lemma OneMoreFlow(flows: map<string, int>, s: string, at: int)
    ensures |flows[s := at]| <= |flows| + 1
  {
    assert flows[s := at].Keys == flows.Keys + {s};
    assert |flows.Keys| == |flows| && |flows[s := at].Keys| == |flows[s := at]|;
  }

  predicate Oldest(windows: Entries, k: string) {
    k in windows && forall o :: o in windows ==> windows[k].windowStartedAt <= windows[o].windowStartedAt
  }

  class OidcClient {
    var flows: map<string, int>
    var windows: Entries
    var order: seq<string>
    var activityDeadline: int
    ghost var issued: map<string, int>
    ghost var taken: set<string>
    ghost var log: map<string, History>
    ghost var last: int

    ghost predicate Valid()
      reads this
    {
      FlowsInv(flows, issued, taken, activityDeadline) && WindowsInv(windows, order, log, last, activityDeadline)
    }

    constructor ()
      ensures Valid() && flows == map[] && windows == map[] && issued == map[] && taken == {} && log == map[]
                && last == 0
    {
      flows, windows, order, activityDeadline := map[], map[], [], 0;
      issued, taken, log, last := map[], {}, map[], 0;
    }

    /** Nonzero as long as anything is pending. */
    method IdleBlockedUntil(now: int) returns (deadline: int)
      requires Valid() && 0 <= now
      ensures deadline == 0 || deadline == activityDeadline > now
      ensures forall s :: s in flows && now < flows[s] ==> deadline != 0
      ensures forall k :: k in windows && now < windows[k].windowStartedAt + WINDOW ==> deadline != 0
    {
      deadline := if activityDeadline > now then activityDeadline else 0;
    }

    method PruneFlows(now: int) returns (busy: bool)
      requires FlowsInv(flows, issued, taken, activityDeadline)
      modifies this`flows
      ensures FlowsInv(flows, issued, taken, activityDeadline) && flows == LiveFlows(old(flows), now)
      ensures busy <==> |flows| >= PENDING
    {
      var todo := flows.Keys;
      while todo != {}
        invariant todo <= flows.Keys <= old(flows).Keys
        invariant flows == map s | s in old(flows) && (s in todo || now < old(flows)[s]) :: old(flows)[s]
        decreases todo
      {
        var s :| s in todo;
        if flows[s] <= now { flows := flows - {s}; }
        todo := todo - {s};
      }
      FewerFlows(old(flows), flows);
      busy := |flows| >= PENDING;
    }

    /** A full table loses the window inserted first. */
    method MakeRoom() returns (ghost evicted: Option<string>)
      requires WindowsInv(windows, order, log, last, activityDeadline)
      modifies this`windows, this`order, this`log
      ensures WindowsInv(windows, order, log, last, activityDeadline) && |windows| < CLIENTS
      ensures evicted == None ==> windows == old(windows) && log == old(log)
      ensures evicted.Some? ==> windows == old(windows) - {evicted.value} && log == old(log) - {evicted.value}
      ensures evicted.Some? ==> |old(windows)| == CLIENTS && Oldest(old(windows), evicted.value)
    {
      evicted := None;
      if |windows| >= CLIENTS {
        EvictedInv(windows, order, log, last, activityDeadline);
        evicted := Some(order[0]);
        windows, order, log := windows - {order[0]}, order[1..], log - {order[0]};
      }
    }

    method OpenWindow(client: string, now: int)
      requires WindowsInv(windows, order, log, last, activityDeadline) && now == last && client !in windows
                 && |windows| < CLIENTS
      modifies this`windows, this`order, this`activityDeadline, this`log
      ensures WindowsInv(windows, order, log, last, activityDeadline) && activityDeadline >= old(activityDeadline)
      ensures windows == old(windows)[client := Entry(1, now)]
      ensures log == old(log)[client := Append(HistoryOf(old(log), client), last, |HistoryOf(old(log), client).times|)]
    {
      var deadline := if activityDeadline < now + WINDOW then now + WINDOW else activityDeadline;
      LaterInv(windows, order, log, last, activityDeadline, last, deadline);
      OpenedInv(windows, order, log, last, deadline, client);
      log := log[client := Append(HistoryOf(log, client), last, |HistoryOf(log, client).times|)];
      windows, order, activityDeadline := windows[client := Entry(1, now)], order + [client], deadline;
    }

    method CountStart(client: string)
      requires WindowsInv(windows, order, log, last, activityDeadline)
      requires client in windows && windows[client].count < STARTS_PER_CLIENT
      requires last < windows[client].windowStartedAt + WINDOW
      modifies this`windows, this`log
      ensures WindowsInv(windows, order, log, last, activityDeadline)
      ensures windows == old(windows)[client := Counted(old(windows)[client])]
      ensures log == old(log)[client := Joined(HistoryOf(old(log), client), old(windows)[client], last)]
    {
      CountedInv(windows, order, log, last, activityDeadline, client);
      log := log[client := Joined(HistoryOf(log, client), windows[client], last)];
      windows := windows[client := Counted(windows[client])];
    }

    /** `evicted` names the running window a full table loses: one that began first. */
    method ConsumeFlowStart(client: string, now: int) returns (accepted: bool, ghost evicted: Option<string>)
      requires WindowsInv(windows, order, log, last, activityDeadline) && last <= now
      modifies this`windows, this`order, this`activityDeadline, this`log, this`last
      ensures WindowsInv(windows, order, log, last, activityDeadline) && last == now
                && activityDeadline >= old(activityDeadline)
      ensures !accepted ==> log == old(log) && windows == Live(old(windows), WINDOW, now)
                            && client in windows && windows[client].count >= STARTS_PER_CLIENT && evicted == None
      ensures accepted ==> var left := if evicted.Some? then old(log) - {evicted.value} else old(log);
                           && client in log && log == left[client := log[client]]
                           && log[client].times == HistoryOf(left, client).times + [now]
      ensures evicted.Some? ==> var live := Live(old(windows), WINDOW, now);
                                |live| == CLIENTS && client !in live && Oldest(live, evicted.value)
    {
      evicted := None;
      var live := PruneEntries(windows, WINDOW, now);
      PrunedInv(windows, order, log, last, activityDeadline, now);
      windows, order, last := live, Remaining(order, live), now;
      if client !in windows {
        evicted := MakeRoom();
        OpenWindow(client, now);
        return true, evicted;
      }
      if windows[client].count >= STARTS_PER_CLIENT { return false, evicted; }
      CountStart(client);
      accepted := true;
    }

    /** `begin` up to its await. */
    method BeginLogin(client: string, now: int) returns (r: Start, ghost evicted: Option<string>)
      requires Valid() && last <= now
      modifies this`flows, this`windows, this`order, this`activityDeadline, this`log, this`last
      ensures Valid() && last == now && flows == LiveFlows(old(flows), now)
      ensures r == Busy <==> |flows| >= PENDING
      ensures r == RateLimited ==> client in windows && windows[client].count >= STARTS_PER_CLIENT
      // A start that goes on is in its client's history; nothing else changes, except that a
      // full table forgets one that began first.
      ensures r != Continuing ==> log == old(log) && evicted == None
      ensures r == Continuing ==>
                var left := if evicted.Some? then old(log) - {evicted.value} else old(log);
                && client in log && log == left[client := log[client]]
                && log[client].times == HistoryOf(left, client).times + [now]
      ensures evicted.Some? ==> var live := Live(old(windows), WINDOW, now);
                                |live| == CLIENTS && client !in live && Oldest(live, evicted.value)
    {
      evicted := None;
      LaterInv(windows, order, log, last, activityDeadline, now, activityDeadline);
      last := now;
      var busy := PruneFlows(now);
      if busy { return Busy, evicted; }
      var accepted;
      accepted, evicted := ConsumeFlowStart(client, now);
      r := if accepted then Continuing else RateLimited;
    }

    method AddFlow(state: string, expiresAt: int)
      requires Valid() && state !in issued && |flows| < PENDING
      modifies this`flows, this`activityDeadline, this`issued
      ensures Valid() && flows == old(flows)[state := expiresAt] && issued == old(issued)[state := expiresAt]
    {
      var deadline := if activityDeadline < expiresAt then expiresAt else activityDeadline;
      LaterInv(windows, order, log, last, activityDeadline, last, deadline);
      OneMoreFlow(flows, state, expiresAt);
      activityDeadline := deadline;
      flows, issued := flows[state := expiresAt], issued[state := expiresAt];
    }

    /** `begin` after its await: `state` is the random value it draws. */
    method FinishBegin(state: string, now: int) returns (started: bool)
      requires Valid() && last <= now && state !in issued
      modifies this`flows, this`activityDeadline, this`issued, this`last
      ensures Valid() && last == now
      ensures started ==>
                && flows == LiveFlows(old(flows), now)[state := now + FLOW_LIFETIME]
                && issued == old(issued)[state := now + FLOW_LIFETIME]
      ensures !started ==> flows == LiveFlows(old(flows), now) && |flows| >= PENDING && issued == old(issued)
    {
      LaterInv(windows, order, log, last, activityDeadline, now, activityDeadline);
      last := now;
      var busy := PruneFlows(now);
      if busy { return false; }
      AddFlow(state, now + FLOW_LIFETIME);
      started := true;
    }

    /** `callback` up to its first await. */
    method TakeFlow(state: string, stateCookie: string, now: int) returns (accepted: bool)
      requires Valid() && last <= now
      modifies this`flows, this`taken, this`last
      ensures Valid() && last == now
      ensures flows == if state == stateCookie then old(flows) - {state} else old(flows)
      // A state is good once, from when it was issued until it expires.
      ensures accepted <==> state == stateCookie && state in old(flows) && now < old(flows)[state]
      ensures accepted ==>
                && state in issued && state !in old(taken) && now < issued[state]
                && taken == old(taken) + {state}
      ensures !accepted ==> taken == old(taken)
    {
      LaterInv(windows, order, log, last, activityDeadline, now, activityDeadline);
      last := now;
      if state != stateCookie { return false; }
      accepted := state in flows && now < flows[state];
      FewerFlows(flows, flows - {state});
      flows := flows - {state};
      if accepted { taken := taken + {state}; }
    }

    /** Any half-open span of 15 minutes holds at most 39 starts of one client, unless its
        window was dropped to make room. */
    lemma AtMostThirtyNine(client: string, i: nat)
      requires Valid() && client in log && i + 39 < |log[client].times|
      ensures log[client].times[i] + WINDOW <= log[client].times[i + 39]
    {
      AtMostTwice(windows, log, STARTS_PER_CLIENT, WINDOW, last, client, i);
    }
  }

  datatype Stretch =
    | Begin(at: int, client: string)
    | Finish(at: int, state: string)
    | Callback(at: int, state: string, cookie: string)

  /** Time does not run backwards and random states never repeat. */
  ghost predicate Plausible(run: seq<Stretch>) {
    && (forall i, j :: 0 <= i < j < |run| ==> run[i].at <= run[j].at)
    && (forall i, j :: 0 <= i < j < |run| && run[i].Finish? && run[j].Finish? ==> run[i].state != run[j].state)
    && (run != [] ==> 0 <= run[0].at)
  }

  /** The state was issued by an earlier stretch of this run and has not expired. */
  ghost predicate IssuedBefore(run: seq<Stretch>, outcomes: seq<bool>, i: nat, state: string, at: int)
    requires i <= |run| && i <= |outcomes|
  {
    exists k :: 0 <= k < i && run[k].Finish? && run[k].state == state && outcomes[k] && at < run[k].at + FLOW_LIFETIME
  }

  ghost predicate Recorded(run: seq<Stretch>, outcomes: seq<bool>, n: nat, issued: map<string, int>, taken: set<string>)
    requires n == |outcomes| <= |run|
  {
    && (forall s :: s in issued ==>
         exists k :: 0 <= k < n && run[k].Finish? && run[k].state == s && outcomes[k]
             && issued[s] == run[k].at + FLOW_LIFETIME)
    && (forall i :: 0 <= i < n && run[i].Callback? && outcomes[i] ==> run[i].state in taken)
    && (forall i, j :: 0 <= i < j < n && run[i].Callback? && run[j].Callback? && outcomes[i] && outcomes[j] ==>
         run[i].state != run[j].state)
    && (forall i :: 0 <= i < n && run[i].Callback? && outcomes[i] ==>
          run[i].state == run[i].cookie && IssuedBefore(run, outcomes, i, run[i].state, run[i].at))
  }

  /** However begins and callbacks interleave, a state is accepted at most once, only after
      it was issued and before it expires. */
  method Interleave(c: OidcClient, run: seq<Stretch>) returns (outcomes: seq<bool>)
    requires c.Valid() && c.issued == map[] && c.taken == {} && c.last == 0
    requires Plausible(run)
    modifies c
    ensures c.Valid() && |outcomes| == |run|
    ensures forall i, j :: 0 <= i < j < |run| && run[i].Callback? && run[j].Callback? && outcomes[i] && outcomes[j] ==>
              run[i].state != run[j].state
    ensures forall i :: 0 <= i < |run| && run[i].Callback? && outcomes[i] ==>
              run[i].state == run[i].cookie && IssuedBefore(run, outcomes, i, run[i].state, run[i].at)
  {
    outcomes := [];
    for n := 0 to |run|
      invariant c.Valid() && |outcomes| == n && (n < |run| ==> c.last <= run[n].at)
      invariant Recorded(run, outcomes, n, c.issued, c.taken)
    {
      ghost var issued, taken := c.issued, c.taken;
      NotYetIssued(run, outcomes, n, issued, taken);
      var r := Perform(c, run[n]);
      RecordedStep(run, outcomes, n, r, issued, taken, c.issued, c.taken);
      outcomes := outcomes + [r];
    }
  }

  /** What one stretch does to the states handed out and taken. */
  ghost predicate Effect(stretch: Stretch, r: bool, issued: map<string, int>, taken: set<string>,
                         issued': map<string, int>, taken': set<string>) {
    match stretch
    case Begin(_, _) => issued' == issued && taken' == taken
    case Finish(at, state) => taken' == taken && issued' == if r then issued[state := at + FLOW_LIFETIME] else issued
    case Callback(at, state, cookie) =>
      && issued' == issued && taken' == (if r then taken + {state} else taken)
      && (r ==> state == cookie && state in issued && state !in taken && at < issued[state])
  }

  lemma RecordedStep(run: seq<Stretch>, outcomes: seq<bool>, n: nat, r: bool,
                     issued: map<string, int>, taken: set<string>, issued': map<string, int>, taken': set<string>)
    requires n == |outcomes| < |run| && Recorded(run, outcomes, n, issued, taken)
    requires Effect(run[n], r, issued, taken, issued', taken')
    ensures Recorded(run, outcomes + [r], n + 1, issued', taken')
  {
    var more := outcomes + [r];
    assert forall i :: 0 <= i < n ==> more[i] == outcomes[i];
    forall s | s in issued'
      ensures exists k :: 0 <= k < n + 1 && run[k].Finish? && run[k].state == s && more[k]
                && issued'[s] == run[k].at + FLOW_LIFETIME
    {
      if s in issued && issued'[s] == issued[s] {
        var k :| 0 <= k < n && run[k].Finish? && run[k].state == s && outcomes[k]
            && issued[s] == run[k].at + FLOW_LIFETIME;
        assert more[k];
      } else {
        assert more[n];
      }
    }
    forall i | 0 <= i < n + 1 && run[i].Callback? && more[i]
      ensures run[i].state == run[i].cookie && IssuedBefore(run, more, i, run[i].state, run[i].at)
    {
      if i < n {
        assert IssuedBefore(run, outcomes, i, run[i].state, run[i].at);
        var k :| 0 <= k < i && run[k].Finish? && run[k].state == run[i].state && outcomes[k]
            && run[i].at < run[k].at + FLOW_LIFETIME;
        assert more[k];
      } else {
        var k :| 0 <= k < n && run[k].Finish? && run[k].state == run[n].state && outcomes[k]
            && issued[run[n].state] == run[k].at + FLOW_LIFETIME;
        assert more[k];
      }
    }
  }

  lemma NotYetIssued(run: seq<Stretch>, outcomes: seq<bool>, n: nat, issued: map<string, int>, taken: set<string>)
    requires n == |outcomes| < |run| && Recorded(run, outcomes, n, issued, taken) && Plausible(run)
    ensures run[n].Finish? ==> run[n].state !in issued
    ensures n + 1 < |run| ==> run[n].at <= run[n + 1].at
  {
  }

  method PerformBegin(c: OidcClient, at: int, client: string) returns (r: bool)
    requires c.Valid() && c.last <= at
    modifies c
    ensures c.Valid() && c.last == at && Effect(Begin(at, client), r, old(c.issued), old(c.taken), c.issued, c.taken)
  {
    var start, _ := c.BeginLogin(client, at);
    r := start == Continuing;
  }

  method PerformFinish(c: OidcClient, at: int, state: string) returns (r: bool)
    requires c.Valid() && c.last <= at && state !in c.issued
    modifies c
    ensures c.Valid() && c.last == at && Effect(Finish(at, state), r, old(c.issued), old(c.taken), c.issued, c.taken)
  {
    r := c.FinishBegin(state, at);
  }

  method PerformCallback(c: OidcClient, at: int, state: string, cookie: string) returns (r: bool)
    requires c.Valid() && c.last <= at
    modifies c
    ensures c.Valid() && c.last == at
              && Effect(Callback(at, state, cookie), r, old(c.issued), old(c.taken), c.issued, c.taken)
  {
    r := c.TakeFlow(state, cookie, at);
  }

  method Perform(c: OidcClient, stretch: Stretch) returns (r: bool)
    requires c.Valid() && c.last <= stretch.at && (stretch.Finish? ==> stretch.state !in c.issued)
    modifies c
    ensures c.Valid() && c.last == stretch.at
    ensures Effect(stretch, r, old(c.issued), old(c.taken), c.issued, c.taken)
  {
    match stretch
    case Begin(at, client) => r := PerformBegin(c, at, client);
    case Finish(at, state) => r := PerformFinish(c, at, state);
    case Callback(at, state, cookie) => r := PerformCallback(c, at, state, cookie);
  }
}
