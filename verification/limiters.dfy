/** Histories cut into fixed windows, and how many events any span of a window's length
    can hold. */
module FixedWindow {

  /** Event times, and for each event the index of the first event of its window. */
  datatype History = History(times: seq<int>, heads: seq<nat>)

  const NONE := History([], [])

  /** Event `j` is one of at most `limit` in the window that is still running, or starts a new
      window once the previous one is over. */
  ghost predicate EventOk(h: History, limit: nat, window: nat, j: nat)
    requires j < |h.times| == |h.heads|
  {
    && h.heads[j] <= j && j - h.heads[j] < limit
    && (h.heads[j] < j ==> h.heads[j - 1] == h.heads[j] && h.times[j] < h.times[h.heads[j]] + window)
    && (h.heads[j] == j && 0 < j && h.heads[j - 1] < j ==> h.times[h.heads[j - 1]] + window <= h.times[j])
    && (0 < j ==> h.heads[j - 1] <= j - 1 && h.times[j - 1] <= h.times[j])
  }

  ghost predicate Windowed(h: History, limit: nat, window: nat) {
    |h.times| == |h.heads| && forall j :: 0 <= j < |h.times| ==> EventOk(h, limit, window, j)
  }

  lemma {:induction false} Ordered(h: History, limit: nat, window: nat, i: nat, j: nat)
    requires Windowed(h, limit, window) && i <= j < |h.times|
    ensures h.times[i] <= h.times[j]
    decreases j - i
  {
    if i < j {
      assert EventOk(h, limit, window, j);
      Ordered(h, limit, window, i, j - 1);
    }
  }

  /** The first event of a window is its own head. */
  lemma {:induction false} HeadOfHead(h: History, limit: nat, window: nat, j: nat)
    requires Windowed(h, limit, window) && j < |h.times|
    ensures h.heads[j] <= j && j - h.heads[j] < limit && h.heads[h.heads[j]] == h.heads[j]
    decreases j
  {
    assert EventOk(h, limit, window, j);
    if h.heads[j] < j {
      HeadOfHead(h, limit, window, j - 1);
    }
  }

  /** Two limits' worth of consecutive events last at least one window: any half-open span
      of a window's length holds at most 2 * limit - 1 events. */
  lemma SpanLimit(h: History, limit: nat, window: nat, i: nat)
    requires Windowed(h, limit, window) && 1 <= limit && i + 2 * limit - 1 < |h.times|
    ensures h.times[i] + window <= h.times[i + 2 * limit - 1]
  {
    var j := i + 2 * limit - 1;
    HeadOfHead(h, limit, window, j);
    var s := h.heads[j];
    HeadOfHead(h, limit, window, s - 1);
    var p := h.heads[s - 1];
    assert EventOk(h, limit, window, s);
    Ordered(h, limit, window, i, p);
    Ordered(h, limit, window, s, j);
  }

  /** The first event after a full window waits for `block` from that window's last event. */
  ghost predicate Blocked(h: History, limit: nat, block: nat) {
    |h.times| == |h.heads| &&
    forall j :: 0 < j < |h.times| && h.heads[j] == j && j - h.heads[j - 1] == limit ==>
        h.times[j - 1] + block <= h.times[j]
  }

  /** Blocking after a full window takes one event off the bound. */
  lemma BlockedSpanLimit(h: History, limit: nat, window: nat, block: nat, i: nat)
    requires Windowed(h, limit, window) && Blocked(h, limit, block) && window <= block
    requires 2 <= limit && i + 2 * limit - 2 < |h.times|
    ensures h.times[i] + window <= h.times[i + 2 * limit - 2]
  {
    var j := i + 2 * limit - 2;
    HeadOfHead(h, limit, window, j);
    var s := h.heads[j];
    HeadOfHead(h, limit, window, s - 1);
    var p := h.heads[s - 1];
    assert EventOk(h, limit, window, s);
    Ordered(h, limit, window, s, j);
    if i <= p {
      Ordered(h, limit, window, i, p);
    } else {
      Ordered(h, limit, window, i, s - 1);
    }
  }

  function Append(h: History, time: int, head: nat): History {
    History(h.times + [time], h.heads + [head])
  }

  /** Recording an event in the running window, or in a new one. */
  lemma AppendWindowed(h: History, limit: nat, window: nat, time: int, head: nat)
    requires Windowed(h, limit, window) && 1 <= limit
    requires h.times != [] ==> h.times[|h.times| - 1] <= time
    requires var n := |h.times|;
             || (head == n && (n > 0 ==> h.heads[n - 1] < n && h.times[h.heads[n - 1]] + window <= time))
             || (n > 0 && head == h.heads[n - 1] && head < n && n - head < limit && time < h.times[head] + window)
    ensures Windowed(Append(h, time, head), limit, window)
  {
    var h' := Append(h, time, head);
    var n := |h.times|;
    if n > 0 { HeadOfHead(h, limit, window, n - 1); }
    forall j | 0 <= j < |h'.times| ensures EventOk(h', limit, window, j) {
      if j < n {
        assert EventOk(h, limit, window, j);
        if j > 0 { HeadOfHead(h, limit, window, j - 1); }
      }
    }
  }

  lemma AppendBlocked(h: History, limit: nat, block: nat, time: int, head: nat)
    requires Blocked(h, limit, block)
    requires var n := |h.times|;
             n > 0 && head == n && n - h.heads[n - 1] == limit ==> h.times[n - 1] + block <= time
    ensures Blocked(Append(h, time, head), limit, block)
  {
    var h', n := Append(h, time, head), |h.times|;
    forall j | 0 < j < |h'.times| && h'.heads[j] == j && j - h'.heads[j - 1] == limit
      ensures h'.times[j - 1] + block <= h'.times[j]
    {
      if j < n { assert h.heads[j] == j && h'.heads[j - 1] == h.heads[j - 1]; }
    }
  }

  /** The bound of `BlockedSpanLimit` is reached: a history whose last 2 * limit - 2 events
      all lie less than a window apart. */
  lemma BlockedSpanLimitIsTight(limit: nat, window: nat) returns (h: History)
    requires 2 <= limit && 2 <= window
    ensures Windowed(h, limit, window) && Blocked(h, limit, window) && |h.times| == 2 * limit - 1
    ensures forall j :: 1 <= j < 2 * limit - 1 ==> window - 1 <= h.times[j] < 2 * window - 1
  {
    var first := limit - 1;
    h := History(
      seq(2 * limit - 1, j => if j == 0 then 0 else if j < first then window - 1 else window),
      seq(2 * limit - 1, j => if j < first then 0 else first));
    forall j | 0 <= j < 2 * limit - 1 ensures EventOk(h, limit, window, j) { }
  }

  /** The bound of `SpanLimit` is reached: a history whose last 2 * limit - 1 events all
      lie less than a window apart. */
  lemma SpanLimitIsTight(limit: nat, window: nat) returns (h: History)
    requires 1 <= limit && 2 <= window
    ensures Windowed(h, limit, window) && |h.times| == 2 * limit
    ensures forall j :: 1 <= j < 2 * limit ==> window - 1 <= h.times[j] < 2 * window - 1
  {
    h := History(
      seq(2 * limit, j => if j == 0 then 0 else if j < limit then window - 1 else window),
      seq(2 * limit, j => if j < limit then 0 else limit));
    forall j | 0 <= j < 2 * limit ensures EventOk(h, limit, window, j) { }
  }
}

/** Counters per key, each for one fixed window from its first event, and the histories they
    count.  The registration limiter and the login starts of the OpenID Connect client work
    this way. */
module WindowCounters {
  import opened FixedWindow

  datatype Entry = Entry(count: nat, windowStartedAt: int)

  type Entries = map<string, Entry>

  /** The last window of this history is over. */
  ghost predicate Closed(h: History, window: nat, t: int) {
    && h.times != [] && |h.times| == |h.heads|
    && h.heads[|h.times| - 1] < |h.times|
    && h.times[h.heads[|h.times| - 1]] + window <= t
  }

  /** The entry describes the last window of this history. */
  ghost predicate Current(e: Entry, h: History, limit: nat) {
    var n := |h.times|;
    && n == |h.heads| && 1 <= e.count <= limit && e.count <= n
    && h.heads[n - 1] == n - e.count && h.times[n - e.count] == e.windowStartedAt
  }

  ghost predicate KeyOk(entries: Entries, log: map<string, History>, limit: nat, window: nat, last: int, k: string) {
    && (k in log ==> Windowed(log[k], limit, window) && log[k].times != [] && log[k].times[|log[k].times| - 1] <= last)
    && (if k in entries then k in log && Current(entries[k], log[k], limit)
        else k in log ==> Closed(log[k], window, last))
  }

  ghost predicate AllOk(entries: Entries, log: map<string, History>, limit: nat, window: nat, last: int) {
    forall k :: KeyOk(entries, log, limit, window, last, k)
  }

  function Live(entries: Entries, window: nat, t: int): Entries {
    map k | k in entries && t < entries[k].windowStartedAt + window :: entries[k]
  }

  function HistoryOf(log: map<string, History>, k: string): History {
    if k in log then log[k] else NONE
  }

  method PruneEntries(entries: Entries, window: nat, timestamp: int) returns (live: Entries)
    ensures live == Live(entries, window, timestamp) && |live| <= |entries|
  {
    live := entries;
    var todo := entries.Keys;
    while todo != {}
      invariant todo <= live.Keys && live.Keys <= entries.Keys
      invariant live == map k | k in entries
                  && (k in todo || timestamp < entries[k].windowStartedAt + window) :: entries[k]
      decreases todo
    {
      var k :| k in todo;
      if live[k].windowStartedAt + window <= timestamp { live := live - {k}; }
      todo := todo - {k};
    }
    FewerKeys(live.Keys, entries.Keys);
    assert |live.Keys| == |live| && |entries.Keys| == |entries|;
  }

  lemma FewerKeys(a: set<string>, b: set<string>)
    requires a <= b
    ensures |a| <= |b|
  {
    assert b == a + (b - a);
  }

  lemma PrunedOk(entries: Entries, log: map<string, History>, limit: nat, window: nat, last: int, t: int)
    requires AllOk(entries, log, limit, window, last) && last <= t
    ensures AllOk(Live(entries, window, t), log, limit, window, t)
  {
    var live := Live(entries, window, t);
    forall k ensures KeyOk(live, log, limit, window, t, k) {
      assert KeyOk(entries, log, limit, window, last, k);
    }
  }

  lemma OpenedKeyOk(entries: Entries, log: map<string, History>, limit: nat, window: nat, t: int, key: string)
    requires KeyOk(entries, log, limit, window, t, key) && key !in entries && 1 <= limit
    ensures var h := HistoryOf(log, key);
            KeyOk(entries[key := Entry(1, t)], log[key := Append(h, t, |h.times|)], limit, window, t, key)
  {
    AppendWindowed(HistoryOf(log, key), limit, window, t, |HistoryOf(log, key).times|);
  }

  /** The first event of a new window. */
  lemma OpenedOk(entries: Entries, log: map<string, History>, limit: nat, window: nat, t: int, key: string)
    requires AllOk(entries, log, limit, window, t) && key !in entries && 1 <= limit
    ensures var h := HistoryOf(log, key);
            AllOk(entries[key := Entry(1, t)], log[key := Append(h, t, |h.times|)], limit, window, t)
  {
    var h := HistoryOf(log, key);
    var entries', log' := entries[key := Entry(1, t)], log[key := Append(h, t, |h.times|)];
    forall k ensures KeyOk(entries', log', limit, window, t, k) {
      assert KeyOk(entries, log, limit, window, t, k);
      if k == key { OpenedKeyOk(entries, log, limit, window, t, key); }
    }
  }

  function Counted(e: Entry): Entry {
    e.(count := e.count + 1)
  }

  /** Another event of the running window belongs to the head `n - count`. */
  ghost function Joined(h: History, e: Entry, t: int): History {
    Append(h, t, if e.count <= |h.times| then |h.times| - e.count else 0)
  }

  lemma CountedKeyOk(entries: Entries, log: map<string, History>, limit: nat, window: nat, t: int, key: string)
    requires KeyOk(entries, log, limit, window, t, key) && key in entries && entries[key].count < limit
    requires t < entries[key].windowStartedAt + window
    ensures KeyOk(entries[key := Counted(entries[key])], log[key := Joined(HistoryOf(log, key), entries[key], t)],
              limit, window, t, key)
  {
    AppendWindowed(log[key], limit, window, t, |log[key].times| - entries[key].count);
  }

  lemma CountedOk(entries: Entries, log: map<string, History>, limit: nat, window: nat, t: int, key: string)
    requires AllOk(entries, log, limit, window, t) && key in entries && entries[key].count < limit
    requires t < entries[key].windowStartedAt + window
    ensures AllOk(entries[key := Counted(entries[key])], log[key := Joined(HistoryOf(log, key), entries[key], t)],
              limit, window, t)
  {
    var entries', log' := entries[key := Counted(entries[key])],
        log[key := Joined(HistoryOf(log, key), entries[key], t)];
    forall k ensures KeyOk(entries', log', limit, window, t, k) {
      assert KeyOk(entries, log, limit, window, t, k);
      if k == key { CountedKeyOk(entries, log, limit, window, t, key); }
    }
  }

  /** Dropping a running window starts its key's history afresh. */
  lemma EvictedOk(entries: Entries, log: map<string, History>, limit: nat, window: nat, t: int, key: string)
    requires AllOk(entries, log, limit, window, t)
    ensures AllOk(entries - {key}, log - {key}, limit, window, t)
  {
    forall k ensures KeyOk(entries - {key}, log - {key}, limit, window, t, k) {
      assert KeyOk(entries, log, limit, window, t, k);
    }
  }

  /** Any half-open span of a window's length holds fewer than twice the limit. */
  lemma AtMostTwice(entries: Entries, log: map<string, History>, limit: nat, window: nat, last: int, key: string,
                    i: nat)
    requires AllOk(entries, log, limit, window, last) && 1 <= limit
    requires key in log && i + 2 * limit - 1 < |log[key].times|
    ensures log[key].times[i] + window <= log[key].times[i + 2 * limit - 1]
  {
    assert KeyOk(entries, log, limit, window, last, key);
    SpanLimit(log[key], limit, window, i);
  }
}

/** Anonymous OAuth client registration (class `AnonymousRegistrationLimiter` in
    apps/remote-mcp/src/app.ts).  Addresses stand for their keyed hashes; times are
    milliseconds. */
module RegistrationLimiter {
  import opened FixedWindow
  import opened WindowCounters

  datatype Verdict = Accepted | Busy | RateLimited(retryAfterSeconds: int)

  const WINDOW := 15 * 60_000
  const LIMIT := 10
  const CAPACITY := 10_000

  function CeilSeconds(milliseconds: int): int {
    (milliseconds + 999) / 1000
  }

  class AnonymousRegistrationLimiter {
    var entries: Entries
    var activityDeadline: int
    ghost var log: map<string, History>
    ghost var last: int

    ghost predicate Valid()
      reads this
    {
      && |entries| <= CAPACITY && AllOk(entries, log, LIMIT, WINDOW, last)
      && forall a :: a in entries ==> entries[a].windowStartedAt + WINDOW <= activityDeadline
    }

    constructor ()
      ensures Valid() && entries == map[] && log == map[] && last == 0
    {
      entries, activityDeadline, log, last := map[], 0, map[], 0;
    }

    method IdleBlockedUntil(now: int) returns (deadline: int)
      requires Valid() && 0 <= now
      ensures deadline == 0 || deadline == activityDeadline > now
      ensures forall a :: a in entries && now < entries[a].windowStartedAt + WINDOW ==> deadline != 0
    {
      deadline := if activityDeadline > now then activityDeadline else 0;
    }

    method Consume(address: string, timestamp: int) returns (verdict: Verdict)
      requires Valid() && last <= timestamp
      modifies this
      ensures Valid() && last == timestamp
      // Exactly the accepted registrations are recorded.
      ensures verdict == Accepted ==>
                && address in log && log == old(log)[address := log[address]]
                && log[address].times == HistoryOf(old(log), address).times + [timestamp]
      ensures verdict == Accepted ==>
                var live := Live(old(entries), WINDOW, timestamp);
                entries == live[address := if address in live then Counted(live[address]) else Entry(1, timestamp)]
      ensures verdict != Accepted ==> log == old(log) && entries == Live(old(entries), WINDOW, timestamp)
      ensures verdict == Busy ==> address !in entries && |entries| == CAPACITY
      ensures verdict.RateLimited? ==>
                && address in entries && entries[address].count == LIMIT
                     && timestamp < entries[address].windowStartedAt + WINDOW
                && verdict.retryAfterSeconds >= 1
                && var left := entries[address].windowStartedAt + WINDOW - timestamp;
                   1000 * (verdict.retryAfterSeconds - 1) < left <= 1000 * verdict.retryAfterSeconds
    {
      PrunedOk(entries, log, LIMIT, WINDOW, last, timestamp);
      entries := PruneEntries(entries, WINDOW, timestamp);
      last := timestamp;
      assert KeyOk(entries, log, LIMIT, WINDOW, last, address);
      if address !in entries {
        if |entries| >= CAPACITY { return Busy; }
        OpenedOk(entries, log, LIMIT, WINDOW, timestamp, address);
        ghost var history := HistoryOf(log, address);
        entries := entries[address := Entry(1, timestamp)];
        activityDeadline := if activityDeadline < timestamp + WINDOW then timestamp + WINDOW else activityDeadline;
        log := log[address := Append(history, timestamp, |history.times|)];
        return Accepted;
      }
      var previous := entries[address];
      if previous.count >= LIMIT {
        var wait := CeilSeconds(previous.windowStartedAt + WINDOW - timestamp);
        return RateLimited(if wait < 1 then 1 else wait);
      }
      CountedOk(entries, log, LIMIT, WINDOW, timestamp, address);
      entries := entries[address := Counted(previous)];
      log := log[address := Joined(HistoryOf(log, address), previous, timestamp)];
      verdict := Accepted;
    }

    /** Any half-open span of 15 minutes holds at most 19 accepted registrations of one
        address: the 20th event from any event on is at least 15 minutes later. */
    lemma AtMostNineteen(address: string, i: nat)
      requires Valid() && address in log && i + 19 < |log[address].times|
      ensures log[address].times[i] + WINDOW <= log[address].times[i + 19]
    {
      AtMostTwice(entries, log, LIMIT, WINDOW, last, address, i);
    }
  }

  /** One registration opens a window, nine come at its end, ten more just after. */
  function BurstTime(i: int): int {
    if i == 0 then 0 else if i < LIMIT then WINDOW - 1 else WINDOW
  }

  function BurstEntries(address: string, i: nat): Entries {
    if i == 0 then map[] else map[address := if i <= LIMIT then Entry(i, 0) else Entry(i - LIMIT, WINDOW)]
  }

  /** One more registration of the burst. */
  method RegisterAgain(m: AnonymousRegistrationLimiter, address: string, i: nat) returns (verdict: Verdict)
    requires m.Valid() && i < 2 * LIMIT && m.last <= BurstTime(i) && m.entries == BurstEntries(address, i)
    modifies m
    ensures m.Valid() && m.last == BurstTime(i) && m.entries == BurstEntries(address, i + 1) && verdict == Accepted
    ensures address in m.log && m.log[address].times == HistoryOf(old(m.log), address).times + [BurstTime(i)]
  {
    ghost var live := Live(m.entries, WINDOW, BurstTime(i));
    assert live == if i == 0 || i == LIMIT then map[] else m.entries;
    verdict := m.Consume(address, BurstTime(i));
  }

  /** The bound is reached: 19 registrations accepted within two milliseconds. */
  method NineteenAtOnce(address: string) returns (verdicts: seq<Verdict>, m: AnonymousRegistrationLimiter)
    ensures |verdicts| == 2 * LIMIT && forall i :: 0 <= i < |verdicts| ==> verdicts[i] == Accepted
    ensures m.Valid() && address in m.log && m.log[address].times == seq(2 * LIMIT, i => BurstTime(i))
    ensures forall i :: 1 <= i < 2 * LIMIT ==> WINDOW - 1 <= m.log[address].times[i] <= WINDOW
  {
    m := new AnonymousRegistrationLimiter();
    verdicts := [];
    for i := 0 to 2 * LIMIT
      invariant m.Valid() && fresh(m) && |verdicts| == i && m.last == (if i == 0 then 0 else BurstTime(i - 1))
      invariant forall k :: 0 <= k < i ==> verdicts[k] == Accepted
      invariant HistoryOf(m.log, address).times == seq(i, k => BurstTime(k))
      invariant m.entries == BurstEntries(address, i)
      invariant 0 < i ==> address in m.log
    {
      var verdict := RegisterAgain(m, address, i);
      verdicts := verdicts + [verdict];
    }
  }
}

/** Password login failures (`assertNotRateLimited`, `recordLoginFailure` and their order in
    `loginPassword`, packages/auth/src/browser.ts), for attempts made one after another. */
module LoginThrottle {
  import opened Wrappers
  import opened FixedWindow

  datatype Row = Row(failureCount: nat, windowStartedAt: int, blockedUntil: Option<int>, updatedAt: int)

  datatype Outcome = SignedIn | InvalidCredentials | LoginRateLimited

  const WINDOW := 15 * 60_000
  const BLOCK := 15 * 60_000
  const LIMIT := 5
  const KEEP := 24 * 60 * 60_000
  const MAXIMUM_ROWS := 10_000

  predicate BlockedAt(rows: map<string, Row>, key: string, timestamp: int) {
    key in rows && rows[key].blockedUntil.Some? && rows[key].blockedUntil.value > timestamp
  }

  /** One iteration of the loop of `recordLoginFailure`. */
  function Recorded(rows: map<string, Row>, key: string, now: int): map<string, Row> {
    var inside := key in rows && rows[key].windowStartedAt + WINDOW > now;
    var count := if inside then rows[key].failureCount + 1 else 1;
    var start := if inside then rows[key].windowStartedAt else now;
    rows[key := Row(count, start, if count >= LIMIT then Some(now + BLOCK) else None, now)]
  }

  function RecordedAll(rows: map<string, Row>, keys: seq<string>, now: int): map<string, Row> {
    if keys == [] then rows
    else Recorded(RecordedAll(rows, keys[..|keys| - 1], now), keys[|keys| - 1], now)
  }

  /** What is left after deleting rows not updated since `cutoff`, and `overflow` besides. */
  function Kept(rows: map<string, Row>, cutoff: int, overflow: set<string>): map<string, Row> {
    map k | k in rows && cutoff <= rows[k].updatedAt && k !in overflow :: rows[k]
  }

  /** The row tells where the last window of this history began and how full it is. */
  ghost predicate Current(row: Row, h: History) {
    var n := |h.times|;
    && n == |h.heads| && 1 <= row.failureCount <= LIMIT && row.failureCount <= n
    && h.heads[n - 1] == n - row.failureCount && h.times[n - row.failureCount] == row.windowStartedAt
    && row.updatedAt == h.times[n - 1]
    && row.blockedUntil == if row.failureCount == LIMIT then Some(row.updatedAt + BLOCK) else None
  }

  /** A key's failures since its row was last cleared or dropped for want of room. */
  ghost predicate KeyOk(rows: map<string, Row>, log: map<string, History>, last: int, k: string) {
    && (k in log ==> && Windowed(log[k], LIMIT, WINDOW) && Blocked(log[k], LIMIT, BLOCK)
                     && log[k].times != [] && log[k].times[|log[k].times| - 1] <= last)
    && (if k in rows then k in log && Current(rows[k], log[k])
        else k in log ==> log[k].times[|log[k].times| - 1] + WINDOW <= last)
  }

  ghost predicate AllOk(rows: map<string, Row>, log: map<string, History>, last: int) {
    forall k :: KeyOk(rows, log, last, k)
  }

  ghost function Extended(rows: map<string, Row>, log: map<string, History>, key: string,
                          now: int): map<string, History> {
    var h := if key in log then log[key] else NONE;
    var n := |h.times|;
    var inside := key in rows && rows[key].windowStartedAt + WINDOW > now && rows[key].failureCount <= n;
    log[key := Append(h, now, if inside then n - rows[key].failureCount else n)]
  }

  /** A failure recorded while the key is not blocked extends its history by that failure. */
  lemma RecordedKeyOk(rows: map<string, Row>, log: map<string, History>, now: int, key: string)
    requires KeyOk(rows, log, now, key) && !BlockedAt(rows, key, now)
    ensures KeyOk(Recorded(rows, key, now), Extended(rows, log, key, now), now, key)
  {
    if key in log {
      var h := log[key];
      var n := |h.times|;
      HeadOfHead(h, LIMIT, WINDOW, n - 1);
      Ordered(h, LIMIT, WINDOW, h.heads[n - 1], n - 1);
    }
    var h := if key in log then log[key] else NONE;
    var head := Extended(rows, log, key, now)[key].heads[|h.times|];
    AppendWindowed(h, LIMIT, WINDOW, now, head);
    AppendBlocked(h, LIMIT, BLOCK, now, head);
  }

  lemma RecordedOk(rows: map<string, Row>, log: map<string, History>, now: int, key: string)
    requires AllOk(rows, log, now) && !BlockedAt(rows, key, now)
    ensures AllOk(Recorded(rows, key, now), Extended(rows, log, key, now), now)
  {
    forall k ensures KeyOk(Recorded(rows, key, now), Extended(rows, log, key, now), now, k) {
      assert KeyOk(rows, log, now, k);
      if k == key { RecordedKeyOk(rows, log, now, key); }
    }
  }

  /** Deleting stale rows loses nothing: their windows and blocks are long over.  A row
      deleted for want of room starts its key's history afresh. */
  lemma KeptOk(rows: map<string, Row>, log: map<string, History>, last: int, now: int, overflow: set<string>)
    requires AllOk(rows, log, last) && last <= now
    ensures AllOk(Kept(rows, now - KEEP, overflow), log - overflow, now)
  {
    var kept, left := Kept(rows, now - KEEP, overflow), log - overflow;
    forall k ensures KeyOk(kept, left, now, k) {
      assert KeyOk(rows, log, last, k);
    }
  }

  /** Row by row: what was updated since the cutoff stays as it is, unless it had to make room. */
  lemma KeptRow(rows: map<string, Row>, cutoff: int, overflow: set<string>, k: string)
    ensures k in Kept(rows, cutoff, overflow) <==> k in rows && k !in overflow && !(rows[k].updatedAt < cutoff)
    ensures k in Kept(rows, cutoff, overflow) ==> Kept(rows, cutoff, overflow)[k] == rows[k]
  {
  }

  lemma ClearedOk(rows: map<string, Row>, log: map<string, History>, last: int, now: int, key: string)
    requires AllOk(rows, log, last) && last <= now
    ensures AllOk(rows - {key}, log - {key}, now)
  {
    forall k ensures KeyOk(rows - {key}, log - {key}, now, k) {
      assert KeyOk(rows, log, last, k);
    }
  }

  predicate Distinct(keys: seq<string>) {
    forall i, j :: 0 <= i < j < |keys| ==> keys[i] != keys[j]
  }

  /** How many rows may stay before these keys are recorded. */
  function Room(keys: seq<string>): nat {
    if |keys| <= MAXIMUM_ROWS then MAXIMUM_ROWS - |keys| else 0
  }

  lemma OneFewer(rows: map<string, Row>, k: string)
    requires k in rows
    ensures |rows - {k}| == |rows| - 1
  {
    assert (rows - {k}).Keys == rows.Keys - {k};
    assert |rows.Keys| == |rows| && |(rows - {k}).Keys| == |rows - {k}|;
  }

  lemma OneMore(rows: map<string, Row>, k: string, r: Row)
    ensures |rows[k := r]| <= |rows| + 1
  {
    assert rows[k := r].Keys == rows.Keys + {k};
    assert |rows.Keys| == |rows| && |rows[k := r].Keys| == |rows[k := r]|;
  }

  /** These rows were updated no later than the others. */
  ghost predicate LeastRecent(rows: map<string, Row>, dropped: set<string>) {
    && dropped <= rows.Keys
    && forall d, k :: d in dropped && k in rows && k !in dropped ==> rows[d].updatedAt <= rows[k].updatedAt
  }

  lemma DropOldest(recent: map<string, Row>, dropped: set<string>, k: string)
    requires LeastRecent(recent, dropped) && k in recent && k !in dropped
    requires forall o :: o in recent - dropped ==> recent[k].updatedAt <= recent[o].updatedAt
    ensures LeastRecent(recent, dropped + {k}) && recent - dropped - {k} == recent - (dropped + {k})
    ensures |recent - dropped - {k}| == |recent - dropped| - 1
  {
    OneFewer(recent - dropped, k);
    forall o | o in recent && o !in dropped ensures recent[k].updatedAt <= recent[o].updatedAt {
      assert o in recent - dropped;
    }
  }

  ghost predicate NoneBlocked(rows: map<string, Row>, keys: seq<string>, now: int) {
    forall k :: k in keys ==> !BlockedAt(rows, k, now)
  }

  lemma NextUnblocked(rows: map<string, Row>, keys: seq<string>, i: nat, now: int)
    requires i < |keys| && Distinct(keys) && NoneBlocked(rows, keys[i..], now)
    ensures !BlockedAt(rows, keys[i], now) && NoneBlocked(Recorded(rows, keys[i], now), keys[i + 1..], now)
  {
    assert keys[i..][0] == keys[i];
    forall k | k in keys[i + 1..] ensures !BlockedAt(Recorded(rows, keys[i], now), k, now) {
      var j :| 0 <= j < |keys[i + 1..]| && keys[i + 1..][j] == k;
      assert keys[i..][j + 1] == k && keys[i + 1 + j] == k;
      assert !BlockedAt(rows, k, now);
    }
  }

  /** The histories with one more failure for each of these keys. */
  ghost predicate Extends(before: map<string, History>, after: map<string, History>, keys: seq<string>, now: int) {
    && after.Keys == before.Keys + (set k | k in keys)
    && (forall k :: k in after && k !in keys ==> after[k] == before[k])
    && (forall k :: k in keys ==> after[k].times == (if k in before then before[k].times else []) + [now])
  }

  lemma ExtendedBy(rows: map<string, Row>, before: map<string, History>, log: map<string, History>,
                   keys: seq<string>, i: nat, now: int)
    requires i < |keys| && Distinct(keys) && Extends(before, log, keys[..i], now)
    ensures Extends(before, Extended(rows, log, keys[i], now), keys[..i + 1], now)
  {
    assert keys[..i + 1] == keys[..i] + [keys[i]];
    assert keys[i] !in keys[..i];
  }

  class LoginAttempts {
    var rows: map<string, Row>
    ghost var log: map<string, History>
    ghost var last: int

    ghost predicate Valid()
      reads this
    {
      AllOk(rows, log, last)
    }

    constructor ()
      ensures Valid() && rows == map[] && log == map[] && last == 0
    {
      rows, log, last := map[], map[], 0;
    }

    method IsRateLimited(keys: seq<string>, timestamp: int) returns (limited: bool)
      ensures limited <==> exists k :: k in keys && BlockedAt(rows, k, timestamp)
    {
      limited := false;
      for i := 0 to |keys|
        invariant limited <==> exists k :: k in keys[..i] && BlockedAt(rows, k, timestamp)
      {
        if BlockedAt(rows, keys[i], timestamp) { limited := true; }
      }
    }

    /** The key of the row not updated for longest. */
    method OldestRow() returns (oldest: string)
      requires rows != map[]
      ensures oldest in rows && forall k :: k in rows ==> rows[oldest].updatedAt <= rows[k].updatedAt
    {
      oldest :| oldest in rows;
      var todo := rows.Keys;
      while todo != {}
        invariant todo <= rows.Keys && oldest in rows
        invariant forall k :: k in rows && k !in todo ==> rows[oldest].updatedAt <= rows[k].updatedAt
        decreases todo
      {
        var k :| k in todo;
        if rows[k].updatedAt < rows[oldest].updatedAt { oldest := k; }
        todo := todo - {k};
      }
    }

    /** `pruneLoginAttempts`: rows idle since `before` go, and then the least recently updated
        ones until `maximum` are left. */
    method PruneLoginAttempts(before: int, maximum: nat) returns (ghost dropped: set<string>)
      modifies this`rows
      ensures rows == Kept(old(rows), before, dropped) && |rows| <= maximum
      ensures dropped != {} ==> |rows| == maximum
      ensures LeastRecent(Kept(old(rows), before, {}), dropped)
    {
      dropped := {};
      rows := Kept(rows, before, {});
      ghost var recent := rows;
      while |rows| > maximum
        invariant rows == recent - dropped && LeastRecent(recent, dropped)
        invariant dropped != {} ==> |rows| >= maximum
        decreases |rows|
      {
        var k := OldestRow();
        DropOldest(recent, dropped, k);
        rows, dropped := rows - {k}, dropped + {k};
      }
    }

    /** The loop of `recordLoginFailure`; `free` says that no key is blocked. */
    method RecordAll(keys: seq<string>, now: int, ghost free: bool)
      requires Distinct(keys)
      requires free ==> AllOk(rows, log, now) && NoneBlocked(rows, keys, now)
      modifies this`rows, this`log
      ensures rows == RecordedAll(old(rows), keys, now) && |rows| <= |old(rows)| + |keys|
      ensures free ==> AllOk(rows, log, now) && Extends(old(log), log, keys, now)
    {
      for i := 0 to |keys|
        invariant rows == RecordedAll(old(rows), keys[..i], now) && |rows| <= |old(rows)| + i
        invariant free ==> AllOk(rows, log, now) && Extends(old(log), log, keys[..i], now)
        invariant free ==> NoneBlocked(rows, keys[i..], now)
      {
        assert keys[..i + 1][..i] == keys[..i];
        if free {
          NextUnblocked(rows, keys, i, now);
          RecordedOk(rows, log, now, keys[i]);
          ExtendedBy(rows, old(log), log, keys, i, now);
        }
        OneMore(rows, keys[i], Recorded(rows, keys[i], now)[keys[i]]);
        log := Extended(rows, log, keys[i], now);
        rows := Recorded(rows, keys[i], now);
      }
      assert keys[..|keys|] == keys;
    }

    /** Each key's history grows by one failure, unless a key is blocked, which only
        overlapping attempts can bring about; only a full table forgets a history. */
    method RecordLoginFailure(keys: seq<string>, now: int) returns (ghost dropped: set<string>)
      requires Valid() && last <= now && Distinct(keys)
      modifies this
      ensures |rows| <= if |keys| <= MAXIMUM_ROWS then MAXIMUM_ROWS else |keys|
      ensures rows == RecordedAll(Kept(old(rows), now - KEEP, dropped), keys, now)
      ensures NoneBlocked(old(rows), keys, now) ==>
                Valid() && last == now && Extends(old(log) - dropped, log, keys, now)
      ensures LeastRecent(Kept(old(rows), now - KEEP, {}), dropped)
      ensures dropped != {} ==> |Kept(old(rows), now - KEEP, dropped)| == Room(keys)
    {
      KeptOk(rows, log, last, now, {});
      dropped := PruneLoginAttempts(now - KEEP, Room(keys));
      KeptOk(old(rows), log, last, now, dropped);
      ghost var free := NoneBlocked(old(rows), keys, now);
      log, last := log - dropped, now;
      RecordAll(keys, now, free);
    }

    /** `loginPassword`: the check, the password verification, then the record.  `matches`
        is the outcome of the verification, which ends at `recorded`. */
    method LoginPassword(login: string, ip: string, checked: int, recorded: int, matches: bool)
      returns (outcome: Outcome, ghost dropped: set<string>)
      requires Valid() && login != ip && last <= checked <= recorded
      modifies this
      ensures Valid() && last <= recorded
      ensures outcome == LoginRateLimited <==> BlockedAt(old(rows), login, checked) || BlockedAt(old(rows), ip, checked)
      ensures outcome == LoginRateLimited ==> rows == old(rows) && log == old(log)
      ensures outcome != LoginRateLimited ==> (outcome == SignedIn <==> matches)
      ensures outcome == SignedIn ==> rows == old(rows) - {login} && log == old(log) - {login}
      // A failure is added to both histories; only keys dropped for want of room restart.
      ensures outcome == InvalidCredentials ==>
                && |rows| <= MAXIMUM_ROWS && Extends(old(log) - dropped, log, [login, ip], recorded)
                && rows == RecordedAll(Kept(old(rows), recorded - KEEP, dropped), [login, ip], recorded)
                && (dropped != {} ==> |Kept(old(rows), recorded - KEEP, dropped)| == Room([login, ip]))
      ensures outcome != InvalidCredentials ==> dropped == {}
    {
      dropped := {};
      var keys := [login, ip];
      var limited := IsRateLimited(keys, checked);
      assert login in keys && ip in keys;
      if limited { return LoginRateLimited, dropped; }
      if matches {
        ClearedOk(rows, log, last, recorded, login);
        rows := rows - {login};
        log, last := log - {login}, recorded;
        return SignedIn, dropped;
      }
      dropped := RecordLoginFailure(keys, recorded);
      outcome := InvalidCredentials;
    }

    /** A key is blocked exactly when its last window is full, for 15 minutes from its last
        failure. */
    lemma BlockedExactlyWhen(key: string, t: int)
      requires Valid() && key in rows
      ensures key in log && log[key].times != []
      ensures var h, n := log[key], |log[key].times|;
              && n == |h.heads|
              && (BlockedAt(rows, key, t) <==> n - h.heads[n - 1] == 5 && t < h.times[n - 1] + 15 * 60_000)
    {
      assert KeyOk(rows, log, last, key);
    }

    /** Any half-open span of 15 minutes holds at most 8 recorded failures of one key since
        it was last cleared or dropped for want of room. */
    lemma AtMostEight(key: string, i: nat)
      requires Valid() && key in log && i + 8 < |log[key].times|
      ensures log[key].times[i] + WINDOW <= log[key].times[i + 8]
    {
      assert KeyOk(rows, log, last, key);
      BlockedSpanLimit(log[key], LIMIT, WINDOW, BLOCK, i);
    }
  }

  /** One failure opens a window, three come at its end, five more just after. */
  function BurstTime(i: int): int {
    if i == 0 then 0 else if i < LIMIT - 1 then WINDOW - 1 else WINDOW
  }

  /** Both rows after so many failures of the burst. */
  function BurstRow(i: nat): Row
    requires 1 <= i
  {
    var t := BurstTime(i - 1);
    if i < LIMIT then Row(i, 0, None, t)
    else Row(i - LIMIT + 1, WINDOW, if i == 2 * LIMIT - 1 then Some(t + BLOCK) else None, t)
  }

  function BurstRows(login: string, ip: string, i: nat): map<string, Row> {
    if i == 0 then map[] else map[login := BurstRow(i), ip := BurstRow(i)]
  }

  lemma BothRecorded(rows: map<string, Row>, a: string, b: string, now: int)
    ensures RecordedAll(rows, [a, b], now) == Recorded(Recorded(rows, a, now), b, now)
  {
    assert [a, b][..1] == [a] && [a][..0] == [];
    assert RecordedAll(rows, [a], now) == Recorded(RecordedAll(rows, [], now), a, now);
  }

  lemma BurstRecorded(rows: map<string, Row>, key: string, i: nat)
    requires i < 2 * LIMIT - 1 && if i == 0 then key !in rows else key in rows && rows[key] == BurstRow(i)
    ensures !BlockedAt(rows, key, BurstTime(i))
    ensures Recorded(rows, key, BurstTime(i)) == rows[key := BurstRow(i + 1)]
  {
  }

  lemma NextBurst(login: string, ip: string, i: nat)
    requires login != ip && i < 2 * LIMIT - 1
    ensures var rows, t := BurstRows(login, ip, i), BurstTime(i);
            && |rows| <= 2 && Kept(rows, t - KEEP, {}) == rows
            && !BlockedAt(rows, login, t) && !BlockedAt(rows, ip, t)
            && RecordedAll(rows, [login, ip], t) == BurstRows(login, ip, i + 1)
  {
    var rows, t := BurstRows(login, ip, i), BurstTime(i);
    BothRecorded(rows, login, ip, t);
    BurstRecorded(rows, login, i);
    BurstRecorded(Recorded(rows, login, t), ip, i);
  }

  /** A small table never has to drop a row. */
  lemma NothingDropped(rows: map<string, Row>, cutoff: int, dropped: set<string>, keys: seq<string>)
    requires |rows| < Room(keys) && (dropped != {} ==> |Kept(rows, cutoff, dropped)| == Room(keys))
    ensures dropped == {}
  {
    KeptNoMore(rows, cutoff, dropped);
  }

  /** A failing attempt on a small table. */
  method FailUnblocked(m: LoginAttempts, login: string, ip: string, t: int) returns (outcome: Outcome)
    requires m.Valid() && login != ip && m.last <= t && |m.rows| <= 2
    requires !BlockedAt(m.rows, login, t) && !BlockedAt(m.rows, ip, t)
    modifies m
    ensures m.Valid() && m.last <= t && outcome == InvalidCredentials
    ensures m.rows == RecordedAll(Kept(old(m.rows), t - KEEP, {}), [login, ip], t)
    ensures login in m.log
    ensures m.log[login].times == (if login in old(m.log) then old(m.log)[login].times else []) + [t]
  {
    ghost var before := m.rows;
    ghost var dropped;
    outcome, dropped := m.LoginPassword(login, ip, t, t, false);
    NothingDropped(before, t - KEEP, dropped, [login, ip]);
    assert login in [login, ip] && old(m.log) - {} == old(m.log);
  }

  /** One more failure of the burst. */
  method FailAgain(m: LoginAttempts, login: string, ip: string, i: nat) returns (outcome: Outcome)
    requires m.Valid() && login != ip && i < 2 * LIMIT - 1 && m.last <= BurstTime(i)
    requires m.rows == BurstRows(login, ip, i)
    modifies m
    ensures m.Valid() && m.last <= BurstTime(i) && outcome == InvalidCredentials
    ensures m.rows == BurstRows(login, ip, i + 1) && login in m.log
    ensures m.log[login].times == (if login in old(m.log) then old(m.log)[login].times else []) + [BurstTime(i)]
  {
    NextBurst(login, ip, i);
    outcome := FailUnblocked(m, login, ip, BurstTime(i));
  }

  /** The bound is reached: 8 failures recorded within two milliseconds, and only then a block. */
  method EightAtOnce(login: string, ip: string) returns (outcomes: seq<Outcome>, m: LoginAttempts)
    requires login != ip
    ensures |outcomes| == 2 * LIMIT - 1 && forall i :: 0 <= i < |outcomes| ==> outcomes[i] == InvalidCredentials
    ensures m.Valid() && login in m.log && m.log[login].times == seq(2 * LIMIT - 1, i => BurstTime(i))
    ensures forall i :: 1 <= i < 2 * LIMIT - 1 ==> WINDOW - 1 <= m.log[login].times[i] <= WINDOW
    ensures BlockedAt(m.rows, login, WINDOW) && BlockedAt(m.rows, ip, WINDOW)
  {
    m := new LoginAttempts();
    outcomes := [];
    for i := 0 to 2 * LIMIT - 1
      invariant m.Valid() && fresh(m) && |outcomes| == i && (0 < i ==> m.last <= BurstTime(i - 1))
      invariant i == 0 ==> m.last == 0 && login !in m.log
      invariant forall k :: 0 <= k < i ==> outcomes[k] == InvalidCredentials
      invariant m.rows == BurstRows(login, ip, i)
      invariant (if login in m.log then m.log[login].times else []) == seq(i, k => BurstTime(k))
      invariant 0 < i ==> login in m.log
    {
      var outcome := FailAgain(m, login, ip, i);
      outcomes := outcomes + [outcome];
    }
  }

  lemma KeptNoMore(rows: map<string, Row>, cutoff: int, overflow: set<string>)
    ensures |Kept(rows, cutoff, overflow)| <= |rows|
  {
    var kept := Kept(rows, cutoff, overflow);
    assert rows.Keys == kept.Keys + (rows.Keys - kept.Keys);
    assert |kept.Keys| == |kept| && |rows.Keys| == |rows|;
  }
}
